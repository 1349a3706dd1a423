/**
 Bounded admission: any number of callers race to raise one atomic counter with a weak
 compare-exchange loop and lower it when their guard is dropped. The counter is its modification
 order; a plain load, and the load of a failed exchange, may return any value not older than what the
 caller has already seen.
 */
module Admission {
  import opened Wrappers

  type Caller = nat

  /** The machine word of the counter, which `fetch_sub` wraps in. */
  const WORD: nat := 0x1_0000_0000

  /** Where a caller is; `seen` is the position in the modification order it last read. */
  datatype Phase = Loaded(seen: nat) | Holding | Released | Refused(seen: nat)

  /**
   All values the counter ever had, in modification order, and who is where. `holders` records beside
   each value the callers that held a guard from that moment on.
   */
  datatype State = State(history: seq<nat>, holders: seq<set<Caller>>, callers: map<Caller, Phase>)

  datatype Action =
    | Load(caller: Caller, at: nat)      // the first read, possibly stale
    | Refuse(caller: Caller)             // what was read is the maximum or more
    | Exchange(caller: Caller)           // the exchange succeeds on the latest value
    | Miss(caller: Caller, at: nat)      // it fails, spuriously or not, and returns some value
    | Drop(caller: Caller)               // the guard is dropped, at any await point

  function Initial(): State { State([0], [{}], map[]) }

  function Latest(s: State): nat requires s.history != [] { s.history[|s.history| - 1] }

  function LatestHolders(s: State): set<Caller> requires s.holders != [] { s.holders[|s.holders| - 1] }

  predicate IsLoaded(s: State, c: Caller) {
    c in s.callers && s.callers[c].Loaded? && s.callers[c].seen < |s.history|
  }

  predicate Enabled(maximum: nat, s: State, a: Action) {
    s.history != [] && s.holders != [] &&
    match a
    case Load(c, at) => c !in s.callers && at < |s.history|
    case Refuse(c) => IsLoaded(s, c) && s.history[s.callers[c].seen] >= maximum
    case Exchange(c) =>
      IsLoaded(s, c) && s.history[s.callers[c].seen] < maximum && s.history[s.callers[c].seen] == Latest(s)
    case Miss(c, at) =>
      IsLoaded(s, c) && s.history[s.callers[c].seen] < maximum && s.callers[c].seen <= at < |s.history|
    case Drop(c) => c in s.callers && s.callers[c] == Holding
  }

  /** `fetch_sub` wraps below zero. */
  function Decremented(n: nat): nat { if n == 0 then WORD - 1 else n - 1 }

  function Perform(s: State, a: Action): State
    requires s.history != [] && s.holders != []
    requires a.Refuse? || a.Exchange? ==> IsLoaded(s, a.caller)
  {
    match a
    case Load(c, at) => s.(callers := s.callers[c := Loaded(at)])
    case Refuse(c) => s.(callers := s.callers[c := Refused(s.callers[c].seen)])
    case Exchange(c) =>
      State(s.history + [s.history[s.callers[c].seen] + 1], s.holders + [LatestHolders(s) + {c}],
            s.callers[c := Holding])
    case Miss(c, at) => s.(callers := s.callers[c := Loaded(at)])
    case Drop(c) =>
      State(s.history + [Decremented(Latest(s))], s.holders + [LatestHolders(s) - {c}], s.callers[c := Released])
  }

  /** The state after a whole run, if every action was enabled in turn. */
  function Run(maximum: nat, actions: seq<Action>): Option<State> {
    if actions == [] then Some(Initial())
    else
      var s :- Run(maximum, actions[..|actions| - 1]);
      var a := actions[|actions| - 1];
      if Enabled(maximum, s, a) then Some(Perform(s, a)) else None
  }

  /** The guards that exist now. */
  function Live(s: State): set<Caller> { set c | c in s.callers && s.callers[c] == Holding }

  predicate Invariant(maximum: nat, s: State) {
    && |s.history| == |s.holders| && s.history != []
    && LatestHolders(s) == Live(s)
    && (forall k :: 0 <= k < |s.history| ==> s.history[k] == |s.holders[k]| && s.history[k] <= maximum)
    && (forall c :: c in s.callers ==>
          match s.callers[c]
          case Loaded(seen) => seen < |s.history|
          case Refused(seen) => seen < |s.history| && s.history[seen] >= maximum
          case _ => true)
  }

  lemma InitialHolds(maximum: nat)
    ensures Invariant(maximum, Initial())
  {
  }

  lemma LiveAfter(s: State, c: Caller, phase: Phase)
    ensures Live(s.(callers := s.callers[c := phase])) == if phase == Holding then Live(s) + {c} else Live(s) - {c}
  {
  }

  /** One more value in the modification order keeps what was known of the older ones. */
  lemma Extended(maximum: nat, s: State, value: nat, holders: set<Caller>, c: Caller, phase: Phase)
    requires Invariant(maximum, s) && (phase == Holding || phase == Released)
    requires value == |holders| <= maximum
    requires holders == if phase == Holding then Live(s) + {c} else Live(s) - {c}
    ensures Invariant(maximum, State(s.history + [value], s.holders + [holders], s.callers[c := phase]))
  {
    LiveAfter(s, c, phase);
    var t := State(s.history + [value], s.holders + [holders], s.callers[c := phase]);
    assert Live(t) == Live(s.(callers := s.callers[c := phase]));
  }

  /** Reads and refusals change neither the counter nor the guards. */
  lemma Repositioned(maximum: nat, s: State, c: Caller, phase: Phase)
    requires Invariant(maximum, s) && (c in s.callers ==> s.callers[c] != Holding)
    requires match phase
             case Loaded(seen) => seen < |s.history|
             case Refused(seen) => seen < |s.history| && s.history[seen] >= maximum
             case _ => false
    ensures Invariant(maximum, s.(callers := s.callers[c := phase]))
  {
    LiveAfter(s, c, phase);
    assert Live(s) - {c} == Live(s);
  }

  lemma StepKeeps(maximum: nat, s: State, a: Action)
    requires Invariant(maximum, s) && Enabled(maximum, s, a)
    ensures Invariant(maximum, Perform(s, a))
  {
    var c := a.caller;
    match a
    case Load(_, at) => Repositioned(maximum, s, c, Loaded(at));
    case Refuse(_) => Repositioned(maximum, s, c, Refused(s.callers[c].seen));
    case Miss(_, at) => Repositioned(maximum, s, c, Loaded(at));
    case Exchange(_) => Admitted(maximum, s, c);
    case Drop(_) => Dropped(maximum, s, c);
  }

  lemma Admitted(maximum: nat, s: State, c: Caller)
    requires Invariant(maximum, s) && Enabled(maximum, s, Exchange(c))
    ensures Invariant(maximum, Perform(s, Exchange(c)))
  {
    assert c !in Live(s);
    Extended(maximum, s, Latest(s) + 1, Live(s) + {c}, c, Holding);
  }

  lemma Dropped(maximum: nat, s: State, c: Caller)
    requires Invariant(maximum, s) && Enabled(maximum, s, Drop(c))
    ensures Latest(s) > 0
    ensures Invariant(maximum, Perform(s, Drop(c)))
  {
    assert c in Live(s);
    assert Latest(s) == |Live(s)|;
    Extended(maximum, s, Latest(s) - 1, Live(s) - {c}, c, Released);
  }

  lemma {:induction false} RunKeeps(maximum: nat, actions: seq<Action>)
    requires Run(maximum, actions).Some?
    ensures Invariant(maximum, Run(maximum, actions).value)
  {
    if actions == [] {
      InitialHolds(maximum);
    } else {
      var before := actions[..|actions| - 1];
      RunKeeps(maximum, before);
      StepKeeps(maximum, Run(maximum, before).value, actions[|actions| - 1]);
    }
  }

  /** In every interleaving the counter is the number of live guards and never exceeds the maximum. */
  lemma CounterIsLiveGuards(maximum: nat, actions: seq<Action>)
    requires Run(maximum, actions).Some?
    ensures var s := Run(maximum, actions).value;
            s.history != [] && Latest(s) == |Live(s)| <= maximum
  {
    RunKeeps(maximum, actions);
  }

  /** No drop ever wraps the counter below zero. */
  lemma NeverUnderflows(maximum: nat, actions: seq<Action>, c: Caller)
    requires Run(maximum, actions).Some? && Enabled(maximum, Run(maximum, actions).value, Drop(c))
    ensures var s := Run(maximum, actions).value;
            Latest(s) > 0 && Latest(Perform(s, Drop(c))) == Latest(s) - 1
  {
    RunKeeps(maximum, actions);
    Dropped(maximum, Run(maximum, actions).value, c);
  }

  /**
   A refusal is justified: at some moment of the modification order, which the caller read, exactly
   the maximum number of guards were held.
   */
  lemma RefusedOnlyWhenFull(maximum: nat, actions: seq<Action>, c: Caller)
    requires Run(maximum, actions).Some?
    requires var s := Run(maximum, actions).value; c in s.callers && s.callers[c].Refused?
    ensures var s := Run(maximum, actions).value;
            var seen := s.callers[c].seen;
            && seen < |s.history| == |s.holders|
            && s.history[seen] == maximum == |s.holders[seen]|
            && c !in Live(s)
  {
    RunKeeps(maximum, actions);
  }

  lemma RunPush(maximum: nat, actions: seq<Action>, a: Action)
    requires Run(maximum, actions).Some? && Enabled(maximum, Run(maximum, actions).value, a)
    ensures Run(maximum, actions + [a]) == Some(Perform(Run(maximum, actions).value, a))
  {
    assert (actions + [a])[..|actions|] == actions;
  }

  /** Slots are not leaked: while fewer guards than the maximum live, a newcomer that is not raced gets in. */
  lemma FreeSlotIsObtainable(maximum: nat, actions: seq<Action>, c: Caller)
    requires Run(maximum, actions).Some?
    requires var s := Run(maximum, actions).value; c !in s.callers && |Live(s)| < maximum
    ensures var s := Run(maximum, actions).value;
            && s.history != []
            && var r := Run(maximum, actions + [Load(c, |s.history| - 1)] + [Exchange(c)]);
               r.Some? && Live(r.value) == Live(s) + {c}
  {
    RunKeeps(maximum, actions);
    var s := Run(maximum, actions).value;
    var load := Load(c, |s.history| - 1);
    RunPush(maximum, actions, load);
    RunPush(maximum, actions + [load], Exchange(c));
    RunKeeps(maximum, actions + [load]);
    LiveAfter(s, c, Loaded(load.at));
    var t := Perform(s, load);
    assert Live(t) == Live(s);
    LiveAfter(t, c, Holding);
  }

  /** A read changes neither counter nor guards. */
  lemma AfterLoad(maximum: nat, actions: seq<Action>, c: Caller)
    requires Run(maximum, actions).Some? && c !in Run(maximum, actions).value.callers
    ensures var s := Run(maximum, actions).value;
            && s.history != [] && s.holders != []
            && var load := Load(c, |s.history| - 1);
               Run(maximum, actions + [load]) == Some(Perform(s, load)) && Live(Perform(s, load)) == Live(s)
  {
    RunKeeps(maximum, actions);
    var s := Run(maximum, actions).value;
    RunPush(maximum, actions, Load(c, |s.history| - 1));
    LiveAfter(s, c, Loaded(|s.history| - 1));
    assert Live(Perform(s, Load(c, |s.history| - 1))) == Live(s);
  }

  /** And the bound is kept: with as many guards as the maximum, a newcomer that reads the latest value is refused. */
  lemma FullIsRefused(maximum: nat, actions: seq<Action>, c: Caller)
    requires Run(maximum, actions).Some?
    requires var s := Run(maximum, actions).value; c !in s.callers && |Live(s)| == maximum
    ensures var s := Run(maximum, actions).value;
            && s.history != []
            && var r := Run(maximum, actions + [Load(c, |s.history| - 1)] + [Refuse(c)]);
               r.Some? && Live(r.value) == Live(s)
  {
    RunKeeps(maximum, actions);
    AfterLoad(maximum, actions, c);
    var s := Run(maximum, actions).value;
    var load := Load(c, |s.history| - 1);
    var t := Perform(s, load);
    RunPush(maximum, actions + [load], Refuse(c));
    LiveAfter(t, c, Refused(load.at));
    assert c !in Live(t);
  }

  /** A caller that has read below the maximum is not refused but tries; one at the maximum only gives up. */
  lemma LoopDecides(maximum: nat, s: State, c: Caller)
    requires s.history != [] && s.holders != [] && IsLoaded(s, c)
    ensures Enabled(maximum, s, Refuse(c)) <==> s.history[s.callers[c].seen] >= maximum
    ensures Enabled(maximum, s, Refuse(c)) <==> !Enabled(maximum, s, Miss(c, s.callers[c].seen))
    ensures Enabled(maximum, s, Exchange(c)) ==> Enabled(maximum, s, Miss(c, s.callers[c].seen))
  {
  }

  /**
   Nothing is assumed of the scheduler or the memory: a first read may return any value there ever was,
   a failed exchange any value not older than the last one read, whether or not the exchange could have
   succeeded, and a guard may be dropped at any time.
   */
  lemma SchedulerIsFree(maximum: nat, s: State, c: Caller, at: nat)
    requires s.history != [] && s.holders != [] && at < |s.history|
    ensures c !in s.callers ==> Enabled(maximum, s, Load(c, at))
    ensures IsLoaded(s, c) && s.history[s.callers[c].seen] < maximum && s.callers[c].seen <= at
            ==> Enabled(maximum, s, Miss(c, at))
    ensures c in Live(s) ==> Enabled(maximum, s, Drop(c))
  {
  }
}
