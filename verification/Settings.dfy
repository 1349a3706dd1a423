/** The process environment, as components look keys up in it. */
module Settings {
  import opened Wrappers

  type EnvironmentList = seq<(string, string)>

  function ValuesOf(environment: EnvironmentList, key: string): seq<string> {
    if environment == [] then []
    else (if environment[0].0 == key then [environment[0].1] else []) + ValuesOf(environment[1..], key)
  }

  /** `environment_value`: the one value of a key, if any; a key that occurs twice is an error. */
  function EnvironmentValue<E>(environment: EnvironmentList, key: string, duplicate: E): Result<Option<string>, E> {
    var values := ValuesOf(environment, key);
    if |values| > 1 then Err(duplicate)
    else Ok(if values == [] then None else Some(values[0]))
  }

  /** The value of a key that occurs at most once. */
  function OnlyValue(environment: EnvironmentList, key: string): Option<string> {
    var values := ValuesOf(environment, key);
    if values == [] then None else Some(values[0])
  }

  /** The values of a key are those it is paired with. */
  lemma {:induction false} ValuesOfMembers(environment: EnvironmentList, key: string)
    ensures forall v :: v in ValuesOf(environment, key) <==> (key, v) in environment
  {
    if environment == [] {
    } else {
      ValuesOfMembers(environment[1..], key);
      assert environment == [environment[0]] + environment[1..];
    }
  }

  predicate Occurs(environment: EnvironmentList, key: string, i: nat) {
    i < |environment| && environment[i].0 == key
  }

  lemma OccursInRest(environment: EnvironmentList, key: string)
    requires environment != []
    ensures forall i: nat :: Occurs(environment[1..], key, i) <==> Occurs(environment, key, i + 1)
  {
  }

  lemma {:induction false} OccurrenceFound(environment: EnvironmentList, key: string)
    ensures ValuesOf(environment, key) != [] <==> exists i: nat :: Occurs(environment, key, i)
  {
    if environment == [] {
    } else {
      OccurrenceFound(environment[1..], key);
      OccursInRest(environment, key);
      if i: nat :| Occurs(environment, key, i) {
        if i > 0 { assert Occurs(environment[1..], key, i - 1); } else { assert environment[0].0 == key; }
      }
      if environment[0].0 == key { assert Occurs(environment, key, 0); }
    }
  }

  /** A key has more than one value exactly when it stands in two places, with equal values or not. */
  lemma {:induction false} RepetitionFound(environment: EnvironmentList, key: string)
    ensures |ValuesOf(environment, key)| > 1
            <==> exists i: nat, j: nat :: i < j && Occurs(environment, key, i) && Occurs(environment, key, j)
  {
    if environment == [] {
    } else {
      var rest := environment[1..];
      RepetitionFound(rest, key);
      OccurrenceFound(rest, key);
      OccursInRest(environment, key);
      if i: nat, j: nat :| i < j && Occurs(environment, key, i) && Occurs(environment, key, j) {
        assert Occurs(rest, key, j - 1);
        if i > 0 { assert Occurs(rest, key, i - 1); }
      }
      if i: nat, j: nat :| i < j && Occurs(rest, key, i) && Occurs(rest, key, j) {
        assert Occurs(environment, key, i + 1) && Occurs(environment, key, j + 1);
      }
      if environment[0].0 == key && ValuesOf(rest, key) != [] {
        var j: nat :| Occurs(rest, key, j);
        assert Occurs(environment, key, 0) && Occurs(environment, key, j + 1);
      }
    }
  }
}
