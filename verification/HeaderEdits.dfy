/** The two ways the components rewrite a header resource: by diffing lists and by named edits. */
module HeaderEdits {
  import opened Text
  import opened Headers

  /** The names in `names` that `desired` has with other values than `original`. */
  function Changed(original: HeaderMap, desired: HeaderMap, names: set<string>): HeaderMap {
    map k | k in names && k in desired && Get(original, k) != Get(desired, k) :: desired[k]
  }

  /** `m` after the difference between two lists has been applied to it. */
  function Patched(m: HeaderMap, original: HeaderMap, desired: HeaderMap): HeaderMap {
    (m - (original.Keys - desired.Keys)) + Changed(original, desired, desired.Keys)
  }

  /** The names under which the two lists disagree. */
  function Differing(original: HeaderMap, desired: HeaderMap): set<string> {
    set k | k in original.Keys + desired.Keys && Get(original, k) != Get(desired, k)
  }

  /** The difference leads from the original to the desired values under every name. */
  lemma PatchedOriginalIsDesired(original: HeaderMap, desired: HeaderMap)
    requires NoEmptyLists(original) && NoEmptyLists(desired)
    ensures Patched(original, original, desired) == desired
  {
    var p := Patched(original, original, desired);
    forall k ensures k in p <==> k in desired {}
    forall k | k in desired ensures p[k] == desired[k] {}
  }

  /** `m` without the deleted names, and with the replacement values under their own names. */
  function Edited(m: HeaderMap, deletes: seq<string>, replacements: HeaderMap): HeaderMap {
    (m - LowerNames(deletes)) + replacements
  }

  /** `header_values_equal`: two filtered iterators in step. */
  method HeaderValuesEqual(original: seq<Header>, desired: seq<Header>, name: string) returns (same: bool)
    ensures same <==> Get(View(original), Lower(name)) == Get(View(desired), Lower(name))
  {
    HeaderValuesAreTheView(original, name);
    HeaderValuesAreTheView(desired, name);
    var a, b := HeaderValues(original, name), HeaderValues(desired, name);
    var i := 0;
    while i < |a| && i < |b| && a[i] == b[i]
      invariant i <= |a| && i <= |b| && a[..i] == b[..i]
    {
      i := i + 1;
    }
    if i == |a| && i == |b| {
      assert a == a[..i] && b == b[..i];
    }
    return i == |a| && i == |b|;
  }

  lemma ChangedStep(original: HeaderMap, desired: HeaderMap, names: set<string>, key: string)
    ensures Changed(original, desired, names + {key})
            == if key in desired && Get(original, key) != Get(desired, key)
               then Changed(original, desired, names)[key := desired[key]]
               else Changed(original, desired, names)
  {
  }

  lemma UnwantedStep(m: HeaderMap, seen: set<string>, wanted: set<string>, key: string)
    ensures (seen + {key}) - wanted == if key in wanted then seen - wanted else (seen - wanted) + {key}
    ensures key !in wanted ==> m - ((seen + {key}) - wanted) == m - (seen - wanted) - {key}
  {
  }

  lemma UpdateUnion(m: HeaderMap, n: HeaderMap, key: string, values: seq<Value>)
    ensures m + n[key := values] == (m + n)[key := values]
    ensures n[key := values].Keys == n.Keys + {key}
  {
  }

  /** The first loop of the diff: names that are no longer wanted. */
  method DeleteUnwanted(fields: Fields, original: seq<Header>, desired: seq<Header>)
    modifies fields
    ensures fields.Contents() == old(fields.Contents()) - (View(original).Keys - View(desired).Keys)
    ensures fields.touched == old(fields.touched) + (View(original).Keys - View(desired).Keys)
  {
    ViewKeys(original);
    ViewKeys(desired);
    var names := UniqueNames(Names(original));
    ghost var before, wanted := fields.Contents(), View(desired).Keys;
    ghost var gone: set<string> := {};
    for i := 0 to |names|
      invariant gone == LowerNames(names[..i]) - wanted
      invariant fields.Contents() == before - gone
      invariant fields.touched == old(fields.touched) + gone
    {
      LowerNamesStep(names, i);
      UnwantedStep(before, LowerNames(names[..i]), wanted, Lower(names[i]));
      var kept := Mentions(Names(desired), names[i]);
      MentionsIsMembership(Names(desired), names[i]);
      if !kept {
        gone := gone + {Lower(names[i])};
        fields.Delete(names[i]);
      }
    }
    assert names[..|names|] == names;
  }

  lemma MentionsIsMembership(names: seq<string>, name: string)
    ensures ContainsFold(names, name) <==> Lower(name) in LowerNames(names)
  {
  }

  lemma WantedStep(names: seq<string>, i: nat, original: HeaderMap, desired: HeaderMap, start: HeaderMap)
    requires i < |names| && LowerNames(names) == desired.Keys
    ensures var key := Lower(names[i]);
            var before := Changed(original, desired, LowerNames(names[..i]));
            var after := Changed(original, desired, LowerNames(names[..i + 1]));
            && key in desired
            && if Get(original, key) == desired[key] then after == before
               else start + after == (start + before)[key := desired[key]] && after.Keys == before.Keys + {key}
  {
    var key, before := Lower(names[i]), Changed(original, desired, LowerNames(names[..i]));
    LowerNamesStep(names, i);
    assert key in LowerNames(names);
    ChangedStep(original, desired, LowerNames(names[..i]), key);
    UpdateUnion(start, before, key, desired[key]);
  }

  /** One round of the second loop: gives a name its wanted values unless it has them already. */
  method SetIfChanged(fields: Fields, original: seq<Header>, desired: seq<Header>, name: string)
    requires Lower(name) in View(desired)
    modifies fields
    ensures var key, wanted := Lower(name), View(desired)[Lower(name)];
            if Get(View(original), key) == wanted
            then fields.Contents() == old(fields.Contents()) && fields.touched == old(fields.touched)
            else && fields.Contents() == old(fields.Contents())[key := wanted]
                 && fields.touched == old(fields.touched) + {key}
  {
    var same := HeaderValuesEqual(original, desired, name);
    if !same {
      HeaderValuesAreTheView(desired, name);
      ViewHasNoEmptyLists(desired);
      fields.Set(name, HeaderValues(desired, name));
    }
  }

  /** The second loop over the names, with the meanings `o` and `d` of the two lists. */
  method SetEach(fields: Fields, original: seq<Header>, desired: seq<Header>, names: seq<string>,
                 ghost o: HeaderMap, ghost d: HeaderMap)
    requires o == View(original) && d == View(desired) && LowerNames(names) == d.Keys
    modifies fields
    ensures fields.Contents() == old(fields.Contents()) + Changed(o, d, d.Keys)
    ensures fields.touched == old(fields.touched) + Changed(o, d, d.Keys).Keys
  {
    ghost var before, touched := fields.Contents(), fields.touched;
    NothingChanged(names, o, d);
    for i := 0 to |names|
      invariant fields.Contents() == before + Changed(o, d, LowerNames(names[..i]))
      invariant fields.touched == touched + Changed(o, d, LowerNames(names[..i])).Keys
    {
      WantedStep(names, i, o, d, before);
      SetIfChanged(fields, original, desired, names[i]);
    }
    assert names[..|names|] == names;
  }

  lemma NothingChanged(names: seq<string>, original: HeaderMap, desired: HeaderMap)
    ensures Changed(original, desired, LowerNames(names[..0])) == map[]
  {
  }

  /** The second loop of the diff: names whose ordered values are not the wanted ones. */
  method SetWanted(fields: Fields, original: seq<Header>, desired: seq<Header>)
    modifies fields
    ensures fields.Contents()
            == old(fields.Contents()) + Changed(View(original), View(desired), View(desired).Keys)
    ensures fields.touched
            == old(fields.touched) + Changed(View(original), View(desired), View(desired).Keys).Keys
  {
    ViewKeys(desired);
    var names := UniqueNames(Names(desired));
    SetEach(fields, original, desired, names, View(original), View(desired));
  }

  /**
   `apply_header_diff`. On a resource that holds `original` the result holds `desired` (by
   PatchedOriginalIsDesired), and no name whose ordered values already agree is operated on.
   */
  method ApplyHeaderDiff(fields: Fields, original: seq<Header>, desired: seq<Header>)
    modifies fields
    ensures fields.Contents() == Patched(old(fields.Contents()), View(original), View(desired))
    ensures old(fields.Contents()) == View(original) ==> fields.Contents() == View(desired)
    ensures fields.touched == old(fields.touched) + Differing(View(original), View(desired))
  {
    ghost var o, d := View(original), View(desired);
    ViewHasNoEmptyLists(original);
    ViewHasNoEmptyLists(desired);
    PatchedOriginalIsDesired(o, d);
    TouchedIsDiffering(o, d);
    DeleteUnwanted(fields, original, desired);
    SetWanted(fields, original, desired);
  }

  lemma TouchedIsDiffering(original: HeaderMap, desired: HeaderMap)
    requires NoEmptyLists(original) && NoEmptyLists(desired)
    ensures (original.Keys - desired.Keys) + Changed(original, desired, desired.Keys).Keys
            == Differing(original, desired)
  {
  }

  /** The loop that deletes each name once. */
  method DeleteAll(fields: Fields, names: seq<string>)
    modifies fields
    ensures fields.Contents() == old(fields.Contents()) - LowerNames(names)
  {
    var unique := UniqueNames(names);
    ghost var before := fields.Contents();
    for i := 0 to |unique|
      invariant fields.Contents() == before - LowerNames(unique[..i])
    {
      LowerNamesStep(unique, i);
      fields.Delete(unique[i]);
    }
    assert unique[..|unique|] == unique;
  }

  /** The loop that appends the replacements one by one. */
  method AppendAll(fields: Fields, replacements: seq<Header>)
    requires fields.Contents().Keys !! View(replacements).Keys
    modifies fields
    ensures fields.Contents() == old(fields.Contents()) + View(replacements)
  {
    ghost var before := fields.Contents();
    for i := 0 to |replacements|
      invariant fields.Contents() == before + View(replacements[..i])
    {
      var r := replacements[i];
      assert replacements[..i + 1] == replacements[..i] + [r];
      ViewPush(replacements[..i], r.name, r.value);
      PrefixKeys(replacements, i);
      AddToUnion(before, View(replacements[..i]), r.name, r.value);
      fields.Append(r.name, r.value);
    }
    assert replacements[..|replacements|] == replacements;
  }

  lemma PrefixKeys(h: seq<Header>, i: nat)
    requires i < |h|
    ensures Lower(h[i].name) in View(h)
  {
    ViewKeys(h);
    assert Names(h)[i] == h[i].name;
  }

  /** `apply_header_edits` */
  method ApplyHeaderEdits(fields: Fields, deletes: seq<string>, replacements: seq<Header>)
    modifies fields
    ensures fields.Contents() == Edited(old(fields.Contents()), deletes, View(replacements))
  {
    ghost var before := fields.Contents();
    ViewKeys(replacements);
    DeleteAll(fields, deletes);
    DeleteAll(fields, Names(replacements));
    AppendAll(fields, replacements);
    EditedInTwoSteps(before, deletes, View(replacements));
  }

  lemma EditedInTwoSteps(m: HeaderMap, deletes: seq<string>, replacements: HeaderMap)
    ensures m - LowerNames(deletes) - replacements.Keys + replacements == Edited(m, deletes, replacements)
  {
  }

  /** What the edits promise, name by name; a name both deleted and replaced is replaced. */
  lemma EditedByName(m: HeaderMap, deletes: seq<string>, replacements: HeaderMap, key: string)
    ensures Get(Edited(m, deletes, replacements), key)
            == if key in replacements then replacements[key]
               else if key in LowerNames(deletes) then []
               else Get(m, key)
  {
  }

  // ----- Edits agree with a diff against the list built by removing and pushing -----

  function RemoveHeaders(h: seq<Header>, names: seq<string>): seq<Header> {
    if names == [] then h
    else RemoveHeader(RemoveHeaders(h, names[..|names| - 1]), names[|names| - 1])
  }

  lemma {:induction false} ViewRemoveHeaders(h: seq<Header>, names: seq<string>)
    ensures View(RemoveHeaders(h, names)) == View(h) - LowerNames(names)
  {
    if names == [] {
      assert View(h) - LowerNames(names) == View(h);
    } else {
      var front, last := names[..|names| - 1], names[|names| - 1];
      ViewRemoveHeaders(h, front);
      ViewRemoveHeader(RemoveHeaders(h, front), last);
      LowerNamesPush(front, last);
      assert names == front + [last];
      assert View(h) - LowerNames(front) - {Lower(last)} == View(h) - (LowerNames(front) + {Lower(last)});
    }
  }

  /** The list that `remove_header` and pushing build for the same request. */
  function EditedList(h: seq<Header>, deletes: seq<string>, replacements: seq<Header>): seq<Header> {
    RemoveHeaders(RemoveHeaders(h, deletes), Names(replacements)) + replacements
  }

  /** Applying edits to a resource and applying the diff to the edited list are the same rewrite. */
  lemma EditsAgreeWithDiff(h: seq<Header>, deletes: seq<string>, replacements: seq<Header>)
    ensures View(EditedList(h, deletes, replacements)) == Edited(View(h), deletes, View(replacements))
    ensures Patched(View(h), View(h), View(EditedList(h, deletes, replacements)))
            == Edited(View(h), deletes, View(replacements))
  {
    var removed := RemoveHeaders(RemoveHeaders(h, deletes), Names(replacements));
    ViewRemoveHeaders(h, deletes);
    ViewRemoveHeaders(RemoveHeaders(h, deletes), Names(replacements));
    ViewKeys(replacements);
    ViewConcat(removed, replacements);
    EditedInTwoSteps(View(h), deletes, View(replacements));
    ViewHasNoEmptyLists(h);
    ViewHasNoEmptyLists(EditedList(h, deletes, replacements));
    PatchedOriginalIsDesired(View(h), View(EditedList(h, deletes, replacements)));
  }
}
