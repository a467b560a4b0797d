/** applyPolicyOp of internal/arm/keyvault.go: edits of a vault's access-policy list, whose
    entries are keyed by object id in any case. */
module AccessPolicies {
  import opened Text

  datatype Grants = Grants(keys: seq<string>, secrets: seq<string>, certificates: seq<string>, storage: seq<string>)

  datatype Entry = Entry(tenantId: string, objectId: string, permissions: Grants)

  /** A list absent from the document is an empty one. */
  function Listed(list: Option<seq<Entry>>): seq<Entry> {
    if list.None? then [] else list.value
  }

  predicate SameObject(a: Entry, b: Entry) {
    EqualFold(a.objectId, b.objectId)
  }

  predicate Names(list: seq<Entry>, e: Entry) {
    exists i :: 0 <= i < |list| && SameObject(list[i], e)
  }

  // ---- what each kind of edit makes of the list ----

  /** Adding one entry: over the first entry of the same object, else at the end. */
  function MergeOne(list: seq<Entry>, e: Entry): seq<Entry> {
    if list == [] then [e]
    else if SameObject(list[0], e) then [e] + list[1..]
    else [list[0]] + MergeOne(list[1..], e)
  }

  function Merge(list: seq<Entry>, incoming: seq<Entry>): seq<Entry>
    decreases |incoming|
  {
    if incoming == [] then list else Merge(MergeOne(list, incoming[0]), incoming[1..])
  }

  function Without(list: seq<Entry>, incoming: seq<Entry>): seq<Entry> {
    if list == [] then []
    else (if Names(incoming, list[0]) then [] else [list[0]]) + Without(list[1..], incoming)
  }

  function PolicyOp(current: seq<Entry>, incoming: seq<Entry>, kind: string): seq<Entry> {
    if kind == "replace" then incoming
    else if kind == "remove" then Without(current, incoming)
    else Merge(current, incoming)
  }

  // ---- the loops ----

  lemma {:induction false} MergeOneAt(list: seq<Entry>, e: Entry, i: nat)
    requires i <= |list| && forall j :: 0 <= j < i ==> !SameObject(list[j], e)
    ensures i < |list| && SameObject(list[i], e) ==> MergeOne(list, e) == list[i := e]
    ensures i == |list| ==> MergeOne(list, e) == list + [e]
  {
    if list != [] && i > 0 {
      MergeOneAt(list[1..], e, i - 1);
    }
  }

  lemma {:induction false} MergeSnoc(list: seq<Entry>, incoming: seq<Entry>, e: Entry)
    ensures Merge(list, incoming + [e]) == MergeOne(Merge(list, incoming), e)
    decreases |incoming|
  {
    if incoming == [] {
      assert ([] + [e])[1..] == [];
    } else {
      MergeSnoc(MergeOne(list, incoming[0]), incoming[1..], e);
      assert (incoming + [e])[1..] == incoming[1..] + [e];
    }
  }

  lemma {:induction false} WithoutSnoc(list: seq<Entry>, e: Entry, incoming: seq<Entry>)
    ensures Without(list + [e], incoming) == Without(list, incoming) + (if Names(incoming, e) then [] else [e])
  {
    hide Names;
    if list == [] {
      assert ([] + [e])[1..] == [];
    } else {
      WithoutSnoc(list[1..], e, incoming);
      assert (list + [e])[1..] == list[1..] + [e];
    }
  }

  method AddOne(list: seq<Entry>, e: Entry) returns (out: seq<Entry>)
    ensures out == MergeOne(list, e)
  {
    out := list;
    var replaced := false;
    for i := 0 to |out|
      invariant !replaced && out == list
      invariant forall j :: 0 <= j < i ==> !SameObject(list[j], e)
    {
      if SameObject(out[i], e) {
        MergeOneAt(list, e, i);
        out := out[i := e];
        replaced := true;
        break;
      }
    }
    if !replaced {
      MergeOneAt(list, e, |list|);
      out := out + [e];
    }
  }

  lemma DropMeans(incoming: seq<Entry>, e: Entry)
    ensures Lower(e.objectId) in (set d | d in incoming :: Lower(d.objectId)) <==> Names(incoming, e)
  {
    if Names(incoming, e) {
      var i :| 0 <= i < |incoming| && SameObject(incoming[i], e);
      assert incoming[i] in incoming;
    }
    if d: Entry :| d in incoming && Lower(d.objectId) == Lower(e.objectId) {
      var i :| 0 <= i < |incoming| && incoming[i] == d;
      assert SameObject(incoming[i], e);
    }
  }

  method ApplyPolicyOp(current: Option<seq<Entry>>, incoming: Option<seq<Entry>>, kind: string)
    returns (out: seq<Entry>)
    ensures out == PolicyOp(Listed(current), Listed(incoming), kind)
    ensures Edits(Listed(current), Listed(incoming), kind, out)
  {
    EditMeaning(current, incoming, kind);
    hide Names, Lower, MergeOne, Edits;
    var had, given := Listed(current), Listed(incoming);
    if kind == "replace" {
      return given;
    }
    if kind == "remove" {
      var drop: set<string> := {};
      for i := 0 to |given|
        invariant drop == set d | d in given[..i] :: Lower(d.objectId)
      {
        assert given[..i + 1] == given[..i] + [given[i]];
        drop := drop + {Lower(given[i].objectId)};
      }
      assert given[..|given|] == given;
      out := [];
      for i := 0 to |had|
        invariant out == Without(had[..i], given)
      {
        WithoutSnoc(had[..i], had[i], given);
        DropMeans(given, had[i]);
        assert had[..i + 1] == had[..i] + [had[i]];
        if Lower(had[i].objectId) !in drop {
          out := out + [had[i]];
        }
      }
      assert had[..|had|] == had;
      return;
    }
    out := had;
    for i := 0 to |given|
      invariant out == Merge(had, given[..i])
    {
      MergeSnoc(had, given[..i], given[i]);
      assert given[..i + 1] == given[..i] + [given[i]];
      out := AddOne(out, given[i]);
    }
    assert given[..|given|] == given;
  }

  // ---- what the edited list holds ----

  /** The entry a data plane finds for an object: the first one. */
  function Find(list: seq<Entry>, id: string): Option<Entry> {
    if list == [] then None
    else if EqualFold(list[0].objectId, id) then Some(list[0])
    else Find(list[1..], id)
  }

  /** The entry an edit leaves for an object it names: the last one. */
  function Last(list: seq<Entry>, id: string): Option<Entry> {
    if list == [] then None
    else if EqualFold(list[|list| - 1].objectId, id) then Some(list[|list| - 1])
    else Last(list[..|list| - 1], id)
  }

  lemma {:induction false} FindAfterOne(list: seq<Entry>, e: Entry, id: string)
    ensures Find(MergeOne(list, e), id) == if EqualFold(e.objectId, id) then Some(e) else Find(list, id)
  {
    if list != [] {
      FindAfterOne(list[1..], e, id);
      assert ([list[0]] + MergeOne(list[1..], e))[1..] == MergeOne(list[1..], e);
      assert ([e] + list[1..])[1..] == list[1..];
    }
  }

  /** After an add, every object named by it has its last incoming entry and every other object
      exactly what it had. */
  lemma {:induction false} AddMeaning(list: seq<Entry>, incoming: seq<Entry>, id: string)
    ensures Find(Merge(list, incoming), id) ==
            if Last(incoming, id).Some? then Last(incoming, id) else Find(list, id)
    decreases |incoming|
  {
    if incoming != [] {
      var n := |incoming| - 1;
      var rest, e := incoming[..n], incoming[n];
      assert incoming == rest + [e];
      MergeSnoc(list, rest, e);
      AddMeaning(list, rest, id);
      FindAfterOne(Merge(list, rest), e, id);
    }
  }

  lemma {:induction false} RemoveMeaning(list: seq<Entry>, incoming: seq<Entry>, id: string)
    ensures Find(Without(list, incoming), id) ==
            if exists i :: 0 <= i < |incoming| && EqualFold(incoming[i].objectId, id) then None else Find(list, id)
  {
    if list != [] {
      RemoveMeaning(list[1..], incoming, id);
      var rest := Without(list[1..], incoming);
      assert ([list[0]] + rest)[1..] == rest;
      assert [] + rest == rest;
      if EqualFold(list[0].objectId, id) {
        assert forall i :: 0 <= i < |incoming| ==>
            (SameObject(incoming[i], list[0]) <==> EqualFold(incoming[i].objectId, id));
      }
    }
  }

  // ---- an add only ever changes first occurrences, and appends ----

  predicate First(list: seq<Entry>, p: nat)
    requires p < |list|
  {
    forall q :: 0 <= q < p ==> !SameObject(list[q], list[p])
  }

  lemma {:induction false} FindFirst(list: seq<Entry>, p: nat)
    requires p < |list| && First(list, p)
    ensures Find(list, list[p].objectId) == Some(list[p])
  {
    if p > 0 {
      assert !SameObject(list[0], list[p]);
      forall q | 0 <= q < p - 1 ensures !SameObject(list[1..][q], list[1..][p - 1]) {
        assert !SameObject(list[q + 1], list[p]);
      }
      FindFirst(list[1..], p - 1);
    }
  }

  /** Adding to a list that already names the object: no entry moves, only the first of that
      object is replaced. */
  lemma {:induction false} OverwriteOne(list: seq<Entry>, e: Entry, p: nat)
    requires Names(list, e) && p < |list|
    ensures |MergeOne(list, e)| == |list|
    ensures MergeOne(list, e)[p] == if SameObject(list[p], e) && First(list, p) then e else list[p]
  {
    hide EqualFold;
    FirstIsSymmetric(list, e, p);
    if SameObject(list[0], e) {
    } else {
      var i :| 0 <= i < |list| && SameObject(list[i], e);
      assert SameObject(list[1..][i - 1], e);
      if p > 0 {
        OverwriteOne(list[1..], e, p - 1);
        FirstTail(list, e, p);
        assert list[1..][p - 1] == list[p];
      } else {
        OverwriteOne(list[1..], e, 0);
      }
    }
  }

  lemma FirstIsSymmetric(list: seq<Entry>, e: Entry, p: nat)
    requires p < |list|
    ensures p > 0 && SameObject(list[0], e) && SameObject(list[p], e) ==> !First(list, p)
  {
    assert p > 0 && SameObject(list[0], e) && SameObject(list[p], e) ==> SameObject(list[0], list[p]);
  }

  lemma FirstTail(list: seq<Entry>, e: Entry, p: nat)
    requires 0 < p < |list| && !SameObject(list[0], e)
    ensures SameObject(list[p], e) ==> (First(list, p) <==> First(list[1..], p - 1))
  {
    assert forall q :: 0 < q < p ==> list[1..][q - 1] == list[q];
    if SameObject(list[p], e) && First(list[1..], p - 1) {
      forall q | 0 <= q < p ensures !SameObject(list[q], list[p]) {
        if q > 0 {
          assert !SameObject(list[1..][q - 1], list[1..][p - 1]);
        }
      }
    }
  }

  predicate SameKeys(a: seq<Entry>, b: seq<Entry>) {
    |a| == |b| && forall p :: 0 <= p < |a| ==> SameObject(a[p], b[p])
  }

  lemma SameKeysSameFirst(a: seq<Entry>, b: seq<Entry>, p: nat)
    requires SameKeys(a, b) && p < |a|
    ensures First(a, p) <==> First(b, p)
  {
    assert SameObject(a[p], b[p]);
    forall q | 0 <= q < p ensures SameObject(a[q], a[p]) <==> SameObject(b[q], b[p]) {
      assert SameObject(a[q], b[q]);
    }
  }

  lemma MergeOneKeys(list: seq<Entry>, e: Entry)
    ensures Names(list, e) ==> SameKeys(MergeOne(list, e), list)
    ensures !Names(list, e) ==> MergeOne(list, e) == list + [e]
  {
    if Names(list, e) {
      forall p | 0 <= p < |list|
        ensures |MergeOne(list, e)| == |list| && SameObject(MergeOne(list, e)[p], list[p])
      {
        OverwriteOne(list, e, p);
      }
      if list != [] {
        OverwriteOne(list, e, 0);
      }
    } else {
      MergeOneAt(list, e, |list|);
    }
  }

  lemma NamesSameKeys(a: seq<Entry>, b: seq<Entry>, e: Entry)
    requires SameKeys(a, b) && Names(b, e)
    ensures Names(a, e)
  {
    var i :| 0 <= i < |b| && SameObject(b[i], e);
    assert SameObject(a[i], b[i]);
  }

  /** Adding to a list that already names every incoming object: the keys stay where they are, and
      the first entry of each named object becomes its last incoming one. */
  lemma {:induction false} Overwrite(list: seq<Entry>, incoming: seq<Entry>)
    requires forall e :: e in incoming ==> Names(list, e)
    ensures SameKeys(Merge(list, incoming), list)
    ensures forall p :: 0 <= p < |list| ==>
              Merge(list, incoming)[p] ==
              if First(list, p) && Last(incoming, list[p].objectId).Some?
                  then Last(incoming, list[p].objectId).value else list[p]
    decreases |incoming|
  {
    hide MergeOne, Names, First;
    if incoming != [] {
      var n := |incoming| - 1;
      var rest, e := incoming[..n], incoming[n];
      assert incoming == rest + [e];
      Overwrite(list, rest);
      var x := Merge(list, rest);
      MergeSnoc(list, rest, e);
      NamesSameKeys(x, list, e);
      MergeOneKeys(x, e);
      forall p | 0 <= p < |list|
        ensures MergeOne(x, e)[p] ==
                if First(list, p) && Last(incoming, list[p].objectId).Some?
                    then Last(incoming, list[p].objectId).value else list[p]
      {
        OverwriteOne(x, e, p);
        SameKeysSameFirst(x, list, p);
        assert SameObject(x[p], list[p]);
      }
    }
  }

  lemma {:induction false} NamesIsFind(list: seq<Entry>, e: Entry)
    ensures Names(list, e) <==> Find(list, e.objectId).Some?
  {
    if list != [] {
      NamesIsFind(list[1..], e);
      assert list == [list[0]] + list[1..];
      if Names(list[1..], e) {
        var i :| 0 <= i < |list[1..]| && SameObject(list[1..][i], e);
        assert SameObject(list[i + 1], e);
      }
      if Names(list, e) && !SameObject(list[0], e) {
        var i :| 0 <= i < |list| && SameObject(list[i], e);
        assert SameObject(list[1..][i - 1], e);
      }
    }
  }

  lemma {:induction false} LastOfMember(incoming: seq<Entry>, e: Entry)
    requires e in incoming
    ensures Last(incoming, e.objectId).Some?
  {
    var n := |incoming| - 1;
    if !EqualFold(incoming[n].objectId, e.objectId) {
      assert incoming == incoming[..n] + [incoming[n]];
      LastOfMember(incoming[..n], e);
    }
  }

  // ---- the laws ----

  /** Adding twice is adding once, whatever the spelling of the ids and however often they repeat. */
  lemma AddIsIdempotent(list: seq<Entry>, incoming: seq<Entry>)
    ensures Merge(Merge(list, incoming), incoming) == Merge(list, incoming)
  {
    hide Merge, Names, Find, Last, First;
    var once := Merge(list, incoming);
    forall e | e in incoming ensures Names(once, e) {
      AddMeaning(list, incoming, e.objectId);
      LastOfMember(incoming, e);
      NamesIsFind(once, e);
    }
    Overwrite(once, incoming);
    forall p | 0 <= p < |once| ensures Merge(once, incoming)[p] == once[p] {
      if First(once, p) {
        FindFirst(once, p);
        AddMeaning(list, incoming, once[p].objectId);
      }
    }
  }

  lemma {:induction false} WithoutMergeOne(list: seq<Entry>, e: Entry, incoming: seq<Entry>)
    requires Names(incoming, e)
    ensures Without(MergeOne(list, e), incoming) == Without(list, incoming)
  {
    if list == [] {
      assert [e][1..] == [];
    } else if SameObject(list[0], e) {
      assert ([e] + list[1..])[1..] == list[1..];
      assert forall i :: 0 <= i < |incoming| ==> (SameObject(incoming[i], list[0]) <==> SameObject(incoming[i], e));
    } else {
      WithoutMergeOne(list[1..], e, incoming);
      assert ([list[0]] + MergeOne(list[1..], e))[1..] == MergeOne(list[1..], e);
    }
  }

  lemma {:induction false} WithoutMerge(list: seq<Entry>, some: seq<Entry>, incoming: seq<Entry>)
    requires forall e :: e in some ==> Names(incoming, e)
    ensures Without(Merge(list, some), incoming) == Without(list, incoming)
    decreases |some|
  {
    hide Names, MergeOne, Without;
    if some != [] {
      WithoutMerge(MergeOne(list, some[0]), some[1..], incoming);
      WithoutMergeOne(list, some[0], incoming);
    }
  }

  /** Removing what was just added is removing it from the original list. */
  lemma RemoveUndoesAdd(list: seq<Entry>, incoming: seq<Entry>)
    ensures Without(Merge(list, incoming), incoming) == Without(list, incoming)
  {
    forall e | e in incoming ensures Names(incoming, e) {
      var i :| 0 <= i < |incoming| && incoming[i] == e;
      assert SameObject(incoming[i], e);
    }
    WithoutMerge(list, incoming, incoming);
  }

  predicate Distinct(list: seq<Entry>) {
    forall p, q :: 0 <= p < q < |list| ==> !SameObject(list[p], list[q])
  }

  lemma {:induction false} AddKeepsDistinct(list: seq<Entry>, incoming: seq<Entry>)
    requires Distinct(list)
    ensures Distinct(Merge(list, incoming))
    decreases |incoming|
  {
    if incoming != [] {
      var one := MergeOne(list, incoming[0]);
      MergeOneKeys(list, incoming[0]);
      forall p, q | 0 <= p < q < |one| ensures !SameObject(one[p], one[q]) {
        if Names(list, incoming[0]) {
          assert SameObject(one[p], list[p]) && SameObject(one[q], list[q]);
          assert !SameObject(list[p], list[q]);
        } else if q < |list| {
          assert !SameObject(list[p], list[q]);
        }
      }
      AddKeepsDistinct(one, incoming[1..]);
    }
  }

  // ---- each kind of edit by its name ----

  predicate NamesId(list: seq<Entry>, id: string) {
    exists i :: 0 <= i < |list| && EqualFold(list[i].objectId, id)
  }

  /** What the list after an edit of that kind must be: the incoming one; the old one without the
      named objects, in order; or the old one with each named object's last incoming entry. */
  ghost predicate Edits(current: seq<Entry>, incoming: seq<Entry>, kind: string, out: seq<Entry>) {
    && (kind == "replace" ==> out == incoming)
    && (kind == "remove" ==>
          && (forall e :: e in out <==> e in current && !NamesId(incoming, e.objectId))
          && (forall id :: Find(out, id) == if NamesId(incoming, id) then None else Find(current, id)))
    && (kind == "add" ==>
          forall id :: Find(out, id) == if Last(incoming, id).Some? then Last(incoming, id) else Find(current, id))
  }

  lemma {:induction false} WithoutRows(list: seq<Entry>, incoming: seq<Entry>)
    ensures forall e :: e in Without(list, incoming) <==> e in list && !NamesId(incoming, e.objectId)
  {
    hide EqualFold;
    if list != [] {
      WithoutRows(list[1..], incoming);
    }
  }

  lemma EditMeaning(current: Option<seq<Entry>>, incoming: Option<seq<Entry>>, kind: string)
    ensures Edits(Listed(current), Listed(incoming), kind, PolicyOp(Listed(current), Listed(incoming), kind))
  {
    hide EqualFold, Find, Last, Merge, Without;
    var had, given := Listed(current), Listed(incoming);
    WithoutRows(had, given);
    forall id ensures Find(Without(had, given), id) == if NamesId(given, id) then None else Find(had, id) {
      RemoveMeaning(had, given, id);
    }
    forall id ensures Find(Merge(had, given), id) == if Last(given, id).Some? then Last(given, id) else Find(had, id) {
      AddMeaning(had, given, id);
    }
  }

  /** What a removal keeps stays in order. */
  lemma RemoveInOrder(before: seq<Entry>, e: Entry, after: seq<Entry>, incoming: seq<Entry>)
    ensures Without(before + [e] + after, incoming) ==
            Without(before, incoming) + (if NamesId(incoming, e.objectId) then [] else [e]) + Without(after, incoming)
  {
    hide EqualFold, Without;
    WithoutConcat(before + [e], after, incoming);
    WithoutSnoc(before, e, incoming);
  }

  lemma {:induction false} WithoutConcat(xs: seq<Entry>, ys: seq<Entry>, incoming: seq<Entry>)
    ensures Without(xs + ys, incoming) == Without(xs, incoming) + Without(ys, incoming)
  {
    hide Names;
    if xs == [] {
      assert xs + ys == ys;
    } else {
      assert (xs + ys)[1..] == xs[1..] + ys;
      WithoutConcat(xs[1..], ys, incoming);
    }
  }
}
