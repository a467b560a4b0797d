/** internal/abac/eval.go, Attributes: the references a condition reads, and why supplying
    those is enough. */
module Dependencies {
  import opened Text
  import opened Conditions
  import opened Evaluator

  /** As listed for a data plane: `@Source[key]`. */
  function RefText(a: Ref): string {
    "@" + RefName(a)
  }

  /** Every reference in the tree, left to right, repeats included. */
  function RefTexts(n: Node): seq<string> {
    match n
    case And(l, r) => RefTexts(l) + RefTexts(r)
    case Or(l, r) => RefTexts(l) + RefTexts(r)
    case Not(inner) => RefTexts(inner)
    case Action(_, _) => []
    case Exists(a) => [RefText(a)]
    case Compare(a, _, _, _, _) => [RefText(a)]
  }

  /** xs without later repeats of what `seen` or an earlier element already holds. */
  function Fresh(seen: set<string>, xs: seq<string>): seq<string>
    decreases |xs|
  {
    if xs == [] then []
    else if xs[0] in seen then Fresh(seen, xs[1..])
    else [xs[0]] + Fresh(seen + {xs[0]}, xs[1..])
  }

  function SetOf(xs: seq<string>): set<string> {
    set x | x in xs
  }

  lemma {:induction false} FreshAppend(seen: set<string>, xs: seq<string>, ys: seq<string>)
    ensures Fresh(seen, xs + ys) == Fresh(seen, xs) + Fresh(seen + SetOf(xs), ys)
    decreases |xs|
  {
    if xs == [] {
      assert xs + ys == ys && seen + SetOf(xs) == seen;
    } else {
      assert (xs + ys)[1..] == xs[1..] + ys;
      assert SetOf(xs) == {xs[0]} + SetOf(xs[1..]);
      FreshAppend(if xs[0] in seen then seen else seen + {xs[0]}, xs[1..], ys);
      if xs[0] in seen {
        assert seen + SetOf(xs) == seen + SetOf(xs[1..]);
      } else {
        assert seen + SetOf(xs) == seen + {xs[0]} + SetOf(xs[1..]);
      }
    }
  }

  /** No repeats, nothing lost, nothing invented. */
  lemma {:induction false} FreshDistinct(seen: set<string>, xs: seq<string>)
    ensures var f := Fresh(seen, xs);
            && (forall i, j :: 0 <= i < j < |f| ==> f[i] != f[j])
            && (forall x :: x in f <==> x in xs && x !in seen)
    decreases |xs|
  {
    if xs != [] {
      var next := if xs[0] in seen then seen else seen + {xs[0]};
      FreshDistinct(next, xs[1..]);
    }
  }

  /** The list the source builds with a closure over `seen` and `out`. */
  class Collector {
    var seen: set<string>
    var out: seq<string>

    constructor ()
      ensures seen == {} && out == []
    {
      seen, out := {}, [];
    }

    method Add(a: Ref)
      modifies this
      ensures out == old(out) + Fresh(old(seen), [RefText(a)])
      ensures seen == old(seen) + {RefText(a)}
    {
      var s := RefText(a);
      assert [s][1..] == [];
      if s !in seen {
        seen := seen + {s};
        out := out + [s];
      }
    }

    method Walk(n: Node)
      modifies this
      ensures out == old(out) + Fresh(old(seen), RefTexts(n))
      ensures seen == old(seen) + SetOf(RefTexts(n))
      decreases n
    {
      hide Fresh, RefText;
      match n {
        case And(l, r) =>
          FreshAppend(seen, RefTexts(l), RefTexts(r));
          Walk(l);
          Walk(r);
        case Or(l, r) =>
          FreshAppend(seen, RefTexts(l), RefTexts(r));
          Walk(l);
          Walk(r);
        case Not(inner) =>
          Walk(inner);
        case Action(_, _) =>
          FreshNothing(seen);
        case Exists(a) =>
          Add(a);
        case Compare(a, _, _, _, _) =>
          Add(a);
      }
    }
  }

  lemma FreshNothing(seen: set<string>)
    ensures Fresh(seen, []) == []
  {}

  function AttributesOf(n: Node): seq<string> {
    Fresh({}, RefTexts(n))
  }

  method Attributes(root: Node) returns (out: seq<string>)
    ensures out == AttributesOf(root)
    ensures forall i, j :: 0 <= i < j < |out| ==> out[i] != out[j]
    ensures forall x :: x in out <==> x in RefTexts(root)
  {
    FreshDistinct({}, RefTexts(root));
    var c := new Collector();
    c.Walk(root);
    return c.out;
  }

  /** Supplying an attribute under its listed name, with or without the '@' and whatever its case,
      is supplying the attribute the condition reads. */
  lemma ListedKeyIsRead(a: Ref, supplied: string)
    requires EqualFold(supplied, RefText(a)) || EqualFold(supplied, RefName(a))
    ensures SuppliedKey(supplied) == AttrKey(RefName(a))
  {
    var name := RefName(a);
    assert name[0] == SourceName(a.src)[0] && name[0] in "RPE";
    assert Lower(supplied)[0] == LowerChar(supplied[0]);
    if EqualFold(supplied, RefText(a)) {
      assert Lower(RefText(a))[0] == '@';
      LowerSlice(supplied, 1, |supplied|);
      LowerSlice(RefText(a), 1, |RefText(a)|);
      assert RefText(a)[1..|RefText(a)|] == name && supplied[1..|supplied|] == supplied[1..];
      SpacesThenLower(supplied[1..], name);
    } else {
      assert Lower(name)[0] == LowerChar(name[0]);
      SpacesThenLower(supplied, name);
    }
  }

  lemma {:induction false} SpacesThenLower(s: string, t: string)
    requires EqualFold(s, t)
    ensures AttrKey(s) == AttrKey(t)
  {
    if s != "" {
      assert |Lower(s)| == |s| && |Lower(t)| == |t|;
      assert LowerChar(s[0]) == Lower(s)[0] == Lower(t)[0] == LowerChar(t[0]);
      LowerSlice(s, 1, |s|);
      LowerSlice(t, 1, |t|);
      assert s[1..|s|] == s[1..] && t[1..|t|] == t[1..];
      SpacesThenLower(s[1..], t[1..]);
      LowerAppend([s[0]], RemoveSpaces(s[1..]));
      LowerAppend([t[0]], RemoveSpaces(t[1..]));
    }
  }

  /** The two contexts say the same about one listed reference. */
  predicate AgreeOn(c: Context, d: Context, listed: string) {
    var k := SuppliedKey(listed);
    (k in c.attributes <==> k in d.attributes) && (k in c.attributes ==> c.attributes[k] == d.attributes[k])
  }

  lemma {:induction false} RefsDecide(rd: Reader, n: Node, c: Context, d: Context)
    requires Evaluable(n)
    requires c.action == d.action && c.subOperation == d.subOperation
    requires forall x :: x in RefTexts(n) ==> AgreeOn(c, d, x)
    ensures Eval(rd, n, c) == Eval(rd, n, d)
  {
    hide AttrKey, RefName, Quantified;
    match n {
      case And(l, r) =>
        RefsDecide(rd, l, c, d);
        RefsDecide(rd, r, c, d);
      case Or(l, r) =>
        RefsDecide(rd, l, c, d);
        RefsDecide(rd, r, c, d);
      case Not(inner) =>
        RefsDecide(rd, inner, c, d);
      case Exists(a) =>
        assert RefText(a) in RefTexts(n) && RefText(a)[1..] == RefName(a);
      case Compare(a, _, _, _, _) =>
        assert RefText(a) in RefTexts(n) && RefText(a)[1..] == RefName(a);
      case Action(_, _) =>
    }
  }

  /** The listed attributes are a complete dependency set: contexts that agree on them (and on
      the action) get the same answer, whatever else they carry. */
  lemma AttributesSuffice(rd: Reader, root: Node, c: Context, d: Context)
    requires Evaluable(root)
    requires c.action == d.action && c.subOperation == d.subOperation
    requires forall x :: x in AttributesOf(root) ==> AgreeOn(c, d, x)
    ensures Eval(rd, root, c) == Eval(rd, root, d)
  {
    FreshDistinct({}, RefTexts(root));
    RefsDecide(rd, root, c, d);
  }
}
