/** internal/abac/eval.go: what a parsed condition decides about a request. */
module Evaluator {
  import opened Text
  import opened Wildcard
  import opened Conditions

  /** A request attribute's value; OtherVal is any JSON value no operator reads. */
  datatype Value = StringVal(s: string) | NumberVal(n: real) | BoolVal(b: bool) | InstantVal(t: int) | OtherVal

  datatype Attribute = One(v: Value) | Many(vs: seq<Value>)

  /** Attributes are keyed by canonical reference. */
  datatype Context = Context(action: string, subOperation: string, attributes: map<string, Attribute>)

  function RemoveSpaces(s: string): string {
    if s == "" then ""
    else if s[0] == ' ' then RemoveSpaces(s[1..])
    else [s[0]] + RemoveSpaces(s[1..])
  }

  function AttrKey(s: string): string {
    Lower(RemoveSpaces(s))
  }

  function RefName(a: Ref): string {
    SourceName(a.src) + "[" + a.key + "]"
  }

  /** A single value is read as a list of one. */
  function ValuesOf(a: Attribute): seq<Value> {
    match a
    case One(v) => [v]
    case Many(vs) => vs
  }

  function Lookup(c: Context, a: Ref): Option<seq<Value>> {
    var k := AttrKey(RefName(a));
    if k !in c.attributes then None else Some(ValuesOf(c.attributes[k]))
  }

  /** Keys may be written with or without the leading '@'. */
  function SuppliedKey(k: string): string {
    AttrKey(if "@" <= k then k[1..] else k)
  }

  /** The attributes are the supplied ones under their canonical keys. Go visits a map in no fixed
      order, so which of two keys with one canonical form wins is left open. */
  ghost predicate BuiltFrom(attrs: map<string, Attribute>, attributes: map<string, Attribute>) {
    && (forall k :: k in attrs ==> SuppliedKey(k) in attributes)
    && (forall x :: x in attributes ==> exists k :: k in attrs && SuppliedKey(k) == x && attributes[x] == attrs[k])
  }

  method NewContext(action: string, attrs: map<string, Attribute>) returns (c: Context)
    ensures c.action == action && c.subOperation == "" && BuiltFrom(attrs, c.attributes)
  {
    hide SuppliedKey;
    var todo := attrs.Keys;
    var out: map<string, Attribute> := map[];
    while todo != {}
      invariant todo <= attrs.Keys
      invariant forall k :: k in attrs && k !in todo ==> SuppliedKey(k) in out
      invariant forall x :: x in out ==> exists k :: k in attrs && SuppliedKey(k) == x && out[x] == attrs[k]
      decreases todo
    {
      var k :| k in todo;
      todo := todo - {k};
      out := out[SuppliedKey(k) := attrs[k]];
    }
    return Context(action, "", out);
  }

  /** No two supplied keys have one canonical form and different values. */
  predicate NoRace(attrs: map<string, Attribute>) {
    forall k, l :: k in attrs && l in attrs && SuppliedKey(k) == SuppliedKey(l) ==> attrs[k] == attrs[l]
  }

  lemma SomeContext(attrs: map<string, Attribute>) returns (m: map<string, Attribute>)
    ensures BuiltFrom(attrs, m)
  {
    hide SuppliedKey;
    var keys := set k | k in attrs :: SuppliedKey(k);
    m := map x | x in keys :: var k :| k in attrs && SuppliedKey(k) == x; attrs[k];
  }

  lemma Overriding(attrs: map<string, Attribute>, m: map<string, Attribute>, k: string)
    requires BuiltFrom(attrs, m) && k in attrs
    ensures BuiltFrom(attrs, m[SuppliedKey(k) := attrs[k]])
  {
    hide SuppliedKey;
  }

  /** A request has one context exactly when its attributes do not race. */
  lemma OneContextIff(attrs: map<string, Attribute>)
    ensures (forall m, n :: BuiltFrom(attrs, m) && BuiltFrom(attrs, n) ==> m == n) <==> NoRace(attrs)
  {
    hide SuppliedKey;
    if NoRace(attrs) {
      forall m, n | BuiltFrom(attrs, m) && BuiltFrom(attrs, n) ensures m == n {
        assert m.Keys == n.Keys;
      }
    } else {
      var k, l :| k in attrs && l in attrs && SuppliedKey(k) == SuppliedKey(l) && attrs[k] != attrs[l];
      var m := SomeContext(attrs);
      Overriding(attrs, m, k);
      Overriding(attrs, m, l);
      var x := SuppliedKey(k);
      assert m[x := attrs[k]][x] != m[x := attrs[l]][x];
    }
  }

  /** Supplied keys that race for a key some reference reads hold the same values. */
  ghost predicate NoReadRace(attrs: map<string, Attribute>) {
    forall k, l, a :: k in attrs && l in attrs && SuppliedKey(k) == SuppliedKey(l) == AttrKey(RefName(a)) ==>
      ValuesOf(attrs[k]) == ValuesOf(attrs[l])
  }

  predicate ReadAlike(m: map<string, Attribute>, n: map<string, Attribute>, a: Ref) {
    Lookup(Context("", "", m), a) == Lookup(Context("", "", n), a)
  }

  lemma BuiltReadAlike(attrs: map<string, Attribute>, m: map<string, Attribute>, n: map<string, Attribute>, a: Ref)
    requires NoReadRace(attrs) && BuiltFrom(attrs, m) && BuiltFrom(attrs, n)
    ensures ReadAlike(m, n, a)
  {
    hide SuppliedKey, AttrKey, RefName, ValuesOf;
    var x := AttrKey(RefName(a));
    SameKeys(attrs, m, n);
    if x in m {
      var k :| k in attrs && SuppliedKey(k) == x && m[x] == attrs[k];
      var l :| l in attrs && SuppliedKey(l) == x && n[x] == attrs[l];
    }
  }

  lemma SameKeys(attrs: map<string, Attribute>, m: map<string, Attribute>, n: map<string, Attribute>)
    requires BuiltFrom(attrs, m) && BuiltFrom(attrs, n)
    ensures forall x :: x in m <==> x in n
  {
    hide SuppliedKey;
  }

  lemma RaceIsRead(attrs: map<string, Attribute>, k: string, l: string, a: Ref)
    returns (m: map<string, Attribute>, n: map<string, Attribute>)
    requires k in attrs && l in attrs && SuppliedKey(k) == SuppliedKey(l) == AttrKey(RefName(a))
    requires ValuesOf(attrs[k]) != ValuesOf(attrs[l])
    ensures BuiltFrom(attrs, m) && BuiltFrom(attrs, n) && !ReadAlike(m, n, a)
  {
    hide SuppliedKey, AttrKey, RefName, ValuesOf, BuiltFrom;
    var some := SomeContext(attrs);
    Overriding(attrs, some, k);
    Overriding(attrs, some, l);
    m, n := some[SuppliedKey(k) := attrs[k]], some[SuppliedKey(l) := attrs[l]];
  }

  /** All contexts of a request read alike, reference by reference, exactly when no race is for a
      key some reference reads with different values. */
  lemma OneReadingIff(attrs: map<string, Attribute>)
    ensures (forall m, n, a :: BuiltFrom(attrs, m) && BuiltFrom(attrs, n) ==> ReadAlike(m, n, a)) <==> NoReadRace(attrs)
  {
    hide SuppliedKey, AttrKey, RefName, ValuesOf, BuiltFrom, ReadAlike;
    if NoReadRace(attrs) {
      forall m, n, a | BuiltFrom(attrs, m) && BuiltFrom(attrs, n) ensures ReadAlike(m, n, a) {
        BuiltReadAlike(attrs, m, n, a);
      }
    } else {
      var k, l, a :| k in attrs && l in attrs && SuppliedKey(k) == SuppliedKey(l) == AttrKey(RefName(a))
                     && ValuesOf(attrs[k]) != ValuesOf(attrs[l]);
      var m, n := RaceIsRead(attrs, k, l, a);
    }
  }

  // ---- one comparison ----

  function ParseBool(s: string): Option<bool> {
    if s in ["1", "t", "T", "TRUE", "true", "True"] then Some(true)
    else if s in ["0", "f", "F", "FALSE", "false", "False"] then Some(false)
    else None
  }

  function AsNumber(rd: Reader, v: Value): Option<real> {
    match v
    case NumberVal(n) => Some(n)
    case StringVal(s) => rd.number(s)
    case _ => None
  }

  function AsInstant(rd: Reader, v: Value): Option<int> {
    match v
    case InstantVal(t) => Some(t)
    case StringVal(s) => rd.instant(s)
    case _ => None
  }

  function AsBool(v: Value): Option<bool> {
    match v
    case BoolVal(b) => Some(b)
    case StringVal(s) => ParseBool(s)
    case _ => None
  }

  predicate TestString(t: StringTest, a: string, b: string) {
    match t
    case Equals => a == b
    case EqualsIgnoreCase => EqualFold(a, b)
    case StartsWith => b <= a
    case Like => Glob(b, a)
  }

  predicate TestOrder(o: Order, a: real, b: real) {
    match o
    case Equal => a == b
    case NotEqual => a != b
    case Greater => a > b
    case GreaterOrEqual => a >= b
    case Less => a < b
    case LessOrEqual => a <= b
  }

  /** One operator on one value and one literal; a wrong type is a false comparison. */
  predicate CompareOne(rd: Reader, op: Operator, v: Value, lit: Literal) {
    match op
    case Text(negated, t) => v.StringVal? && lit.StringLit? && (TestString(t, v.s, lit.text) != negated)
    case Numeric(o) =>
      var a := AsNumber(rd, v);
      a.Some? && lit.NumberLit? && rd.number(lit.text).Some? && TestOrder(o, a.value, rd.number(lit.text).value)
    case DateTime(o) =>
      var a := AsInstant(rd, v);
      && a.Some? && lit.StringLit? && rd.instant(lit.text).Some?
      && TestOrder(o, a.value as real, rd.instant(lit.text).value as real)
    case Flag(negated) =>
      var a := AsBool(v);
      a.Some? && lit.BoolLit? && ((a.value == lit.flag) != negated)
    case Guid(negated) => v.StringVal? && lit.StringLit? && (EqualFold(v.s, lit.text) != negated)
  }

  /** The operator can be applied to this value and literal at all. */
  predicate Comparable(rd: Reader, op: Operator, v: Value, lit: Literal) {
    match op
    case Text(_, _) => v.StringVal? && lit.StringLit?
    case Numeric(_) => AsNumber(rd, v).Some? && lit.NumberLit? && rd.number(lit.text).Some?
    case DateTime(_) => AsInstant(rd, v).Some? && lit.StringLit? && rd.instant(lit.text).Some?
    case Flag(_) => AsBool(v).Some? && lit.BoolLit?
    case Guid(_) => v.StringVal? && lit.StringLit?
  }

  // ---- quantifiers ----

  predicate AnyLit(rd: Reader, op: Operator, v: Value, lits: seq<Literal>) {
    exists j :: 0 <= j < |lits| && CompareOne(rd, op, v, lits[j])
  }

  predicate AllLit(rd: Reader, op: Operator, v: Value, lits: seq<Literal>) {
    forall j :: 0 <= j < |lits| ==> CompareOne(rd, op, v, lits[j])
  }

  predicate Quantified(rd: Reader, q: Quantifier, op: Operator, vs: seq<Value>, lits: seq<Literal>)
    requires |lits| >= 1
  {
    match q
    case NoQuantifier => |vs| == 1 && CompareOne(rd, op, vs[0], lits[0])
    case AnyOfAny => exists i :: 0 <= i < |vs| && AnyLit(rd, op, vs[i], lits)
    case AllOfAny => forall i :: 0 <= i < |vs| ==> AnyLit(rd, op, vs[i], lits)
    case AnyOfAll => exists i :: 0 <= i < |vs| && AllLit(rd, op, vs[i], lits)
    case AllOfAll => forall i :: 0 <= i < |vs| ==> AllLit(rd, op, vs[i], lits)
  }

  // ---- trees ----

  /** Every comparison has a literal to compare with. */
  predicate Evaluable(n: Node) {
    match n
    case And(l, r) => Evaluable(l) && Evaluable(r)
    case Or(l, r) => Evaluable(l) && Evaluable(r)
    case Not(inner) => Evaluable(inner)
    case Compare(_, _, _, values, _) => |values| >= 1
    case _ => true
  }

  predicate Eval(rd: Reader, n: Node, c: Context)
    requires Evaluable(n)
  {
    match n
    case And(l, r) => Eval(rd, l, c) && Eval(rd, r, c)
    case Or(l, r) => Eval(rd, l, c) || Eval(rd, r, c)
    case Not(inner) => !Eval(rd, inner, c)
    case Action(pattern, sub) => Glob(pattern, if sub then c.subOperation else c.action)
    case Exists(a) => Lookup(c, a).Some? && |Lookup(c, a).value| > 0
    case Compare(a, q, op, values, _) =>
      var vs := Lookup(c, a);
      vs.Some? && |vs.value| > 0 && Quantified(rd, q, op, vs.value, values)
  }

  /** Conditions see a context only through the action and what references read. */
  lemma {:induction false} ReadingsDecide(rd: Reader, n: Node, c: Context, d: Context)
    requires Evaluable(n) && c.action == d.action && c.subOperation == d.subOperation
    requires forall a :: ReadAlike(c.attributes, d.attributes, a)
    ensures Eval(rd, n, c) == Eval(rd, n, d)
  {
    hide AttrKey, RefName, Quantified, ValuesOf, Glob;
    match n {
      case And(l, r) =>
        ReadingsDecide(rd, l, c, d);
        ReadingsDecide(rd, r, c, d);
      case Or(l, r) =>
        ReadingsDecide(rd, l, c, d);
        ReadingsDecide(rd, r, c, d);
      case Not(inner) =>
        ReadingsDecide(rd, inner, c, d);
      case Exists(a) =>
        assert ReadAlike(c.attributes, d.attributes, a);
      case Compare(a, _, _, _, _) =>
        assert ReadAlike(c.attributes, d.attributes, a);
      case Action(_, _) =>
    }
  }

  // ---- laws ----

  /** The operator with its sense reversed, for the operators that come in such pairs. */
  function Opposite(op: Operator): Operator {
    match op
    case Text(negated, t) => Text(!negated, t)
    case Flag(negated) => Flag(!negated)
    case Guid(negated) => Guid(!negated)
    case Numeric(o) => Numeric(OppositeOrder(o))
    case DateTime(o) => DateTime(OppositeOrder(o))
  }

  function OppositeOrder(o: Order): Order {
    match o
    case Equal => NotEqual
    case NotEqual => Equal
    case Greater => LessOrEqual
    case GreaterOrEqual => Less
    case Less => GreaterOrEqual
    case LessOrEqual => Greater
  }

  /** The opposite operator is the negation exactly where the comparison makes sense; where it
      does not, both are false. */
  lemma OppositeIsNegation(rd: Reader, op: Operator, v: Value, lit: Literal)
    ensures Comparable(rd, op, v, lit) <==> (CompareOne(rd, Opposite(op), v, lit) != CompareOne(rd, op, v, lit))
    ensures !Comparable(rd, op, v, lit) ==> !CompareOne(rd, op, v, lit) && !CompareOne(rd, Opposite(op), v, lit)
  {
    hide ParseBool, TestString, EqualFold;
  }

  predicate AllComparable(rd: Reader, op: Operator, vs: seq<Value>, lits: seq<Literal>) {
    forall i, j :: 0 <= i < |vs| && 0 <= j < |lits| ==> Comparable(rd, op, vs[i], lits[j])
  }

  /** For every value list and literal set: "all of all" of the opposite operator holds exactly
      when everything compares and "any of any" fails. */
  lemma AllOfAllOpposite(rd: Reader, op: Operator, vs: seq<Value>, lits: seq<Literal>)
    requires |lits| >= 1
    ensures Quantified(rd, AllOfAll, Opposite(op), vs, lits) <==>
            AllComparable(rd, op, vs, lits) && !Quantified(rd, AnyOfAny, op, vs, lits)
  {
    hide CompareOne, Comparable, Opposite;
    forall i, j | 0 <= i < |vs| && 0 <= j < |lits|
      ensures CompareOne(rd, Opposite(op), vs[i], lits[j]) <==>
              Comparable(rd, op, vs[i], lits[j]) && !CompareOne(rd, op, vs[i], lits[j])
    {
      OppositeIsNegation(rd, op, vs[i], lits[j]);
    }
    if Quantified(rd, AllOfAll, Opposite(op), vs, lits) {
      forall i, j | 0 <= i < |vs| && 0 <= j < |lits|
        ensures Comparable(rd, op, vs[i], lits[j]) && !CompareOne(rd, op, vs[i], lits[j])
      {
        assert AllLit(rd, Opposite(op), vs[i], lits);
      }
    }
  }

  /** On a present attribute the four quantifiers are ordered by strength. */
  lemma QuantifierOrder(rd: Reader, op: Operator, vs: seq<Value>, lits: seq<Literal>)
    requires |vs| >= 1 && |lits| >= 1
    ensures Quantified(rd, AllOfAll, op, vs, lits) ==>
            Quantified(rd, AnyOfAll, op, vs, lits) && Quantified(rd, AllOfAny, op, vs, lits)
    ensures Quantified(rd, AnyOfAll, op, vs, lits) || Quantified(rd, AllOfAny, op, vs, lits) ==>
            Quantified(rd, AnyOfAny, op, vs, lits)
    ensures |vs| == 1 && |lits| == 1 ==>
            forall q :: Quantified(rd, q, op, vs, lits) <==> CompareOne(rd, op, vs[0], lits[0])
  {
    hide CompareOne;
    forall i | 0 <= i < |vs| && AllLit(rd, op, vs[i], lits) ensures AnyLit(rd, op, vs[i], lits) {
      assert CompareOne(rd, op, vs[i], lits[0]);
    }
    if Quantified(rd, AllOfAny, op, vs, lits) {
      assert AnyLit(rd, op, vs[0], lits);
    }
    if Quantified(rd, AllOfAll, op, vs, lits) {
      assert AllLit(rd, op, vs[0], lits);
    }
    if |vs| == 1 && |lits| == 1 {
      forall q ensures Quantified(rd, q, op, vs, lits) <==> CompareOne(rd, op, vs[0], lits[0]) {
        assert AnyLit(rd, op, vs[0], lits) <==> CompareOne(rd, op, vs[0], lits[0]);
        assert AllLit(rd, op, vs[0], lits) <==> CompareOne(rd, op, vs[0], lits[0]);
      }
    }
  }

  // ---- how the string tests relate ----

  predicate NoWildcards(s: string) {
    '*' !in s && '?' !in s
  }

  lemma RunAtEnd(p: string, s: string)
    requires NoWildcards(p)
    ensures Matches(GLOB, p + "*", s) <==> p <= s
  {
    MatchesPiece(GLOB, p, "*", s);
    if |p| <= |s| {
      var rest := s[|p|..];
      assert "*"[1..] == "" && rest[|rest|..] == "";
      assert Matches(GLOB, "*", rest);
    }
  }

  /** Like on a pattern without wildcards is EqualsIgnoreCase, and with one `*` at its end is
      StartsWith without case, on every subject free of `*`. */
  lemma LikeIsGeneral(a: string, b: string)
    requires '*' !in a && NoWildcards(b)
    ensures TestString(Like, a, b) <==> TestString(EqualsIgnoreCase, a, b)
    ensures TestString(Like, a, b + "*") <==> TestString(StartsWith, Lower(a), Lower(b))
  {
    hide Matches;
    LowerKeeps(a, '*');
    LowerKeeps(b, '*');
    LowerKeeps(b, '?');
    GlobMeaning(Lower(b), Lower(a));
    LiteralOnly(GLOB, Lower(b), Lower(a));
    LowerAppend(b, "*");
    assert Lower("*") == "*";
    GlobMeaning(Lower(b + "*"), Lower(a));
    RunAtEnd(Lower(b), Lower(a));
  }

  function Guarded(pattern: string, rest: Node): Node {
    Or(Not(Action(pattern, false)), rest)
  }

  /** The guard `!(ActionMatches{p}) OR rest`: operations p does not match pass whatever the
      attributes are, the others are decided by rest alone. */
  lemma GuardScopes(rd: Reader, pattern: string, rest: Node, c: Context)
    requires Evaluable(rest)
    ensures Evaluable(Guarded(pattern, rest))
    ensures Eval(rd, Guarded(pattern, rest), c) <==> !Glob(pattern, c.action) || Eval(rd, rest, c)
  {
    hide Glob;
    assert Evaluable(Not(Action(pattern, false)));
    assert Eval(rd, Not(Action(pattern, false)), c) <==> !Glob(pattern, c.action);
  }
}
