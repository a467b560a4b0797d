/** The condition language's vocabulary: tokens, syntax trees, operators and parse errors. */
module Conditions {
  import opened Text

  datatype Result<+T> = Ok(value: T) | Err(error: ParseError)

  /** A parse failure carries the source offset it points at. */
  datatype ParseError = ParseError(pos: nat, what: Complaint)

  datatype Complaint =
    | EmptyCondition | AttributeNeedsBracket | UnknownSource | AttributeNeedsClosing | EmptyKey
    | UnterminatedString | UnexpectedCharacter | TrailingInput | ExpectedPunct(ch: char)
    | ExistsNeedsAttribute | QuantifierBelongsAfter | UnknownKeyword | MatchesNeedsString
    | ExpectedAttribute | ExpectedOperator | QuantifierNeedsSet | NotANumber | ExpectedValue

  // ---- tokens ----

  datatype Source = Resource | Request | Principal | Environment

  datatype Kind = EOF | Ident(text: string) | Quoted(text: string) | Number(text: string)
                | Attr(src: Source, key: string) | Punct(ch: char)

  datatype Token = Token(kind: Kind, pos: nat)

  function SourceName(src: Source): string {
    match src
    case Resource => "Resource"
    case Request => "Request"
    case Principal => "Principal"
    case Environment => "Environment"
  }

  function SourceOf(lower: string): Option<Source> {
    if lower == "resource" then Some(Resource)
    else if lower == "request" then Some(Request)
    else if lower == "principal" then Some(Principal)
    else if lower == "environment" then Some(Environment)
    else None
  }

  // ---- trees ----

  datatype Ref = Ref(src: Source, key: string)

  datatype Quantifier = NoQuantifier | AnyOfAny | AllOfAny | AnyOfAll | AllOfAll

  /** Number literals keep their text; what number it denotes is the reader's business. */
  datatype Literal = StringLit(text: string) | NumberLit(text: string) | BoolLit(flag: bool)

  datatype Order = Equal | NotEqual | Greater | GreaterOrEqual | Less | LessOrEqual

  datatype StringTest = Equals | EqualsIgnoreCase | StartsWith | Like

  /** The documented operators, e.g. StringNotLike is Text(true, Like). */
  datatype Operator =
    | Text(negated: bool, test: StringTest)
    | Numeric(order: Order)
    | DateTime(order: Order)
    | Flag(negated: bool)
    | Guid(negated: bool)

  datatype Node =
    | And(left: Node, right: Node)
    | Or(left: Node, right: Node)
    | Not(inner: Node)
    | Action(pattern: string, sub: bool)
    | Exists(attr: Ref)
    | Compare(attr: Ref, quant: Quantifier, op: Operator, values: seq<Literal>, braces: bool)

  /** What Go's number and time parsers make of a text: left open, since nothing proved about
      conditions depends on the formats they accept. */
  datatype Reader = Reader(number: string -> Option<real>, instant: string -> Option<int>)

  function OrderName(o: Order): string {
    match o
    case Equal => "Equals"
    case NotEqual => "NotEquals"
    case Greater => "GreaterThan"
    case GreaterOrEqual => "GreaterThanOrEquals"
    case Less => "LessThan"
    case LessOrEqual => "LessThanOrEquals"
  }

  function TestName(t: StringTest): string {
    match t
    case Equals => "Equals"
    case EqualsIgnoreCase => "EqualsIgnoreCase"
    case StartsWith => "StartsWith"
    case Like => "Like"
  }

  function NotName(negated: bool): string {
    if negated then "Not" else ""
  }

  function OperatorName(op: Operator): string {
    match op
    case Text(negated, t) => "String" + (NotName(negated) + TestName(t))
    case Numeric(o) => "Numeric" + OrderName(o)
    case DateTime(o) => "DateTime" + OrderName(o)
    case Flag(negated) => "Bool" + (NotName(negated) + "Equals")
    case Guid(negated) => "Guid" + (NotName(negated) + "Equals")
  }

  function TestOf(lower: string): Option<StringTest> {
    if lower == "equals" then Some(Equals)
    else if lower == "equalsignorecase" then Some(EqualsIgnoreCase)
    else if lower == "startswith" then Some(StartsWith)
    else if lower == "like" then Some(Like)
    else None
  }

  function OrderOf(lower: string): Option<Order> {
    if lower == "equals" then Some(Equal)
    else if lower == "notequals" then Some(NotEqual)
    else if lower == "greaterthan" then Some(Greater)
    else if lower == "greaterthanorequals" then Some(GreaterOrEqual)
    else if lower == "lessthan" then Some(Less)
    else if lower == "lessthanorequals" then Some(LessOrEqual)
    else None
  }

  /** Splits an optional leading "not" off an operator's tail. */
  function Negated(tail: string): (bool, string) {
    if "not" <= tail then (true, tail[3..]) else (false, tail)
  }

  /** The documented operator set; nothing else is an operator. */
  function OperatorOf(lower: string): Option<Operator> {
    if "string" <= lower then
      var (negated, rest) := Negated(lower[6..]);
      match TestOf(rest) case None => None case Some(t) => Some(Text(negated, t))
    else if "numeric" <= lower then
      match OrderOf(lower[7..]) case None => None case Some(o) => Some(Numeric(o))
    else if "datetime" <= lower then
      match OrderOf(lower[8..]) case None => None case Some(o) => Some(DateTime(o))
    else if "bool" <= lower then
      var (negated, rest) := Negated(lower[4..]);
      if rest == "equals" then Some(Flag(negated)) else None
    else if "guid" <= lower then
      var (negated, rest) := Negated(lower[4..]);
      if rest == "equals" then Some(Guid(negated)) else None
    else None
  }

  function QuantifierName(q: Quantifier): string
    requires !q.NoQuantifier?
  {
    match q
    case AnyOfAny => "ForAnyOfAnyValues"
    case AllOfAny => "ForAllOfAnyValues"
    case AnyOfAll => "ForAnyOfAllValues"
    case AllOfAll => "ForAllOfAllValues"
  }

  /** NoQuantifier when the word is none of the four. */
  function QuantifierOf(lower: string): Quantifier {
    if lower == "foranyofanyvalues" then AnyOfAny
    else if lower == "forallofanyvalues" then AllOfAny
    else if lower == "foranyofallvalues" then AnyOfAll
    else if lower == "forallofallvalues" then AllOfAll
    else NoQuantifier
  }

  /** The heads of operator names, folded. */
  lemma LowerWords()
    ensures Lower("Bool") == "bool" && Lower("Guid") == "guid" && Lower("String") == "string"
    ensures Lower("Numeric") == "numeric" && Lower("DateTime") == "datetime"
  {}

  lemma LowerOrders()
    ensures Lower("Equals") == "equals" && Lower("NotEquals") == "notequals" && Lower("LessThan") == "lessthan"
    ensures Lower("GreaterThan") == "greaterthan"
  {}

  lemma LowerOrEquals()
    ensures Lower("GreaterThanOrEquals") == "greaterthanorequals" && Lower("LessThanOrEquals") == "lessthanorequals"
  {}

  lemma OrderRoundTrip(o: Order)
    ensures OrderOf(Lower(OrderName(o))) == Some(o)
  {
    LowerOrders();
    LowerOrEquals();
    hide Lower;
  }

  lemma TestRoundTrip(t: StringTest)
    ensures TestOf(Lower(TestName(t))) == Some(t)
    ensures Lower(TestName(t)) != "" && Lower(TestName(t))[0] != 'n'
  {
    var name := TestName(t);
    match t {
      case Equals => assert Lower(name) == "equals";
      case EqualsIgnoreCase => assert Lower(name) == "equalsignorecase";
      case StartsWith => assert Lower(name) == "startswith";
      case Like => assert Lower(name) == "like";
    }
  }

  lemma NegatedRoundTrip(negated: bool, name: string)
    requires Lower(name) != "" && Lower(name)[0] != 'n'
    ensures Negated(Lower(NotName(negated) + name)) == (negated, Lower(name))
  {
    LowerAppend(NotName(negated), name);
    if negated {
      assert Lower("Not") == "not";
      assert Lower("Not" + name)[3..] == Lower(name);
    } else {
      assert "" + name == name;
    }
  }

  lemma ReadText(tail: string, negated: bool, rest: string, t: StringTest)
    requires Negated(tail) == (negated, rest) && TestOf(rest) == Some(t)
    ensures OperatorOf("string" + tail) == Some(Text(negated, t))
  {
    assert ("string" + tail)[6..] == tail;
  }

  lemma TextRoundTrip(negated: bool, t: StringTest)
    ensures OperatorOf(Lower("String" + (NotName(negated) + TestName(t)))) == Some(Text(negated, t))
  {
    var tail := NotName(negated) + TestName(t);
    TestRoundTrip(t);
    NegatedRoundTrip(negated, TestName(t));
    ReadText(Lower(tail), negated, Lower(TestName(t)), t);
    LowerAppend("String", tail);
    assert Lower("String") == "string";
  }

  lemma OrderedRoundTrip(o: Order)
    ensures OperatorOf(Lower("Numeric" + OrderName(o))) == Some(Numeric(o))
    ensures OperatorOf(Lower("DateTime" + OrderName(o))) == Some(DateTime(o))
  {
    OrderRoundTrip(o);
    LowerAppend("Numeric", OrderName(o));
    LowerAppend("DateTime", OrderName(o));
    assert Lower("Numeric") == "numeric" && "numeric"[0] == 'n';
    assert Lower("DateTime") == "datetime" && "datetime"[0] == 'd';
    assert ("numeric" + Lower(OrderName(o)))[7..] == Lower(OrderName(o));
    assert ("datetime" + Lower(OrderName(o)))[8..] == Lower(OrderName(o));
  }

  lemma ReadPlain(tail: string, negated: bool)
    requires Negated(tail) == (negated, "equals")
    ensures OperatorOf("bool" + tail) == Some(Flag(negated))
    ensures OperatorOf("guid" + tail) == Some(Guid(negated))
  {
    assert ("bool" + tail)[4..] == tail && ("bool" + tail)[0] == 'b';
    assert ("guid" + tail)[4..] == tail && ("guid" + tail)[0] == 'g';
  }

  lemma EqualsTail(negated: bool)
    ensures Negated(Lower(NotName(negated) + "Equals")) == (negated, "equals")
  {
    assert Lower("Equals") == "equals";
    NegatedRoundTrip(negated, "Equals");
  }

  lemma PlainRoundTrip(negated: bool, tail: string)
    requires Negated(Lower(tail)) == (negated, "equals")
    ensures OperatorOf(Lower("Bool" + tail)) == Some(Flag(negated))
    ensures OperatorOf(Lower("Guid" + tail)) == Some(Guid(negated))
  {
    ReadPlain(Lower(tail), negated);
    LowerAppend("Bool", tail);
    LowerAppend("Guid", tail);
    LowerWords();
    hide OperatorOf, Negated, Lower;
  }

  lemma OperatorRoundTrip(op: Operator)
    ensures OperatorOf(Lower(OperatorName(op))) == Some(op)
  {
    match op {
      case Text(negated, t) => TextRoundTrip(negated, t);
      case Numeric(o) => OrderedRoundTrip(o);
      case DateTime(o) => OrderedRoundTrip(o);
      case Flag(negated) =>
        EqualsTail(negated);
        PlainRoundTrip(negated, NotName(negated) + "Equals");
      case Guid(negated) =>
        EqualsTail(negated);
        PlainRoundTrip(negated, NotName(negated) + "Equals");
    }
  }

  lemma OrderFrom(lower: string, o: Order)
    requires OrderOf(lower) == Some(o)
    ensures lower == Lower(OrderName(o))
  {
    LowerOrders();
    LowerOrEquals();
    hide Lower;
  }

  lemma TestFrom(lower: string, t: StringTest)
    requires TestOf(lower) == Some(t)
    ensures lower == Lower(TestName(t))
  {
    TestRoundTrip(t);
    hide Lower;
  }

  lemma NegatedFrom(tail: string, negated: bool, rest: string)
    requires Negated(tail) == (negated, rest)
    ensures tail == Lower(NotName(negated)) + rest
  {
    if negated {
      assert Lower("Not") == "not" == tail[..3];
    }
  }

  /** A recognised word is its family's name, folded, and then the tail that was looked up. */
  lemma OperatorFrom(lower: string, op: Operator)
    requires OperatorOf(lower) == Some(op)
    ensures lower == Lower(OperatorName(op))
  {
    hide TestOf, OrderOf, Negated, TestName, OrderName, NotName, Lower;
    LowerWords();
    LowerOrders();
    match op {
      case Text(negated, t) =>
        var (n, rest) := Negated(lower[6..]);
        NegatedFrom(lower[6..], negated, rest);
        TestFrom(rest, t);
        LowerAppend(NotName(negated), TestName(t));
        LowerAppend("String", NotName(negated) + TestName(t));
      case Numeric(o) =>
        OrderFrom(lower[7..], o);
        LowerAppend("Numeric", OrderName(o));
      case DateTime(o) =>
        OrderFrom(lower[8..], o);
        LowerAppend("DateTime", OrderName(o));
      case Flag(negated) =>
        NegatedFrom(lower[4..], negated, "equals");
        LowerAppend(NotName(negated), "Equals");
        LowerAppend("Bool", NotName(negated) + "Equals");
      case Guid(negated) =>
        NegatedFrom(lower[4..], negated, "equals");
        LowerAppend(NotName(negated), "Equals");
        LowerAppend("Guid", NotName(negated) + "Equals");
    }
  }

  /** The documented names, in any case, are the operators, and nothing else is. */
  lemma OperatorExactIff(word: string, op: Operator)
    ensures OperatorOf(Lower(word)) == Some(op) <==> EqualFold(word, OperatorName(op))
  {
    hide OperatorOf, OperatorName, Lower;
    OperatorRoundTrip(op);
    if OperatorOf(Lower(word)) == Some(op) {
      OperatorFrom(Lower(word), op);
    }
  }

  lemma LowerAnyOf()
    ensures Lower("ForAnyOfAnyValues") == "foranyofanyvalues" && Lower("ForAnyOfAllValues") == "foranyofallvalues"
  {}

  lemma LowerAllOf()
    ensures Lower("ForAllOfAnyValues") == "forallofanyvalues" && Lower("ForAllOfAllValues") == "forallofallvalues"
  {}

  lemma QuantifierRoundTrip(q: Quantifier)
    requires !q.NoQuantifier?
    ensures QuantifierOf(Lower(QuantifierName(q))) == q
  {
    LowerAnyOf();
    LowerAllOf();
    hide Lower;
    var w := Lower(QuantifierName(q));
    assert w[4] == if q.AnyOfAny? || q.AnyOfAll? then 'n' else 'l';
    assert w[9] == if q.AnyOfAny? || q.AllOfAny? then 'n' else 'l';
    assert "foranyofanyvalues"[4] == 'n' && "forallofanyvalues"[4] == 'l' && "foranyofallvalues"[4] == 'n';
    assert "foranyofanyvalues"[9] == 'n' && "forallofanyvalues"[9] == 'n' && "foranyofallvalues"[9] == 'l';
    assert "forallofallvalues"[4] == 'l' && "forallofallvalues"[9] == 'l';
  }

  lemma QuantifierExactIff(word: string, q: Quantifier)
    requires !q.NoQuantifier?
    ensures QuantifierOf(Lower(word)) == q <==> EqualFold(word, QuantifierName(q))
  {
    QuantifierRoundTrip(q);
    LowerAnyOf();
    LowerAllOf();
    hide Lower;
  }

  lemma SourceRoundTrip(src: Source)
    ensures SourceOf(Lower(SourceName(src))) == Some(src)
  {
    var name := SourceName(src);
    match src {
      case Resource => assert Lower(name) == "resource";
      case Request => assert Lower(name) == "request";
      case Principal => assert Lower(name) == "principal";
      case Environment => assert Lower(name) == "environment";
    }
  }
}
