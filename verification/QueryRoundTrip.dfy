/** contrib/intarray/_int_bool.c from text to answer, and from text to text. */
module QueryRoundTrip {
  import opened Alloc
  import opened QuerySyntax
  import opened QueryParser
  import opened QueryCompiler
  import opened QueryEval
  import opened QueryPrinter

  // ---------------------------------------------------------------- from text to answer

  /** The truth of a query on an array; a text or size that is refused; or a link that leads out of the items. */
  datatype Answer = Truth(b: bool) | Refused(why: Result) | Stray

  ghost predicate IsAnswer(f: Formula, members: set<int>, r: Answer) {
    LinksFit(f) ==> r == Truth(Holds(f, members))
  }

  /** bqarr_in, then boolop: the meaning of the text decides, if its links fit 16 bits. */
  method AnswerText(text: string, val: seq<int>) returns (r: Answer)
    requires IsCString(text)
    ensures r.Refused? <==> !(Compile(text).Compiled? && ComputeSize(|Compile(text).out|) <= MAX_ALLOC)
    ensures !r.Refused? ==> exists q :: IsReading(text, q) && IsAnswer(DisjunctionMeaning(q.body), (set x | x in val), r)
  {
    hide Compile, Linked, Items, Execute, IsReading;
    var query := BqarrIn(text);
    if !query.Accepted? { return Refused(query); }
    ghost var q :| IsReading(text, q) && query.items == Items(DisjunctionMeaning(q.body));
    ghost var f := DisjunctionMeaning(q.body);
    WholeSegment(f);
    if !Linked(query.items) {
      if LinksFit(f) { ItemsAreLinked(f); }
      return Stray;
    }
    var b := BoolOp(val, query.items);
    return Truth(b);
  }

  /** Such a text whose answer is wrong, if its & and | signs link as QueryEval.WrappedLinkMisleads says. */
  lemma {:induction false} MisleadingText(n: nat)
    requires n == 0x8000
    ensures var f := And(Num(1), Chain(n)); var text := InfixText(f, true);
      && IsCString(text) && Compile(text).Compiled? && Compile(text).out == Postfix(f)
      && ComputeSize(|Compile(text).out|) <= MAX_ALLOC
  {
    var f := And(Num(1), Chain(n));
    ChainFacts(n);
    ChainPrints(n);
    assert FitsInt32(f) && NoRightAnd(f) by { hide Chain; }
    hide InfixText, Compile, Items, Chain;
    PrintCompiles(f);
    LeftAssociatedHolds(f, {});
    InfixIsCString(f, true);
    ItemsCases(f);
    ItemsCases(Num(1));
  }

  lemma {:induction false} ChainPrints(n: nat)
    ensures FitsInt32(Chain(n)) && NoRightAnd(Chain(n)) && !Chain(n).And?
  {
    if n > 0 { ChainPrints(n - 1); }
  }

  // ---------------------------------------------------------------- from text to text

  lemma {:induction false} DigitsAreCString(n: nat)
    ensures IsCString(Digits(n))
  {
    assert forall k :: 0 <= k < |Digits(n)| ==> IsDigit(Digits(n)[k]);
  }

  lemma {:induction false} InfixIsCString(f: Formula, first: bool)
    ensures IsCString(InfixText(f, first))
    decreases f
  {
    match f
    case Num(v) => DigitsAreCString(if v < 0 then -v else v);
    case Not(a) =>
      InfixIsCString(a, true);
      InfixIsCString(a, false);
    case _ =>
      InfixIsCString(f.left, false);
      InfixIsCString(f.right, false);
  }

  lemma {:induction false} JoinAndSize(a: Formula, b: Formula)
    ensures |Postfix(JoinAnd(a, b))| == |Postfix(a)| + |Postfix(b)| + 1
    decreases b
  {
    if b.And? { JoinAndSize(a, b.left); }
  }

  /** Associating to the left keeps the number of items. */
  lemma {:induction false} LeftAssociatedSize(f: Formula)
    ensures |Postfix(LeftAssociated(f))| == |Postfix(f)|
  {
    match f
    case Num(_) =>
    case Not(a) => LeftAssociatedSize(a);
    case Or(l, r) =>
      LeftAssociatedSize(l);
      LeftAssociatedSize(r);
    case And(l, r) =>
      LeftAssociatedSize(l);
      LeftAssociatedSize(r);
      JoinAndSize(LeftAssociated(l), LeftAssociated(r));
  }

  /** What came back: the items of a formula with the same truth, and the same items unless & was a right operand of &. */
  ghost predicate CameBack(f: Formula, items: seq<Item>) {
    && (exists g :: items == Items(g) && forall members :: Holds(g, members) == Holds(f, members))
    && (items == Items(f) <==> NoRightAnd(f))
  }

  lemma {:induction false} SecondReading(f: Formula, q: Query)
    requires FitsInt32(f) && IsReading(InfixText(f, true), q)
    ensures CameBack(f, Items(DisjunctionMeaning(q.body)))
  {
    hide InfixText, Compile, Items, Postfix, WellFormedDisjunction, FitsInt32, QueryText;
    var g := DisjunctionMeaning(q.body);
    PrintCompiles(f);
    assert [] + Postfix(g) == [] + Postfix(LeftAssociated(f));
    PostfixInjective([], g, [], LeftAssociated(f));
    forall members ensures Holds(g, members) == Holds(f, members) { PrintReadsBack(f, members); }
    PrintReadsBack(f, {});
  }

  ghost predicate IsRound(f: Formula, first: Result, printed: Printed, second: Result) {
    && first == Accepted(Items(f))
    && printed == (if Peak(f, true, 0) < LARGEST then Text(InfixText(f, true)) else OutOfMemory)
    && (printed.Text? ==> second.Accepted? && CameBack(f, second.items))
  }

  /** bqarr_in, bqarr_out and bqarr_in again: whatever is printed is accepted again and came back. */
  method ReadPrintRead(text: string) returns (first: Result, printed: Printed, second: Result)
    requires IsCString(text)
    ensures first.Accepted? ==> exists q :: IsReading(text, q) && IsRound(DisjunctionMeaning(q.body), first, printed, second)
  {
    hide Compile, Items, InfixText, Peak, FitsInt32, WellFormedDisjunction, CameBack, QueryText, Postfix;
    printed, second := EmptyQueryReported, SyntaxErrorReported;
    first := BqarrIn(text);
    if !first.Accepted? { return; }
    ghost var q :| IsReading(text, q) && first.items == Items(DisjunctionMeaning(q.body));
    ghost var f := DisjunctionMeaning(q.body);
    DisjunctionFitsInt32(q.body);
    WholeSegment(f);
    printed := BqarrOut(first.items, f);
    if printed.Text? {
      PrintCompiles(f);
      LeftAssociatedSize(f);
      InfixIsCString(f, true);
      second := BqarrIn(printed.text);
      ghost var p :| IsReading(printed.text, p) && second.items == Items(DisjunctionMeaning(p.body));
      SecondReading(f, p);
    }
  }
}
