/** bqarr_out of contrib/intarray/_int_bool.c: printing a compiled query, and what reading the print
    back gives. */
module QueryPrinter {
  import opened Alloc
  import opened QuerySyntax
  import opened QueryParser
  import opened QueryCompiler
  import opened QueryEval

  // ---------------------------------------------------------------- decimal numbers

  function DigitChar(d: nat): char
    requires d < 10
  {
    ('0' as int + d) as char
  }

  function Digits(n: nat): (ds: string)
    ensures |ds| > 0 && AllDigits(ds)
  {
    if n < 10 then [DigitChar(n)] else Digits(n / 10) + [DigitChar(n % 10)]
  }

  /** sprintf with %d */
  function Decimal(v: int): string {
    if v < 0 then "-" + Digits(-v) else Digits(v)
  }

  lemma {:induction false} ReadBaseSnoc(ds: string, d: nat, acc: int)
    requires AllDigits(ds) && d < 10
    ensures ReadBase(ds + [DigitChar(d)], 10, acc) == ReadBase(ds, 10, acc) * 10 + d
    decreases |ds|
  {
    var all := ds + [DigitChar(d)];
    if ds == "" {
      assert all[1..] == "";
    } else {
      assert all[1..] == ds[1..] + [DigitChar(d)];
      ReadBaseSnoc(ds[1..], d, acc * 10 + DigitValue(ds[0]));
    }
  }

  lemma {:induction false} DigitsRead(n: nat)
    ensures ReadBase(Digits(n), 10, 0) == n
    ensures n > 0 ==> Digits(n)[0] != '0'
  {
    if n < 10 {
      assert Digits(n)[1..] == "";
    } else {
      DigitsRead(n / 10);
      ReadBaseSnoc(Digits(n / 10), n % 10, 0);
    }
  }

  function Pow10(k: nat): nat {
    if k == 0 then 1 else 10 * Pow10(k - 1)
  }

  lemma {:induction false} DigitsLength(n: nat, k: nat)
    requires k > 0 && n < Pow10(k)
    ensures |Digits(n)| <= k
  {
    if n >= 10 { DigitsLength(n / 10, k - 1); }
  }

  lemma {:induction false} DecimalIsNumber(v: int)
    requires InInt32(v)
    ensures IsNumber(Decimal(v)) && Strtol(Decimal(v)) == v && |Decimal(v)| <= 11
  {
    var n := if v < 0 then -v else v;
    assert Pow10(10) == 10000000000 by {
      assert Pow10(2) == 100;
      assert Pow10(4) == 100 * Pow10(2);
      assert Pow10(6) == 100 * Pow10(4);
      assert Pow10(8) == 100 * Pow10(6);
    }
    DigitsLength(n, 10);
    DigitsRead(n);
    if v == 0 {
      assert Digits(0)[1..] == "";
    }
    if v < 0 {
      assert Decimal(v)[1..] == Digits(n);
    }
  }

  // ---------------------------------------------------------------- the text that infix writes

  function InfixText(f: Formula, first: bool): string {
    match f
    case Num(v) => Decimal(v)
    case Not(a) => "!" + (if a.Num? then InfixText(a, false) else "( " + InfixText(a, true) + " )")
    case And(l, r) => InfixText(l, false) + " & " + InfixText(r, false)
    case Or(l, r) =>
      if first then InfixText(l, false) + " | " + InfixText(r, false)
      else "( " + InfixText(l, false) + " | " + InfixText(r, false) + " )"
  }

  lemma {:induction false} InfixCases(f: Formula, first: bool)
    ensures f.Not? ==>
      InfixText(f, first) == if f.arg.Num? then "!" + InfixText(f.arg, false) else "!" + ("( " + InfixText(f.arg, true) + " )")
    ensures f.And? ==> InfixText(f, first) == InfixText(f.left, false) + (" & " + InfixText(f.right, false))
    ensures f.Or? && first ==> InfixText(f, first) == InfixText(f.left, false) + (" | " + InfixText(f.right, false))
    ensures f.Or? && !first ==>
      InfixText(f, first) == "( " + (InfixText(f.left, false) + (" | " + InfixText(f.right, false))) + " )"
  {
  }

  /** The printed form of a formula with every operator, whatever its numbers. */
  lemma {:induction false} PrintedShape(v: int, w: int, x: int)
    ensures InfixText(And(Num(v), Or(Num(w), Not(Not(Num(x))))), true) ==
      Decimal(v) + " & ( " + Decimal(w) + " | !( !" + Decimal(x) + " ) )"
  {
    hide Decimal;
    var inner := Not(Not(Num(x)));
    assert InfixText(Not(Num(x)), true) == "!" + InfixText(Num(x), false) == "!" + Decimal(x);
    assert InfixText(inner, false) == "!" + ("( " + ("!" + Decimal(x)) + " )");
    assert InfixText(Or(Num(w), inner), false) == "( " + Decimal(w) + " | " + InfixText(inner, false) + " )";
    assert InfixText(And(Num(v), Or(Num(w), inner)), true) == Decimal(v) + " & " + InfixText(Or(Num(w), inner), false);
    hide InfixText;
    Spliced(Decimal(v), Decimal(w), Decimal(x));
  }

  lemma {:induction false} Spliced(v: string, w: string, x: string)
    ensures v + " & " + ("( " + w + " | " + ("!" + ("( " + ("!" + x) + " )")) + " )") == v + " & ( " + w + " | !( !" + x + " ) )"
  {
    assert " & " + "( " == " & ( " && " | " + "!" + "( " + "!" == " | !( !" && " )" + " )" == " ) )";
  }

  predicate FitsInt32(f: Formula) {
    match f
    case Num(v) => InInt32(v)
    case Not(a) => FitsInt32(a)
    case And(l, r) => FitsInt32(l) && FitsInt32(r)
    case Or(l, r) => FitsInt32(l) && FitsInt32(r)
  }

  lemma {:induction false} NegatedText(before: string, arg: string)
    ensures before + "!" + arg == before + ("!" + arg)
  {
  }

  // ---------------------------------------------------------------- room for the text

  function Max(a: nat, b: nat): nat {
    if a >= b then a else b
  }

  /** The most room asked for while f is printed after `at` characters, in this buffer or in one for a right operand. */
  function Peak(f: Formula, first: bool, at: nat): nat {
    match f
    case Num(v) => at + 12
    case Not(a) =>
      if a.Num? then Max(at + 2, Peak(a, false, at + 1))
      else Max(at + 4, Max(Peak(a, true, at + 3), at + 3 + |InfixText(a, true)| + 3))
    case And(l, r) =>
      Max(Peak(r, false, 0), Max(Peak(l, false, at), at + |InfixText(l, false)| + 3 + |InfixText(r, false)| + 1))
    case Or(l, r) =>
      if first then
        Max(Peak(r, false, 0), Max(Peak(l, false, at), at + |InfixText(l, false)| + 3 + |InfixText(r, false)| + 1))
      else
        Max(Max(at + 3, Peak(r, false, 0)),
            Max(Peak(l, false, at + 2), at + 2 + |InfixText(l, false)| + 3 + |InfixText(r, false)| + 3))
  }

  /** The room asked for is that of the text and up to eleven bytes more. */
  lemma {:induction false} PeakIsTextLength(f: Formula, first: bool, at: nat)
    requires FitsInt32(f)
    ensures at + |InfixText(f, first)| < Peak(f, first, at) <= at + |InfixText(f, first)| + 12
    decreases f
  {
    match f
    case Num(v) => DecimalIsNumber(v);
    case Not(a) =>
      InfixCases(f, first);
      hide InfixText;
      PeakOfNot(f, first, at);
      if a.Num? { PeakIsTextLength(a, false, at + 1); } else { PeakIsTextLength(a, true, at + 3); }
    case _ =>
      InfixLengths(f, first);
      hide InfixText, Peak;
      PeakOfBinary(f, first, at);
      PeakIsTextLength(f.right, false, 0);
      PeakIsTextLength(f.left, false, if f.And? || first then at else at + 2);
  }

  lemma {:induction false} InfixLengths(f: Formula, first: bool)
    requires f.And? || f.Or?
    ensures |InfixText(f, first)| ==
      |InfixText(f.left, false)| + 3 + |InfixText(f.right, false)| + if f.And? || first then 0 else 4
  {
  }

  /** An INFIX buffer: the item to print next, the text so far and the room allocated for it. */
  class Infix {
    const items: seq<Item>
    var curpol: int
    var text: string
    var buflen: nat

    constructor (items: seq<Item>, curpol: int, buflen: nat)
      requires buflen > 0 && Doubles(buflen)
      ensures this.items == items && this.curpol == curpol && text == "" && Valid()
    {
      this.items, this.curpol, this.text, this.buflen := items, curpol, "", buflen;
    }

    /** Text and terminator lie within the buffer. */
    ghost predicate Valid()
      reads this
    {
      |text| < buflen && Doubles(buflen)
    }

    /** RESIZEBUF: there is room, unless the buffer would have to pass the allocation limit. */
    method Resize(addsize: nat) returns (ok: bool)
      requires Valid()
      modifies this`buflen
      ensures ok <==> |text| + addsize + 1 < LARGEST
      ensures ok ==> Valid() && |text| + addsize + 1 < buflen
    {
      while |text| + addsize + 1 >= buflen
        invariant Valid() && buflen <= LARGEST
        decreases |text| + addsize + 1 - buflen
      {
        if !Granted(buflen * 2) { return false; }
        buflen := buflen * 2;
      }
      return true;
    }

    method Write(s: string)
      requires Valid() && |text| + |s| < buflen
      modifies this`text
      ensures text == old(text) + s && Valid()
    {
      text := text + s;
    }

    /** Room for a text, then the text. */
    method Put(s: string) returns (ok: bool)
      requires Valid()
      modifies this`text, this`buflen
      ensures ok <==> |old(text)| + |s| + 1 < LARGEST
      ensures ok ==> Valid() && text == old(text) + s
    {
      ok := Resize(|s|);
      if ok { Write(s); }
    }

    method Print(first: bool, ghost f: Formula) returns (ok: bool)
      requires Valid() && Segment(items, curpol, f) && FitsInt32(f)
      modifies this
      ensures ok <==> Peak(f, first, |old(text)|) < LARGEST
      ensures ok ==> Valid() && text == old(text) + InfixText(f, first) && curpol == old(curpol) - |Items(f)|
      decreases f, 2
    {
      hide Items, Segment, Doubles;
      SegmentParts(items, curpol, f);
      match items[curpol].node {
        case Value(v) =>
          DecimalIsNumber(v);
          ok := Resize(11);
          if !ok { return; }
          Write(Decimal(v));
          curpol := curpol - 1;
          ItemsCases(f);
        case Operator(op) =>
          if op == '!' {
            PeakOfNot(f, first, |text|);
            ok := PrintNot(f);
          } else {
            ok := PrintBinary(op, first, f);
          }
      }
    }

    method PrintNot(ghost f: Formula) returns (ok: bool)
      requires Valid() && f.Not? && Segment(items, curpol, f) && FitsInt32(f)
      modifies this
      ensures ok <==> Peak(f, false, |old(text)|) < LARGEST
      ensures ok ==> Valid() && text == old(text) + InfixText(f, false) && curpol == old(curpol) - |Items(f)|
      decreases f, 1
    {
      hide Items, Segment, InfixText, Peak, Doubles;
      PeakOfNot(f, false, |text|);
      InfixCases(f, false);
      SegmentParts(items, curpol, f);
      SegmentParts(items, curpol - 1, f.arg);
      ok := Put("!");
      if !ok { return; }
      curpol := curpol - 1;
      if items[curpol].node.Operator? {
        ok := PrintInParentheses(f.arg);
      } else {
        ok := Print(false, f.arg);
      }
      NegatedText(old(text), InfixText(f.arg, false));
      NegatedText(old(text), InParentheses(InfixText(f.arg, true)));
    }

    method PrintInParentheses(ghost f: Formula) returns (ok: bool)
      requires Valid() && !f.Num? && Segment(items, curpol, f) && FitsInt32(f)
      modifies this
      ensures ok <==> Max(|old(text)| + 3, Max(Peak(f, true, |old(text)| + 2), |old(text)| + 2 + |InfixText(f, true)| + 3)) < LARGEST
      ensures ok ==> Valid() && text == old(text) + InParentheses(InfixText(f, true)) && curpol == old(curpol) - |Items(f)|
      decreases f, 3
    {
      hide Items, Segment, InfixText, Peak, Doubles;
      ok := Put("( ");
      if !ok { return; }
      ok := Print(true, f);
      if !ok { return; }
      ok := Put(" )");
      Enclosed(old(text), InfixText(f, true));
    }

    method PrintBinary(op: char, first: bool, ghost f: Formula) returns (ok: bool)
      requires Valid() && (f.And? || f.Or?) && OperatorOf(f) == Operator(op) && Segment(items, curpol, f) && FitsInt32(f)
      modifies this
      ensures ok <==> Peak(f, first, |old(text)|) < LARGEST
      ensures ok ==> Valid() && text == old(text) + InfixText(f, first) && curpol == old(curpol) - |Items(f)|
      decreases f, 1
    {
      hide Items, Segment, InfixText, Peak, Doubles, BothOperands, InParentheses;
      PeakOfBinary(f, first, |text|);
      BinaryText(op, f, first);
      SegmentParts(items, curpol, f);
      curpol := curpol - 1;
      if op == '|' && !first {
        ok := Put("( ");
        if !ok { return; }
        ok := PrintOperands(op, f);
        if !ok { return; }
        ok := Put(" )");
        Enclosed(old(text), BothOperands(op, f));
      } else {
        ok := PrintOperands(op, f);
      }
    }

    /** The right operand is printed to a buffer of its own first, then the left one, the operator and that text. */
    method PrintOperands(op: char, ghost f: Formula) returns (ok: bool)
      requires Valid() && (f.And? || f.Or?) && FitsInt32(f)
      requires Segment(items, curpol, f.right) && Segment(items, curpol - |Items(f.right)|, f.left)
      modifies this
      ensures ok <==> Max(Peak(f.right, false, 0), Max(Peak(f.left, false, |old(text)|), |old(text)| + |BothOperands(op, f)| + 1)) < LARGEST
      ensures ok ==> Valid() && text == old(text) + BothOperands(op, f)
      ensures ok ==> curpol == old(curpol) - |Items(f.right)| - |Items(f.left)|
      decreases f, 0
    {
      hide Items, Segment, InfixText, Peak, Doubles;
      SixteenDoubles();
      var nrm := new Infix(items, curpol, 16);
      ok := nrm.Print(false, f.right);
      if !ok { return; }
      curpol := nrm.curpol;
      ok := Print(false, f.left);
      if !ok { return; }
      ok := Put(" " + [op] + " " + nrm.text);
      Regrouped(old(text), InfixText(f.left, false), " " + [op] + " " + InfixText(f.right, false));
    }
  }

  function InParentheses(s: string): string {
    "( " + s + " )"
  }

  ghost function BothOperands(op: char, f: Formula): (s: string)
    requires f.And? || f.Or?
    ensures |s| == |InfixText(f.left, false)| + 3 + |InfixText(f.right, false)|
  {
    InfixText(f.left, false) + (" " + [op] + " " + InfixText(f.right, false))
  }

  lemma {:induction false} BinaryText(op: char, f: Formula, first: bool)
    requires (f.And? || f.Or?) && OperatorOf(f) == Operator(op)
    ensures InfixText(f, first) == if op == '|' && !first then InParentheses(BothOperands(op, f)) else BothOperands(op, f)
  {
    InfixCases(f, first);
    hide InfixText;
  }

  lemma {:induction false} Enclosed(before: string, s: string)
    ensures before + "( " + s + " )" == before + InParentheses(s)
  {
  }

  lemma {:induction false} Regrouped(a: string, b: string, c: string)
    ensures a + b + c == a + (b + c)
  {
  }

  lemma {:induction false} PeakOfNot(f: Formula, first: bool, at: nat)
    requires f.Not?
    ensures Peak(f, first, at) == Peak(f, false, at)
    ensures f.arg.Num? ==> Peak(f, false, at) == Max(at + 2, Peak(f.arg, false, at + 1))
    ensures !f.arg.Num? ==>
      Peak(f, false, at) == Max(at + 4, Max(Peak(f.arg, true, at + 3), at + 3 + |InfixText(f.arg, true)| + 3))
  {
  }

  lemma {:induction false} PeakOfBinary(f: Formula, first: bool, at: nat)
    requires f.And? || f.Or?
    ensures var l, r := |InfixText(f.left, false)|, |InfixText(f.right, false)|;
      if f.And? || first then
        Peak(f, first, at) == Max(Peak(f.right, false, 0), Max(Peak(f.left, false, at), at + l + 3 + r + 1))
      else
        Peak(f, first, at) == Max(Max(at + 3, Peak(f.right, false, 0)), Max(Peak(f.left, false, at + 2), at + 2 + l + 3 + r + 3))
  {
  }

  // ---------------------------------------------------------------- the print as concrete syntax

  /** Chains of `&` printed one after the other read as one chain. */
  function Join(c: Conjunction, pre: nat, more: Conjunction): Conjunction {
    match more
    case One(o) => Ands(c, pre, o)
    case Ands(init, p, o) => Ands(Join(c, pre, init), p, o)
  }

  function PrintedOperand(f: Formula, lead: nat): Operand
    requires !f.And?
    decreases f, 0
  {
    match f
    case Num(v) => Number(lead, Decimal(v))
    case Not(a) => Negated(lead, if a.Num? then PrintedOperand(a, 0) else Group(0, PrintedDisjunction(a, 1), 1))
    case Or(l, r) => Group(lead, Ors(Just(PrintedConjunction(l, 1)), 1, PrintedConjunction(r, 1)), 1)
  }

  function PrintedConjunction(f: Formula, lead: nat): Conjunction
    decreases f, 1
  {
    if f.And? then Join(PrintedConjunction(f.left, lead), 1, PrintedConjunction(f.right, 1))
    else One(PrintedOperand(f, lead))
  }

  function PrintedDisjunction(f: Formula, lead: nat): Disjunction
    decreases f, 2
  {
    if f.Or? then Ors(Just(PrintedConjunction(f.left, lead)), 1, PrintedConjunction(f.right, 1))
    else Just(PrintedConjunction(f, lead))
  }

  lemma {:induction false} JoinText(c: Conjunction, pre: nat, more: Conjunction)
    ensures ConjunctionText(Join(c, pre, more)) == ConjunctionText(c) + (Spaces(pre) + "&") + ConjunctionText(more)
    ensures WellFormedConjunction(c) && WellFormedConjunction(more) ==> WellFormedConjunction(Join(c, pre, more))
    decreases more
  {
    if more.Ands? {
      JoinText(c, pre, more.init);
      assert ConjunctionText(Join(c, pre, more)) ==
             ConjunctionText(Join(c, pre, more.init)) + (Spaces(more.pre) + "&" + OperandText(more.last));
      assert ConjunctionText(more) == ConjunctionText(more.init) + (Spaces(more.pre) + "&" + OperandText(more.last));
    }
  }

  /** Whether the first operand of a conjunction fits the operator stack. */
  predicate FirstFits(c: Conjunction, base: nat) {
    match c
    case One(o) => OperandFits(o, base)
    case Ands(init, _, _) => FirstFits(init, base)
  }

  lemma {:induction false} JoinFits(c: Conjunction, pre: nat, more: Conjunction, base: nat)
    requires ConjunctionFits(c, base) && ConjunctionFits(more, base) && FirstFits(more, base + 1)
    ensures ConjunctionFits(Join(c, pre, more), base)
    ensures forall b: nat :: FirstFits(c, b) ==> FirstFits(Join(c, pre, more), b)
    decreases more
  {
    if more.Ands? { JoinFits(c, pre, more.init, base); }
  }

  lemma {:induction false} PrintedOperandFits(f: Formula, lead: nat, base: nat)
    requires !f.And? && base <= 3
    ensures OperandFits(PrintedOperand(f, lead), base)
    decreases f, 0
  {
    match f
    case Num(_) =>
    case Not(a) => if !a.Num? { PrintedDisjunctionFits(a, 1); }
    case Or(l, r) =>
      PrintedConjunctionFits(l, 1, 0);
      PrintedConjunctionFits(r, 1, 1);
  }

  lemma {:induction false} PrintedConjunctionFits(f: Formula, lead: nat, base: nat)
    requires base <= 2
    ensures ConjunctionFits(PrintedConjunction(f, lead), base)
    ensures forall b: nat :: b <= 3 ==> FirstFits(PrintedConjunction(f, lead), b)
    decreases f, 1
  {
    if f.And? {
      PrintedConjunctionFits(f.left, lead, base);
      PrintedConjunctionFits(f.right, 1, base);
      JoinFits(PrintedConjunction(f.left, lead), 1, PrintedConjunction(f.right, 1), base);
    } else {
      forall b: nat | b <= 3 ensures OperandFits(PrintedOperand(f, lead), b) { PrintedOperandFits(f, lead, b); }
    }
  }

  lemma {:induction false} PrintedDisjunctionFits(f: Formula, lead: nat)
    ensures DisjunctionFits(PrintedDisjunction(f, lead))
    decreases f, 2
  {
    if f.Or? {
      PrintedConjunctionFits(f.left, lead, 0);
      PrintedConjunctionFits(f.right, 1, 1);
    } else {
      PrintedConjunctionFits(f, lead, 0);
    }
  }

  // ---------------------------------------------------------------- text of the printed syntax

  lemma {:induction false} ParenthesizedText(lead: nat, body: Disjunction, inner: string)
    requires DisjunctionText(body) == " " + inner
    ensures OperandText(Group(lead, body, 1)) == Spaces(lead) + ("( " + inner + " )")
  {
    assert Spaces(1) == " ";
  }

  lemma {:induction false} DisjunctionOfTwo(l: Conjunction, r: Conjunction, lead: nat, left: string, right: string)
    requires ConjunctionText(l) == Spaces(lead) + left && ConjunctionText(r) == " " + right
    ensures DisjunctionText(Ors(Just(l), 1, r)) == Spaces(lead) + (left + (" | " + right))
  {
    assert Spaces(1) == " ";
  }

  lemma {:induction false} PrintedOperandText(f: Formula, lead: nat)
    requires !f.And? && FitsInt32(f)
    ensures OperandText(PrintedOperand(f, lead)) == Spaces(lead) + InfixText(f, false)
    ensures WellFormedOperand(PrintedOperand(f, lead))
    decreases f, 0
  {
    hide InfixText;
    InfixCases(f, false);
    match f
    case Num(v) =>
      DecimalIsNumber(v);
      InfixOfNumber(v, false);
    case Not(a) =>
      if a.Num? {
        PrintedOperandText(a, 0);
      } else {
        PrintedDisjunctionText(a, 1);
        ParenthesizedText(0, PrintedDisjunction(a, 1), InfixText(a, true));
      }
    case Or(l, r) =>
      PrintedConjunctionText(l, 1);
      PrintedConjunctionText(r, 1);
      var left, right := PrintedConjunction(l, 1), PrintedConjunction(r, 1);
      DisjunctionOfTwo(left, right, 1, InfixText(l, false), InfixText(r, false));
      assert WellFormedDisjunction(Just(left)) && WellFormedDisjunction(Ors(Just(left), 1, right));
      ParenthesizedText(lead, Ors(Just(left), 1, right), InfixText(l, false) + (" | " + InfixText(r, false)));
  }

  /** Only a disjunction prints differently at the top. */
  lemma {:induction false} InfixFirstMatters(f: Formula)
    ensures !f.Or? ==> InfixText(f, true) == InfixText(f, false)
  {
  }

  lemma {:induction false} InfixOfNumber(v: int, first: bool)
    ensures InfixText(Num(v), first) == Decimal(v)
  {
  }

  lemma {:induction false} AndText(lead: string, left: string, right: string)
    ensures Spaces(1) == " "
    ensures lead + left + (" " + "&") + (" " + right) == lead + (left + (" & " + right))
  {
  }

  lemma {:induction false} PrintedConjunctionText(f: Formula, lead: nat)
    requires FitsInt32(f)
    ensures ConjunctionText(PrintedConjunction(f, lead)) == Spaces(lead) + InfixText(f, false)
    ensures WellFormedConjunction(PrintedConjunction(f, lead))
    decreases f, 1
  {
    hide InfixText;
    if f.And? {
      PrintedConjunctionText(f.left, lead);
      PrintedConjunctionText(f.right, 1);
      JoinText(PrintedConjunction(f.left, lead), 1, PrintedConjunction(f.right, 1));
      InfixCases(f, false);
      AndText(Spaces(lead), InfixText(f.left, false), InfixText(f.right, false));
    } else {
      PrintedOperandText(f, lead);
    }
  }

  lemma {:induction false} PrintedDisjunctionText(f: Formula, lead: nat)
    requires FitsInt32(f)
    ensures DisjunctionText(PrintedDisjunction(f, lead)) == Spaces(lead) + InfixText(f, true)
    ensures WellFormedDisjunction(PrintedDisjunction(f, lead))
    decreases f, 2
  {
    hide InfixText;
    InfixFirstMatters(f);
    if f.Or? {
      PrintedConjunctionText(f.left, lead);
      PrintedConjunctionText(f.right, 1);
      InfixCases(f, true);
      DisjunctionOfTwo(PrintedConjunction(f.left, lead), PrintedConjunction(f.right, 1), lead,
                       InfixText(f.left, false), InfixText(f.right, false));
    } else {
      PrintedConjunctionText(f, lead);
    }
  }

  // ---------------------------------------------------------------- what the print means

  /** Appends a chain of conjuncts to the left. */
  function JoinAnd(a: Formula, b: Formula): Formula {
    if b.And? then And(JoinAnd(a, b.left), b.right) else And(a, b)
  }

  /** The formula with every chain of `&` associated to the left. */
  function LeftAssociated(f: Formula): Formula {
    match f
    case Num(_) => f
    case Not(a) => Not(LeftAssociated(a))
    case Or(l, r) => Or(LeftAssociated(l), LeftAssociated(r))
    case And(l, r) => JoinAnd(LeftAssociated(l), LeftAssociated(r))
  }

  /** No `&` has an `&` as its right operand. */
  predicate NoRightAnd(f: Formula) {
    match f
    case Num(_) => true
    case Not(a) => NoRightAnd(a)
    case Or(l, r) => NoRightAnd(l) && NoRightAnd(r)
    case And(l, r) => NoRightAnd(l) && NoRightAnd(r) && !r.And?
  }

  lemma {:induction false} JoinAndHolds(a: Formula, b: Formula, members: set<int>)
    ensures Holds(JoinAnd(a, b), members) == Holds(And(a, b), members)
    ensures NoRightAnd(a) && NoRightAnd(b) ==> NoRightAnd(JoinAnd(a, b))
    decreases b
  {
    if b.And? { JoinAndHolds(a, b.left, members); }
  }

  lemma {:induction false} LeftAssociatedHolds(f: Formula, members: set<int>)
    ensures Holds(LeftAssociated(f), members) == Holds(f, members)
    ensures NoRightAnd(LeftAssociated(f)) && (LeftAssociated(f).And? <==> f.And?)
    ensures LeftAssociated(f) == f <==> NoRightAnd(f)
    decreases f
  {
    match f
    case Num(_) =>
    case Not(a) => LeftAssociatedHolds(a, members);
    case Or(l, r) => LeftAssociatedHolds(l, members); LeftAssociatedHolds(r, members);
    case And(l, r) =>
      LeftAssociatedHolds(l, members);
      LeftAssociatedHolds(r, members);
      JoinAndHolds(LeftAssociated(l), LeftAssociated(r), members);
  }

  lemma {:induction false} JoinMeaning(c: Conjunction, pre: nat, more: Conjunction)
    requires ConjunctsNotAnd(more)
    ensures ConjunctionMeaning(Join(c, pre, more)) == JoinAnd(ConjunctionMeaning(c), ConjunctionMeaning(more))
    ensures ConjunctsNotAnd(c) ==> ConjunctsNotAnd(Join(c, pre, more))
    decreases more
  {
    if more.Ands? { JoinMeaning(c, pre, more.init); }
  }

  predicate ConjunctsNotAnd(c: Conjunction) {
    match c
    case One(o) => !OperandMeaning(o).And?
    case Ands(init, _, o) => ConjunctsNotAnd(init) && !OperandMeaning(o).And?
  }

  lemma {:induction false} PrintedOperandMeaning(f: Formula, lead: nat)
    requires !f.And? && FitsInt32(f)
    ensures OperandMeaning(PrintedOperand(f, lead)) == LeftAssociated(f)
    decreases f, 0
  {
    match f
    case Num(v) => DecimalIsNumber(v);
    case Not(a) => if a.Num? { PrintedOperandMeaning(a, 0); } else { PrintedDisjunctionMeaning(a, 1); }
    case Or(l, r) =>
      PrintedConjunctionMeaning(l, 1);
      PrintedConjunctionMeaning(r, 1);
      assert DisjunctionMeaning(Just(PrintedConjunction(l, 1))) == LeftAssociated(l);
  }

  lemma {:induction false} PrintedConjunctionMeaning(f: Formula, lead: nat)
    requires FitsInt32(f)
    ensures ConjunctionMeaning(PrintedConjunction(f, lead)) == LeftAssociated(f)
    ensures ConjunctsNotAnd(PrintedConjunction(f, lead))
    decreases f, 1
  {
    if f.And? {
      PrintedConjunctionMeaning(f.left, lead);
      PrintedConjunctionMeaning(f.right, 1);
      JoinMeaning(PrintedConjunction(f.left, lead), 1, PrintedConjunction(f.right, 1));
    } else {
      PrintedOperandMeaning(f, lead);
    }
  }

  lemma {:induction false} PrintedDisjunctionMeaning(f: Formula, lead: nat)
    requires FitsInt32(f)
    ensures DisjunctionMeaning(PrintedDisjunction(f, lead)) == LeftAssociated(f)
    decreases f, 2
  {
    if f.Or? {
      PrintedConjunctionMeaning(f.left, lead);
      PrintedConjunctionMeaning(f.right, 1);
      assert DisjunctionMeaning(Just(PrintedConjunction(f.left, lead))) == LeftAssociated(f.left);
    } else {
      PrintedConjunctionMeaning(f, lead);
    }
  }

  /** Reading the print back gives the query with `&` associated to the left. */
  lemma {:induction false} PrintCompiles(f: Formula)
    requires FitsInt32(f)
    ensures Compile(InfixText(f, true)).Compiled?
    ensures Compile(InfixText(f, true)).out == Postfix(LeftAssociated(f))
  {
    hide InfixText, Compile;
    var q := Query(PrintedDisjunction(f, 0), 0);
    PrintedDisjunctionText(f, 0);
    PrintedDisjunctionMeaning(f, 0);
    PrintedDisjunctionFits(f, 0);
    assert QueryText(q) == InfixText(f, true);
    CompileComplete(q);
  }

  lemma {:induction false} SnocCancel<T>(a: seq<T>, x: T, b: seq<T>, y: T)
    requires a + [x] == b + [y]
    ensures a == b && x == y
  {
    assert a == (a + [x])[..|a|] && b == (b + [y])[..|b|];
    assert (a + [x])[|a|] == x && (b + [y])[|b|] == y;
  }

  lemma {:induction false} PostfixCases(f: Formula)
    ensures f.Num? ==> Postfix(f) == [OperatorOf(f)]
    ensures f.Not? ==> Postfix(f) == Postfix(f.arg) + [OperatorOf(f)]
    ensures f.And? || f.Or? ==> Postfix(f) == Postfix(f.left) + Postfix(f.right) + [OperatorOf(f)]
  {
  }

  function Operands(f: Formula): seq<Node> {
    match f
    case Num(_) => []
    case Not(a) => Postfix(a)
    case And(l, r) => Postfix(l) + Postfix(r)
    case Or(l, r) => Postfix(l) + Postfix(r)
  }

  /** Postfix determines the formula, even after a prefix. */
  lemma {:induction false} PostfixInjective(a: seq<Node>, f: Formula, b: seq<Node>, g: Formula)
    requires a + Postfix(f) == b + Postfix(g)
    ensures f == g && a == b
    decreases f
  {
    hide Postfix;
    PostfixCases(f);
    PostfixCases(g);
    assert a + Operands(f) + [OperatorOf(f)] == a + Postfix(f);
    assert b + Operands(g) + [OperatorOf(g)] == b + Postfix(g);
    SnocCancel(a + Operands(f), OperatorOf(f), b + Operands(g), OperatorOf(g));
    if f.Not? {
      PostfixInjective(a, f.arg, b, g.arg);
    } else if !f.Num? {
      assert a + Postfix(f.left) + Postfix(f.right) == a + Operands(f);
      assert b + Postfix(g.left) + Postfix(g.right) == b + Operands(g);
      PostfixInjective(a + Postfix(f.left), f.right, b + Postfix(g.left), g.right);
      PostfixInjective(a, f.left, b, g.left);
    } else {
      assert a + [] == a && b + [] == b;
    }
  }

  lemma {:induction false} ItemsCarryPostfix(f: Formula)
    ensures forall k :: 0 <= k < |Items(f)| ==> Items(f)[k].node == Postfix(f)[k]
  {
    hide Items, Postfix;
    ItemsCases(f);
    PostfixCases(f);
    if f.Not? {
      ItemsCarryPostfix(f.arg);
    } else if !f.Num? {
      ItemsCarryPostfix(f.left);
      ItemsCarryPostfix(f.right);
    }
  }

  lemma {:induction false} ItemsInjective(f: Formula, g: Formula)
    requires Items(f) == Items(g)
    ensures f == g
  {
    ItemsCarryPostfix(f);
    ItemsCarryPostfix(g);
    assert Postfix(f) == Postfix(g);
    assert [] + Postfix(f) == [] + Postfix(g);
    PostfixInjective([], f, [], g);
  }

  /** Printing and reading back: the same truth value on every array, and the same item array exactly
      when no `&` has an `&` as its right operand. */
  lemma {:induction false} PrintReadsBack(f: Formula, members: set<int>)
    requires FitsInt32(f)
    ensures Compile(InfixText(f, true)).Compiled?
    ensures Compile(InfixText(f, true)).out == Postfix(LeftAssociated(f))
    ensures Holds(LeftAssociated(f), members) == Holds(f, members)
    ensures Items(LeftAssociated(f)) == Items(f) <==> NoRightAnd(f)
  {
    hide InfixText, Compile, Items;
    PrintCompiles(f);
    LeftAssociatedHolds(f, members);
    if Items(LeftAssociated(f)) == Items(f) { ItemsInjective(LeftAssociated(f), f); }
  }

  lemma {:induction false} OperandFitsInt32(o: Operand)
    requires WellFormedOperand(o)
    ensures FitsInt32(OperandMeaning(o))
    decreases o
  {
    match o
    case Number(_, _) =>
    case Negated(_, arg) => OperandFitsInt32(arg);
    case Group(_, body, _) => DisjunctionFitsInt32(body);
  }

  lemma {:induction false} ConjunctionFitsInt32(c: Conjunction)
    requires WellFormedConjunction(c)
    ensures FitsInt32(ConjunctionMeaning(c))
    decreases c
  {
    match c
    case One(arg) => OperandFitsInt32(arg);
    case Ands(init, _, last) => ConjunctionFitsInt32(init); OperandFitsInt32(last);
  }

  /** Everything the compiler accepts can be printed and read back. */
  lemma {:induction false} DisjunctionFitsInt32(d: Disjunction)
    requires WellFormedDisjunction(d)
    ensures FitsInt32(DisjunctionMeaning(d))
    decreases d
  {
    match d
    case Just(conj) => ConjunctionFitsInt32(conj);
    case Ors(init, _, last) => DisjunctionFitsInt32(init); ConjunctionFitsInt32(last);
  }

  datatype Printed = Text(text: string) | EmptyQueryReported | OutOfMemory

  /** bqarr_out: the text, unless it needs more room than can be allocated. */
  method BqarrOut(items: seq<Item>, ghost f: Formula) returns (r: Printed)
    requires items == [] || (items == Items(f) && FitsInt32(f))
    ensures items == [] ==> r == EmptyQueryReported
    ensures items != [] ==> r == if Peak(f, true, 0) < LARGEST then Text(InfixText(f, true)) else OutOfMemory
  {
    hide Peak, Doubles, InfixText, Segment;
    if items == [] { return EmptyQueryReported; }
    WholeSegment(f);
    SixteenDoubles();
    var nrm := new Infix(items, |items| - 1, 32);
    var ok := nrm.Print(true, f);
    if !ok { return OutOfMemory; }
    return Text(nrm.text);
  }
}
