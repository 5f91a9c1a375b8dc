/** The language of contrib/intarray boolean queries: formulas, their truth over a set of integers,
    and the concrete syntax with precedence `!` over `&` over `|`. */
module QuerySyntax {

  datatype Formula = Num(v: int) | Not(arg: Formula) | And(left: Formula, right: Formula) | Or(left: Formula, right: Formula)

  /** A number holds when it occurs among the members. */
  predicate Holds(f: Formula, members: set<int>) {
    match f
    case Num(v) => v in members
    case Not(a) => !Holds(a, members)
    case And(l, r) => Holds(l, members) && Holds(r, members)
    case Or(l, r) => Holds(l, members) || Holds(r, members)
  }

  function Values(f: Formula): set<int> {
    match f
    case Num(v) => {v}
    case Not(a) => Values(a)
    case And(l, r) => Values(l) + Values(r)
    case Or(l, r) => Values(l) + Values(r)
  }

  predicate InInt32(v: int) {
    -0x8000_0000 <= v <= 0x7fff_ffff
  }

  // ---------------------------------------------------------------- numbers

  predicate IsDigit(ch: char) {
    '0' <= ch <= '9'
  }

  function DigitValue(ch: char): int {
    ch as int - '0' as int
  }

  predicate AllDigits(ds: string) {
    forall k :: 0 <= k < |ds| ==> IsDigit(ds[k])
  }

  /** Reads digits in the given base, stopping at the first that is too large for it. */
  function ReadBase(ds: string, base: nat, acc: int): int
    decreases |ds|
  {
    if ds == "" || DigitValue(ds[0]) >= base then acc
    else ReadBase(ds[1..], base, acc * base + DigitValue(ds[0]))
  }

  /** strtol with base 0, on an optional sign and decimal digits: a leading zero means octal,
      and a sign alone reads as zero. */
  function Strtol(ds: string): int {
    if ds != "" && ds[0] == '-' then -ReadMagnitude(ds[1..]) else ReadMagnitude(ds)
  }

  function ReadMagnitude(ds: string): int {
    if ds != "" && ds[0] == '0' then ReadBase(ds[1..], 8, 0) else ReadBase(ds, 10, 0)
  }

  function Power(base: nat, n: nat): nat {
    if n == 0 then 1 else base * Power(base, n - 1)
  }

  /** The sum of all digits, each times the power of the base that its place stands for. */
  function Weighted(ds: string, base: nat): int {
    if ds == "" then 0 else (ds[0] as int - 48) * Power(base, |ds| - 1) + Weighted(ds[1..], base)
  }

  lemma {:induction false} ReadBaseCases(ds: string, base: nat, acc: int)
    ensures ReadBase(ds, base, acc) ==
      if ds == "" || ds[0] as int >= 48 + base then acc else ReadBase(ds[1..], base, acc * base + (ds[0] as int - 48))
  {
  }

  /** Reading stops at the end or before the first digit too large for the base. */
  lemma {:induction false} ReadBaseIsWeighted(ds: string, rest: string, base: nat, acc: int)
    requires forall k :: 0 <= k < |ds| ==> '0' <= ds[k] && ds[k] as int < 48 + base
    requires rest == "" || rest[0] as int >= 48 + base
    ensures ReadBase(ds + rest, base, acc) == acc * Power(base, |ds|) + Weighted(ds, base)
    decreases |ds|
  {
    hide ReadBase;
    ReadBaseCases(ds + rest, base, acc);
    if ds == "" {
      assert ds + rest == rest;
    } else {
      assert (ds + rest)[1..] == ds[1..] + rest;
      ReadBaseIsWeighted(ds[1..], rest, base, acc * base + (ds[0] as int - 48));
      var p := Power(base, |ds| - 1);
      assert Power(base, |ds|) == base * p;
      hide Power;
      Regroup(acc, base, ds[0] as int - 48, p);
    }
  }

  lemma {:induction false} Regroup(acc: int, base: int, d: int, p: int)
    ensures (acc * base + d) * p == acc * (base * p) + d * p
  {
    assert (acc * base + d) * p == acc * base * p + d * p;
  }

  /** What a spelling with a leading zero means: its octal digits up to the first 8 or 9; a sign negates. */
  lemma {:induction false} OctalMeans(ds: string, rest: string)
    requires forall k :: 0 <= k < |ds| ==> '0' <= ds[k] <= '7'
    requires rest == "" || '8' <= rest[0] <= '9'
    ensures Strtol("0" + ds + rest) == Weighted(ds, 8) && Strtol("-0" + ds + rest) == -Weighted(ds, 8)
  {
    hide ReadBase, Weighted, Power;
    ReadBaseIsWeighted(ds, rest, 8, 0);
    assert ("0" + ds + rest)[1..] == ds + rest && ("-0" + ds + rest)[1..] == "0" + ds + rest;
  }

  /** What any other spelling means: all its digits in base ten. */
  lemma {:induction false} DecimalMeans(ds: string)
    requires ds != "" && ds[0] != '0' && forall k :: 0 <= k < |ds| ==> '0' <= ds[k] <= '9'
    ensures Strtol(ds) == Weighted(ds, 10) && Strtol("-" + ds) == -Weighted(ds, 10)
  {
    hide ReadBase, Weighted, Power;
    ReadBaseIsWeighted(ds, "", 10, 0);
    assert ds + "" == ds && ("-" + ds)[1..] == ds;
  }

  const NUMBER_BUFFER := 16

  /** The spelling of a number operand. */
  predicate IsNumber(ds: string) {
    && 0 < |ds| < NUMBER_BUFFER
    && (IsDigit(ds[0]) || ds[0] == '-')
    && AllDigits(ds[1..])
    && InInt32(Strtol(ds))
  }

  // ---------------------------------------------------------------- concrete syntax

  /** Every token may be preceded by spaces; `pre` and `post` count them. */
  datatype Operand = Number(pre: nat, digits: string)
                   | Negated(pre: nat, arg: Operand)
                   | Group(pre: nat, body: Disjunction, post: nat)

  datatype Conjunction = One(arg: Operand) | Ands(init: Conjunction, pre: nat, last: Operand)

  datatype Disjunction = Just(conj: Conjunction) | Ors(init: Disjunction, pre: nat, last: Conjunction)

  datatype Query = Query(body: Disjunction, post: nat)

  function Spaces(n: nat): (s: string)
    ensures |s| == n && forall k :: 0 <= k < n ==> s[k] == ' '
  {
    if n == 0 then "" else [' '] + Spaces(n - 1)
  }

  function OperandText(o: Operand): string {
    match o
    case Number(pre, digits) => Spaces(pre) + digits
    case Negated(pre, arg) => Spaces(pre) + "!" + OperandText(arg)
    case Group(pre, body, post) => Spaces(pre) + "(" + DisjunctionText(body) + Spaces(post) + ")"
  }

  function ConjunctionText(c: Conjunction): string {
    match c
    case One(arg) => OperandText(arg)
    case Ands(init, pre, last) => ConjunctionText(init) + Spaces(pre) + "&" + OperandText(last)
  }

  function DisjunctionText(d: Disjunction): string {
    match d
    case Just(conj) => ConjunctionText(conj)
    case Ors(init, pre, last) => DisjunctionText(init) + Spaces(pre) + "|" + ConjunctionText(last)
  }

  function QueryText(q: Query): string {
    DisjunctionText(q.body) + Spaces(q.post)
  }

  predicate WellFormedOperand(o: Operand) {
    match o
    case Number(_, digits) => IsNumber(digits)
    case Negated(_, arg) => WellFormedOperand(arg)
    case Group(_, body, _) => WellFormedDisjunction(body)
  }

  predicate WellFormedConjunction(c: Conjunction) {
    match c
    case One(arg) => WellFormedOperand(arg)
    case Ands(init, _, last) => WellFormedConjunction(init) && WellFormedOperand(last)
  }

  predicate WellFormedDisjunction(d: Disjunction) {
    match d
    case Just(conj) => WellFormedConjunction(conj)
    case Ors(init, _, last) => WellFormedDisjunction(init) && WellFormedConjunction(last)
  }

  function OperandMeaning(o: Operand): Formula {
    match o
    case Number(_, digits) => Num(Strtol(digits))
    case Negated(_, arg) => Not(OperandMeaning(arg))
    case Group(_, body, _) => DisjunctionMeaning(body)
  }

  function ConjunctionMeaning(c: Conjunction): Formula {
    match c
    case One(arg) => OperandMeaning(arg)
    case Ands(init, _, last) => And(ConjunctionMeaning(init), OperandMeaning(last))
  }

  function DisjunctionMeaning(d: Disjunction): Formula {
    match d
    case Just(conj) => ConjunctionMeaning(conj)
    case Ors(init, _, last) => Or(DisjunctionMeaning(init), ConjunctionMeaning(last))
  }
}
