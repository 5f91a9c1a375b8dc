/** The compiler of contrib/intarray/_int_bool.c from query text to postfix: the tokenizer with its
    three states and the operator stack of makepol. */
module QueryParser {
  import opened QuerySyntax

  /** An element of the postfix list. */
  datatype Node = Value(v: int) | Operator(op: char)

  datatype Wait = WaitOperand | WaitEndOperand | WaitOperator

  datatype Token = End | Err | Val(v: int) | Opr(op: char) | Open | Close

  /** The character the C text shows at a position, its terminator included. */
  function At(buf: string, pos: nat): char {
    if pos < |buf| then buf[pos] else '\0'
  }

  predicate IsCString(buf: string) {
    forall k :: 0 <= k < |buf| ==> buf[k] != '\0'
  }

  function SkipSpaces(buf: string, pos: nat): (p: nat)
    requires pos <= |buf|
    ensures pos <= p <= |buf| && At(buf, p) != ' '
    ensures forall k :: pos <= k < p ==> buf[k] == ' '
    decreases |buf| - pos
  {
    if At(buf, pos) == ' ' then SkipSpaces(buf, pos + 1) else pos
  }

  function SkipDigits(buf: string, pos: nat): (p: nat)
    requires pos <= |buf|
    ensures pos <= p <= |buf| && !IsDigit(At(buf, p))
    ensures forall k :: pos <= k < p ==> IsDigit(buf[k])
    decreases |buf| - pos
  {
    if IsDigit(At(buf, pos)) then SkipDigits(buf, pos + 1) else pos
  }

  /** A token and the tokenizer's place after it. */
  datatype Scan = Scan(token: Token, pos: nat, state: Wait, count: int)

  /** What one call of gettoken delivers. After `Err` the place is of no consequence. */
  function NextToken(buf: string, pos: nat, state: Wait, count: int): (r: Scan)
    requires pos <= |buf|
    ensures r.pos <= |buf| && r.state != WaitEndOperand
    ensures !r.token.End? && !r.token.Err? ==> pos < r.pos
  {
    var p := SkipSpaces(buf, pos);
    var ch := At(buf, p);
    match state
    case WaitOperand =>
      if IsDigit(ch) || ch == '-' then
        var e := SkipDigits(buf, p + 1);
        if e - p >= NUMBER_BUFFER || !InInt32(Strtol(buf[p..e])) || (count != 0 && At(buf, e) == '\0')
        then Scan(Err, p, WaitOperand, count)
        else Scan(Val(Strtol(buf[p..e])), e, WaitOperator, count)
      else if ch == '!' then Scan(Opr('!'), p + 1, WaitOperand, count)
      else if ch == '(' then Scan(Open, p + 1, WaitOperand, count + 1)
      else Scan(Err, p, WaitOperand, count)
    case WaitOperator =>
      if ch == '&' || ch == '|' then Scan(Opr(ch), p + 1, WaitOperand, count)
      else if ch == ')' then Scan(if count - 1 < 0 then Err else Close, p + 1, WaitOperator, count - 1)
      else if ch == '\0' then Scan(if count != 0 then Err else End, p, WaitOperator, count)
      else Scan(Err, p, WaitOperator, count)
    case WaitEndOperand => Scan(Err, p, WaitOperator, count)
  }

  const STACKDEPTH := 16

  /** How a compilation ends: with a postfix list, or with one of the two reported errors. */
  datatype Outcome = Compiled(pos: nat, state: Wait, count: int, out: seq<Node>) | SyntaxError | TooComplex

  predicate Tight(op: char) {
    op == '&' || op == '!'
  }

  /** Operators `&` and `!` on top of the stack move to the output. */
  function PopTight(stack: seq<char>, out: seq<Node>): (r: (seq<char>, seq<Node>))
    ensures |r.0| <= |stack|
  {
    if stack != [] && Tight(stack[|stack| - 1])
    then PopTight(stack[..|stack| - 1], out + [Operator(stack[|stack| - 1])])
    else (stack, out)
  }

  function PopAll(stack: seq<char>, out: seq<Node>): seq<Node> {
    if stack == [] then out else PopAll(stack[..|stack| - 1], out + [Operator(stack[|stack| - 1])])
  }

  /** What makepol does from a given place, operator stack and output. */
  function MakePol(buf: string, pos: nat, state: Wait, count: int, stack: seq<char>, out: seq<Node>): (r: Outcome)
    requires pos <= |buf|
    ensures r.Compiled? ==> pos <= r.pos <= |buf|
    decreases |buf| - pos
  {
    var scan := NextToken(buf, pos, state, count);
    match scan.token
    case End => Compiled(scan.pos, scan.state, scan.count, PopAll(stack, out))
    case Close => Compiled(scan.pos, scan.state, scan.count, PopAll(stack, out))
    case Err => SyntaxError
    case Val(v) =>
      var (rest, out') := PopTight(stack, out + [Value(v)]);
      MakePol(buf, scan.pos, scan.state, scan.count, rest, out')
    case Opr(op) =>
      if stack != [] && op == '|' then MakePol(buf, scan.pos, scan.state, scan.count, stack, out + [Operator(op)])
      else if |stack| == STACKDEPTH then TooComplex
      else MakePol(buf, scan.pos, scan.state, scan.count, stack + [op], out)
    case Open =>
      var inner := MakePol(buf, scan.pos, scan.state, scan.count, [], out);
      if !inner.Compiled? then inner
      else
        var (rest, out') := PopTight(stack, inner.out);
        MakePol(buf, inner.pos, inner.state, inner.count, rest, out')
  }

  function Compile(buf: string): Outcome {
    MakePol(buf, 0, WaitOperand, 0, [], [])
  }

  // ---------------------------------------------------------------- the meaning of the output

  function Postfix(f: Formula): (ns: seq<Node>)
    ensures |ns| > 0
  {
    match f
    case Num(v) => [Value(v)]
    case Not(a) => Postfix(a) + [Operator('!')]
    case And(l, r) => Postfix(l) + Postfix(r) + [Operator('&')]
    case Or(l, r) => Postfix(l) + Postfix(r) + [Operator('|')]
  }

  /** Whether the operator stack, holding `base` operators before the operand, is deep enough for it. */
  predicate OperandFits(o: Operand, base: nat) {
    match o
    case Number(_, _) => true
    case Negated(_, arg) => base < STACKDEPTH && OperandFits(arg, base + 1)
    case Group(_, body, _) => DisjunctionFits(body)
  }

  predicate ConjunctionFits(c: Conjunction, base: nat) {
    match c
    case One(arg) => OperandFits(arg, base)
    case Ands(init, _, last) => ConjunctionFits(init, base) && OperandFits(last, base + 1)
  }

  predicate DisjunctionFits(d: Disjunction) {
    match d
    case Just(conj) => ConjunctionFits(conj, 0)
    case Ors(init, _, last) => DisjunctionFits(init) && ConjunctionFits(last, 1)
  }

  // ---------------------------------------------------------------- text at a place

  predicate TextAt(buf: string, pos: nat, text: string) {
    pos + |text| <= |buf| && buf[pos..pos + |text|] == text
  }

  lemma {:induction false} TextAtSplit(buf: string, pos: nat, a: string, b: string)
    ensures TextAt(buf, pos, a + b) <==> TextAt(buf, pos, a) && TextAt(buf, pos + |a|, b)
  {
    if pos + |a| + |b| <= |buf| {
      var s := buf[pos..pos + |a + b|];
      assert s == buf[pos..pos + |a|] + buf[pos + |a|..pos + |a| + |b|];
      if s == a + b {
        assert buf[pos..pos + |a|] == s[..|a|] == a;
        assert buf[pos + |a|..pos + |a| + |b|] == s[|a|..] == b;
      }
    }
  }

  lemma {:induction false} TextAtSplit3(buf: string, pos: nat, a: string, b: string, c: string)
    ensures TextAt(buf, pos, a + b + c) <==>
            TextAt(buf, pos, a) && TextAt(buf, pos + |a|, b) && TextAt(buf, pos + |a| + |b|, c)
  {
    TextAtSplit(buf, pos, a + b, c);
    TextAtSplit(buf, pos, a, b);
  }

  lemma {:induction false} SpacesSkipped(buf: string, pos: nat, n: nat)
    requires TextAt(buf, pos, Spaces(n)) && At(buf, pos + n) != ' '
    ensures SkipSpaces(buf, pos) == pos + n
    decreases n
  {
    if n > 0 {
      TextAtSplit(buf, pos, " ", Spaces(n - 1));
      assert buf[pos] == buf[pos..pos + 1][0];
      SpacesSkipped(buf, pos + 1, n - 1);
    }
  }

  lemma {:induction false} DigitsSkipped(buf: string, pos: nat, ds: string)
    requires TextAt(buf, pos, ds) && AllDigits(ds) && !IsDigit(At(buf, pos + |ds|))
    ensures SkipDigits(buf, pos) == pos + |ds|
    decreases |ds|
  {
    if ds != "" {
      assert ds == ds[..1] + ds[1..];
      TextAtSplit(buf, pos, ds[..1], ds[1..]);
      assert buf[pos] == buf[pos..pos + 1][0] == ds[0];
      DigitsSkipped(buf, pos + 1, ds[1..]);
    }
  }

  lemma {:induction false} ScanNumber(buf: string, pos: nat, count: int, pre: nat, ds: string)
    requires TextAt(buf, pos, Spaces(pre) + ds) && IsNumber(ds)
    requires !IsDigit(At(buf, pos + pre + |ds|)) && (count != 0 ==> At(buf, pos + pre + |ds|) != '\0')
    ensures NextToken(buf, pos, WaitOperand, count) == Scan(Val(Strtol(ds)), pos + pre + |ds|, WaitOperator, count)
  {
    hide Strtol, InInt32, Spaces;
    TextAtSplit(buf, pos, Spaces(pre), ds);
    NumberRuns(buf, pos + pre, ds);
    SpacesSkipped(buf, pos, pre);
  }

  lemma {:induction false} NumberRuns(buf: string, p: nat, ds: string)
    requires TextAt(buf, p, ds) && ds != "" && AllDigits(ds[1..]) && !IsDigit(At(buf, p + |ds|))
    ensures p < |buf| && At(buf, p) == ds[0] && SkipDigits(buf, p + 1) == p + |ds|
  {
    assert ds == ds[..1] + ds[1..];
    TextAtSplit(buf, p, ds[..1], ds[1..]);
    assert At(buf, p) == buf[p..p + 1][0] == ds[0];
    DigitsSkipped(buf, p + 1, ds[1..]);
  }

  lemma {:induction false} SpacedChar(buf: string, pos: nat, pre: nat, ch: char)
    requires TextAt(buf, pos, Spaces(pre) + [ch]) && ch != ' '
    ensures SkipSpaces(buf, pos) == pos + pre && pos + pre < |buf| && At(buf, pos + pre) == ch
  {
    TextAtSplit(buf, pos, Spaces(pre), [ch]);
    assert buf[pos + pre] == buf[pos + pre..pos + pre + 1][0];
    SpacesSkipped(buf, pos, pre);
  }

  // ---------------------------------------------------------------- every query text is compiled

  /** A place after an operand at which the tokenizer stops reading digits and, inside parentheses, text goes on. */
  predicate Bounded(buf: string, pos: nat, count: int) {
    !IsDigit(At(buf, pos)) && (count != 0 ==> At(buf, pos) != '\0')
  }

  /** Compilation resumes after an operand with its postfix on the output and tight operators popped. */
  predicate ResumesAfter(buf: string, pos: nat, count: int, stack: seq<char>, out: seq<Node>, f: Formula, next: nat) {
    pos <= |buf| && next <= |buf| &&
    var (rest, out') := PopTight(stack, out + Postfix(f));
    MakePol(buf, pos, WaitOperand, count, stack, out) == MakePol(buf, next, WaitOperator, count, rest, out')
  }

  /** One round of makepol, for proofs that hide its definition. */
  lemma {:induction false} MakePolRound(buf: string, pos: nat, state: Wait, count: int, stack: seq<char>, out: seq<Node>)
    requires pos <= |buf|
    ensures var scan := NextToken(buf, pos, state, count);
            scan.token.Err? ==> MakePol(buf, pos, state, count, stack, out) == SyntaxError
    ensures var scan := NextToken(buf, pos, state, count);
            scan.token.End? || scan.token.Close? ==>
            MakePol(buf, pos, state, count, stack, out) ==
            Compiled(scan.pos, scan.state, scan.count, PopAll(stack, out))
    ensures var scan := NextToken(buf, pos, state, count);
            scan.token.Val? ==>
            var popped := PopTight(stack, out + [Value(scan.token.v)]);
            MakePol(buf, pos, state, count, stack, out) ==
            MakePol(buf, scan.pos, scan.state, scan.count, popped.0, popped.1)
    ensures var scan := NextToken(buf, pos, state, count);
            scan.token.Opr? ==>
            MakePol(buf, pos, state, count, stack, out) ==
            if stack != [] && scan.token.op == '|'
            then MakePol(buf, scan.pos, scan.state, scan.count, stack, out + [Operator(scan.token.op)])
            else if |stack| == STACKDEPTH then TooComplex
            else MakePol(buf, scan.pos, scan.state, scan.count, stack + [scan.token.op], out)
    ensures var scan := NextToken(buf, pos, state, count);
            scan.token.Open? ==>
            var inner := MakePol(buf, scan.pos, scan.state, scan.count, [], out);
            MakePol(buf, pos, state, count, stack, out) ==
            if !inner.Compiled? then inner
            else MakePol(buf, inner.pos, inner.state, inner.count, PopTight(stack, inner.out).0, PopTight(stack, inner.out).1)
  {
  }

  lemma {:induction false} PopTightTop(stack: seq<char>, op: char, out: seq<Node>)
    requires Tight(op)
    ensures PopTight(stack + [op], out) == PopTight(stack, out + [Operator(op)])
  {
    assert (stack + [op])[..|stack|] == stack;
  }

  lemma {:induction false} PopTightLoose(stack: seq<char>, out: seq<Node>)
    requires stack == [] || stack == ['|']
    ensures PopTight(stack, out) == (stack, out)
  {
  }

  lemma {:induction false} ScanPunctuation(buf: string, pos: nat, state: Wait, count: int, pre: nat, ch: char)
    requires TextAt(buf, pos, Spaces(pre) + [ch])
    requires state == WaitOperand ==> ch == '!' || ch == '('
    requires state == WaitOperator ==> ch == '&' || ch == '|' || (ch == ')' && count > 0)
    requires state != WaitEndOperand
    ensures pos + pre < |buf|
    ensures NextToken(buf, pos, state, count) ==
            if ch == '(' then Scan(Open, pos + pre + 1, WaitOperand, count + 1)
            else if ch == ')' then Scan(Close, pos + pre + 1, WaitOperator, count - 1)
            else Scan(Opr(ch), pos + pre + 1, WaitOperand, count)
  {
    SpacedChar(buf, pos, pre, ch);
  }

  lemma {:induction false} CompileOperand(buf: string, pos: nat, count: int, stack: seq<char>, out: seq<Node>, o: Operand)
    requires TextAt(buf, pos, OperandText(o)) && WellFormedOperand(o) && OperandFits(o, |stack|)
    requires Bounded(buf, pos + |OperandText(o)|, count) && count >= 0
    ensures ResumesAfter(buf, pos, count, stack, out, OperandMeaning(o), pos + |OperandText(o)|)
    decreases o, 2
  {
    hide MakePol, NextToken, PopTight, TextAt;
    TextAtFits(buf, pos, OperandText(o));
    MakePolRound(buf, pos, WaitOperand, count, stack, out);
    match o
    case Number(pre, ds) =>
      ScanNumber(buf, pos, count, pre, ds);
    case Negated(pre, arg) =>
      TextAtSplit(buf, pos, Spaces(pre) + "!", OperandText(arg));
      ScanPunctuation(buf, pos, WaitOperand, count, pre, '!');
      CompileOperand(buf, pos + pre + 1, count, stack + ['!'], out, arg);
      PopTightTop(stack, '!', out + Postfix(OperandMeaning(arg)));
      assert out + Postfix(OperandMeaning(arg)) + [Operator('!')] == out + Postfix(OperandMeaning(o));
    case Group(pre, body, post) =>
      GroupText(buf, pos, pre, body, post, count);
      ScanPunctuation(buf, pos, WaitOperand, count, pre, '(');
      CompileLevel(buf, pos + pre + 1, count + 1, out, body, post);
  }

  lemma {:induction false} GroupText(buf: string, pos: nat, pre: nat, body: Disjunction, post: nat, count: int)
    requires TextAt(buf, pos, OperandText(Group(pre, body, post))) && count >= 0
    ensures TextAt(buf, pos, Spaces(pre) + "(")
    ensures TextAt(buf, pos + pre + 1, DisjunctionText(body) + Spaces(post))
    ensures LevelEnds(buf, pos + pre + 1 + |DisjunctionText(body)| + post, count + 1)
    ensures |OperandText(Group(pre, body, post))| == pre + 1 + |DisjunctionText(body)| + post + 1
  {
    var inside := DisjunctionText(body) + Spaces(post);
    assert OperandText(Group(pre, body, post)) == (Spaces(pre) + "(") + inside + ")";
    TextAtSplit3(buf, pos, Spaces(pre) + "(", inside, ")");
    assert buf[pos + pre + 1 + |inside|] == buf[pos + pre + 1 + |inside|..pos + pre + 2 + |inside|][0];
  }

  lemma {:induction false} PunctuationBounds(buf: string, pos: nat, count: int, pre: nat, ch: char)
    requires TextAt(buf, pos, Spaces(pre) + [ch]) && !IsDigit(ch) && ch != '\0'
    ensures Bounded(buf, pos, count)
  {
    assert buf[pos] == (Spaces(pre) + [ch])[0] by {
      assert buf[pos..pos + pre + 1][0] == buf[pos];
    }
  }

  /** `&` after a conjunction goes onto the stack. */
  lemma {:induction false} AndRound(buf: string, pos: nat, count: int, stack: seq<char>, out: seq<Node>, pre: nat)
    requires TextAt(buf, pos, Spaces(pre) + "&") && (stack == [] || stack == ['|'])
    ensures Bounded(buf, pos, count)
    ensures MakePol(buf, pos, WaitOperator, count, stack, out)
         == MakePol(buf, pos + pre + 1, WaitOperand, count, stack + ['&'], out)
  {
    hide MakePol, NextToken, PopTight;
    MakePolRound(buf, pos, WaitOperator, count, stack, out);
    ScanPunctuation(buf, pos, WaitOperator, count, pre, '&');
    PunctuationBounds(buf, pos, count, pre, '&');
  }

  lemma {:induction false} CompileConjunction(buf: string, pos: nat, count: int, stack: seq<char>, out: seq<Node>, c: Conjunction)
    requires TextAt(buf, pos, ConjunctionText(c)) && WellFormedConjunction(c) && ConjunctionFits(c, |stack|)
    requires Bounded(buf, pos + |ConjunctionText(c)|, count) && count >= 0
    requires stack == [] || stack == ['|']
    ensures MakePol(buf, pos, WaitOperand, count, stack, out)
         == MakePol(buf, pos + |ConjunctionText(c)|, WaitOperator, count, stack, out + Postfix(ConjunctionMeaning(c)))
    decreases c
  {
    hide MakePol, NextToken, PopTight, TextAt, Bounded;
    TextAtFits(buf, pos, ConjunctionText(c));
    PopTightLoose(stack, out + Postfix(ConjunctionMeaning(c)));
    match c
    case One(arg) =>
      CompileOperand(buf, pos, count, stack, out, arg);
    case Ands(init, pre, last) =>
      var next := pos + |ConjunctionText(init)|;
      var out' := out + Postfix(ConjunctionMeaning(init));
      assert ConjunctionText(c) == ConjunctionText(init) + (Spaces(pre) + "&") + OperandText(last);
      TextAtSplit3(buf, pos, ConjunctionText(init), Spaces(pre) + "&", OperandText(last));
      AndRound(buf, next, count, stack, out', pre);
      CompileConjunction(buf, pos, count, stack, out, init);
      CompileOperand(buf, next + pre + 1, count, stack + ['&'], out', last);
      PopTightTop(stack, '&', out' + Postfix(OperandMeaning(last)));
      assert out' + Postfix(OperandMeaning(last)) + [Operator('&')] == out + Postfix(ConjunctionMeaning(c));
  }

  /** What a level has on its stack and output after a disjunction: the last `|` waits. */
  function Waiting(d: Disjunction): seq<char> {
    if d.Just? then [] else ['|']
  }

  function Emitted(d: Disjunction): seq<Node> {
    match d
    case Just(conj) => Postfix(ConjunctionMeaning(conj))
    case Ors(init, _, last) => Postfix(DisjunctionMeaning(init)) + Postfix(ConjunctionMeaning(last))
  }

  lemma {:induction false} EmittedClosed(d: Disjunction, out: seq<Node>)
    ensures PopAll(Waiting(d), out + Emitted(d)) == out + Postfix(DisjunctionMeaning(d))
  {
    if d.Ors? {
      assert ['|'][..0] == [];
      assert out + Emitted(d) + [Operator('|')] == out + Postfix(DisjunctionMeaning(d));
    }
  }

  /** `|` after a disjunction: the first waits on the stack, a later one sends the waiting one out. */
  lemma {:induction false} OrRound(buf: string, pos: nat, count: int, out: seq<Node>, d: Disjunction, pre: nat)
    requires TextAt(buf, pos, Spaces(pre) + "|")
    ensures Bounded(buf, pos, count)
    ensures MakePol(buf, pos, WaitOperator, count, Waiting(d), out + Emitted(d))
         == MakePol(buf, pos + pre + 1, WaitOperand, count, ['|'], out + Postfix(DisjunctionMeaning(d)))
  {
    hide MakePol, NextToken, PopTight;
    MakePolRound(buf, pos, WaitOperator, count, Waiting(d), out + Emitted(d));
    ScanPunctuation(buf, pos, WaitOperator, count, pre, '|');
    PunctuationBounds(buf, pos, count, pre, '|');
    assert [] + ['|'] == ['|'];
    assert d.Ors? ==> out + Emitted(d) + [Operator('|')] == out + Postfix(DisjunctionMeaning(d));
  }

  lemma {:induction false} CompileDisjunction(buf: string, pos: nat, count: int, out: seq<Node>, d: Disjunction)
    requires TextAt(buf, pos, DisjunctionText(d)) && WellFormedDisjunction(d) && DisjunctionFits(d) && count >= 0
    requires Bounded(buf, pos + |DisjunctionText(d)|, count)
    ensures MakePol(buf, pos, WaitOperand, count, [], out)
         == MakePol(buf, pos + |DisjunctionText(d)|, WaitOperator, count, Waiting(d), out + Emitted(d))
    decreases d, 0
  {
    hide MakePol, NextToken, PopTight, TextAt, Bounded;
    TextAtFits(buf, pos, DisjunctionText(d));
    match d
    case Just(conj) =>
      CompileConjunction(buf, pos, count, [], out, conj);
    case Ors(init, pre, last) =>
      var next := pos + |DisjunctionText(init)|;
      var out' := out + Postfix(DisjunctionMeaning(init));
      assert DisjunctionText(d) == DisjunctionText(init) + (Spaces(pre) + "|") + ConjunctionText(last);
      TextAtSplit3(buf, pos, DisjunctionText(init), Spaces(pre) + "|", ConjunctionText(last));
      OrRound(buf, next, count, out, init, pre);
      CompileDisjunction(buf, pos, count, out, init);
      CompileConjunction(buf, next + pre + 1, count, ['|'], out', last);
      assert out' + Postfix(ConjunctionMeaning(last)) == out + Emitted(d);
  }

  /** A closing parenthesis, or the end of the text at the outermost level. */
  predicate LevelEnds(buf: string, pos: nat, count: int) {
    if count == 0 then pos == |buf| else pos < |buf| && buf[pos] == ')'
  }

  function LevelEnd(pos: nat, count: int, out: seq<Node>): Outcome {
    if count == 0 then Compiled(pos, WaitOperator, 0, out) else Compiled(pos + 1, WaitOperator, count - 1, out)
  }

  lemma {:induction false} ScanLevelEnd(buf: string, pos: nat, count: int, post: nat, stack: seq<char>, out: seq<Node>)
    requires TextAt(buf, pos, Spaces(post)) && LevelEnds(buf, pos + post, count) && count >= 0
    ensures MakePol(buf, pos, WaitOperator, count, stack, out) == LevelEnd(pos + post, count, PopAll(stack, out))
    ensures Bounded(buf, pos, count)
  {
    SpacesSkipped(buf, pos, post);
    assert post > 0 ==> buf[pos] == buf[pos..pos + post][0];
  }

  lemma {:induction false} CompileLevel(buf: string, pos: nat, count: int, out: seq<Node>, d: Disjunction, post: nat)
    requires TextAt(buf, pos, DisjunctionText(d) + Spaces(post)) && WellFormedDisjunction(d) && DisjunctionFits(d) && count >= 0
    requires LevelEnds(buf, pos + |DisjunctionText(d)| + post, count)
    ensures MakePol(buf, pos, WaitOperand, count, [], out)
         == LevelEnd(pos + |DisjunctionText(d)| + post, count, out + Postfix(DisjunctionMeaning(d)))
    decreases d, 1
  {
    hide MakePol, NextToken, TextAt, LevelEnds, Bounded, Postfix, PopAll, Emitted, DisjunctionText, Spaces, LevelEnd;
    TextAtSplit(buf, pos, DisjunctionText(d), Spaces(post));
    ScanLevelEnd(buf, pos + |DisjunctionText(d)|, count, post, Waiting(d), out + Emitted(d));
    CompileDisjunction(buf, pos, count, out, d);
    EmittedClosed(d, out);
  }

  /** Every well-formed query that the operator stack can hold compiles to the postfix of its meaning. */
  lemma {:induction false} CompileComplete(q: Query)
    requires WellFormedDisjunction(q.body) && DisjunctionFits(q.body)
    ensures Compile(QueryText(q)) ==
            Compiled(|QueryText(q)|, WaitOperator, 0, Postfix(DisjunctionMeaning(q.body)))
  {
    var buf := QueryText(q);
    assert buf[0..|buf|] == buf;
    CompileLevel(buf, 0, 0, [], q.body, q.post);
    assert [] + Postfix(DisjunctionMeaning(q.body)) == Postfix(DisjunctionMeaning(q.body));
  }

  // ---------------------------------------------------------------- nothing else is compiled

  lemma {:induction false} FoundSpaces(buf: string, pos: nat)
    requires pos <= |buf|
    ensures TextAt(buf, pos, Spaces(SkipSpaces(buf, pos) - pos))
  {
    var p := SkipSpaces(buf, pos);
    assert buf[pos..p] == Spaces(p - pos);
  }

  /** What stood in the text when a token was read where an operand is due. */
  lemma {:induction false} FoundWaitingOperand(buf: string, pos: nat, count: int) returns (pre: nat, text: string)
    requires pos <= |buf| && !NextToken(buf, pos, WaitOperand, count).token.Err?
    ensures TextAt(buf, pos, Spaces(pre) + text) && |text| > 0
    ensures var scan := NextToken(buf, pos, WaitOperand, count);
            || (IsNumber(text) && scan == Scan(Val(Strtol(text)), pos + pre + |text|, WaitOperator, count))
            || (text == "!" && scan == Scan(Opr('!'), pos + pre + 1, WaitOperand, count))
            || (text == "(" && scan == Scan(Open, pos + pre + 1, WaitOperand, count + 1))
  {
    hide Strtol, InInt32, Spaces, TextAt;
    var p := SkipSpaces(buf, pos);
    pre := p - pos;
    var e := if buf[p] == '!' || buf[p] == '(' then p + 1 else SkipDigits(buf, p + 1);
    text := buf[p..e];
    FoundSpaces(buf, pos);
    FoundSlice(buf, p, e);
    TextAtSplit(buf, pos, Spaces(pre), text);
    if e == p + 1 {
      assert text == [buf[p]];
    }
  }

  lemma {:induction false} FoundSlice(buf: string, p: nat, e: nat)
    requires p <= e <= |buf|
    ensures TextAt(buf, p, buf[p..e])
  {
  }

  /** The same where an operator is due. */
  lemma {:induction false} FoundWaitingOperator(buf: string, pos: nat, count: int) returns (pre: nat)
    requires IsCString(buf) && count >= 0
    requires pos <= |buf| && !NextToken(buf, pos, WaitOperator, count).token.Err?
    ensures TextAt(buf, pos, Spaces(pre))
    ensures var scan := NextToken(buf, pos, WaitOperator, count);
            || (scan.token == Opr('&') && TextAt(buf, pos, Spaces(pre) + "&"))
            || (scan.token == Opr('|') && TextAt(buf, pos, Spaces(pre) + "|"))
            || ((scan.token.End? || scan.token.Close?) && LevelEnds(buf, pos + pre, count))
  {
    hide TextAt, Spaces;
    var p := SkipSpaces(buf, pos);
    pre := p - pos;
    FoundSpaces(buf, pos);
    if p < |buf| {
      FoundSlice(buf, p, p + 1);
      TextAtSplit(buf, pos, Spaces(pre), buf[p..p + 1]);
      assert buf[p..p + 1] == [buf[p]];
    }
  }

  lemma {:induction false} SoundOperand(buf: string, pos: nat, count: int, stack: seq<char>, out: seq<Node>) returns (o: Operand)
    requires IsCString(buf) && pos <= |buf| && count >= 0 && |stack| <= STACKDEPTH
    requires MakePol(buf, pos, WaitOperand, count, stack, out).Compiled?
    ensures TextAt(buf, pos, OperandText(o)) && |OperandText(o)| > 0
    ensures WellFormedOperand(o) && OperandFits(o, |stack|)
    ensures ResumesAfter(buf, pos, count, stack, out, OperandMeaning(o), pos + |OperandText(o)|)
    decreases |buf| - pos, 0
  {
    hide MakePol, PopTight, NextToken, TextAt, LevelEnds;
    MakePolRound(buf, pos, WaitOperand, count, stack, out);
    var pre, text := FoundWaitingOperand(buf, pos, count);
    match NextToken(buf, pos, WaitOperand, count).token
    case Val(v) =>
      o := Number(pre, text);
    case Opr(op) =>
      var arg := SoundOperand(buf, pos + pre + 1, count, stack + ['!'], out);
      o := Negated(pre, arg);
      TextAtSplit(buf, pos, Spaces(pre) + "!", OperandText(arg));
      PopTightTop(stack, '!', out + Postfix(OperandMeaning(arg)));
      assert out + Postfix(OperandMeaning(arg)) + [Operator('!')] == out + Postfix(OperandMeaning(o));
    case Open =>
      var body, post := SoundLevel(buf, pos + pre + 1, count + 1, out);
      o := Group(pre, body, post);
      SoundGroup(buf, pos, pre, body, post, count);
  }

  lemma {:induction false} SoundGroup(buf: string, pos: nat, pre: nat, body: Disjunction, post: nat, count: int)
    requires TextAt(buf, pos, Spaces(pre) + "(") && count >= 0
    requires TextAt(buf, pos + pre + 1, DisjunctionText(body) + Spaces(post))
    requires LevelEnds(buf, pos + pre + 1 + |DisjunctionText(body)| + post, count + 1)
    ensures TextAt(buf, pos, OperandText(Group(pre, body, post)))
    ensures |OperandText(Group(pre, body, post))| == pre + 1 + |DisjunctionText(body)| + post + 1
  {
    hide TextAt, DisjunctionText, Spaces;
    var inside := DisjunctionText(body) + Spaces(post);
    assert OperandText(Group(pre, body, post)) == (Spaces(pre) + "(") + inside + ")";
    TextAtSplit3(buf, pos, Spaces(pre) + "(", inside, ")");
    var e := pos + pre + 1 + |inside|;
    FoundSlice(buf, e, e + 1);
    assert buf[e..e + 1] == ")";
  }

  /** The formula list seen so far, with its last conjunction replaced. */
  function WithLast(d: Disjunction, c: Conjunction): Disjunction {
    match d
    case Just(_) => Just(c)
    case Ors(init, pre, _) => Ors(init, pre, c)
  }

  function Last(d: Disjunction): Conjunction {
    match d
    case Just(c) => c
    case Ors(_, _, c) => c
  }

  lemma {:induction false} OneOperand(o: Operand, base: nat)
    ensures ConjunctionText(One(o)) == OperandText(o) && ConjunctionMeaning(One(o)) == OperandMeaning(o)
    ensures WellFormedConjunction(One(o)) <==> WellFormedOperand(o)
    ensures ConjunctionFits(One(o), base) <==> OperandFits(o, base)
  {
  }

  lemma {:induction false} MoreAnds(c: Conjunction, pre: nat, o: Operand, base: nat)
    ensures ConjunctionText(Ands(c, pre, o)) == ConjunctionText(c) + (Spaces(pre) + "&") + OperandText(o)
    ensures Postfix(ConjunctionMeaning(Ands(c, pre, o))) ==
            Postfix(ConjunctionMeaning(c)) + Postfix(OperandMeaning(o)) + [Operator('&')]
    ensures WellFormedConjunction(Ands(c, pre, o)) <==> WellFormedConjunction(c) && WellFormedOperand(o)
    ensures ConjunctionFits(Ands(c, pre, o), base) <==> ConjunctionFits(c, base) && OperandFits(o, base + 1)
  {
  }

  lemma {:induction false} ExtendLast(d: Disjunction, pre: nat, o: Operand, out: seq<Node>)
    ensures var d' := WithLast(d, Ands(Last(d), pre, o));
            && DisjunctionText(d') == DisjunctionText(d) + (Spaces(pre) + "&") + OperandText(o)
            && Waiting(d') == Waiting(d)
            && out + Emitted(d) + Postfix(OperandMeaning(o)) + [Operator('&')] == out + Emitted(d')
            && (WellFormedDisjunction(d) && WellFormedOperand(o) ==> WellFormedDisjunction(d'))
            && (DisjunctionFits(d) && OperandFits(o, |Waiting(d)| + 1) ==> DisjunctionFits(d'))
  {
    hide ConjunctionText, ConjunctionMeaning, ConjunctionFits, WellFormedConjunction, Postfix;
    MoreAnds(Last(d), pre, o, |Waiting(d)|);
  }

  lemma {:induction false} ExtendOrs(d: Disjunction, pre: nat, o: Operand, out: seq<Node>)
    ensures var d' := Ors(d, pre, One(o));
            && DisjunctionText(d') == DisjunctionText(d) + (Spaces(pre) + "|") + OperandText(o)
            && out + Postfix(DisjunctionMeaning(d)) + Postfix(OperandMeaning(o)) == out + Emitted(d')
            && (WellFormedDisjunction(d) && WellFormedOperand(o) ==> WellFormedDisjunction(d'))
            && (DisjunctionFits(d) && OperandFits(o, 1) ==> DisjunctionFits(d'))
  {
    hide ConjunctionText, ConjunctionMeaning, ConjunctionFits, WellFormedConjunction, Postfix;
    OneOperand(o, 1);
  }

  /** The level starting at `start` has read `sofar` and stands after it at `pos`. */
  predicate HasRead(buf: string, start: nat, pos: nat, count: int, out: seq<Node>, sofar: Disjunction) {
    && IsCString(buf) && count >= 0 && pos == start + |DisjunctionText(sofar)|
    && TextAt(buf, start, DisjunctionText(sofar)) && pos <= |buf|
    && WellFormedDisjunction(sofar) && DisjunctionFits(sofar)
    && MakePol(buf, pos, WaitOperator, count, Waiting(sofar), out + Emitted(sofar)).Compiled?
  }

  /** The outcome r is that of a level consisting of d and trailing spaces. */
  predicate LevelReads(buf: string, start: nat, count: int, out: seq<Node>, d: Disjunction, post: nat, r: Outcome) {
    && TextAt(buf, start, DisjunctionText(d) + Spaces(post)) && WellFormedDisjunction(d) && DisjunctionFits(d)
    && LevelEnds(buf, start + |DisjunctionText(d)| + post, count)
    && r == LevelEnd(start + |DisjunctionText(d)| + post, count, out + Postfix(DisjunctionMeaning(d)))
  }

  /** Given a disjunction already read, the level goes on to a longer one and ends after it. */
  lemma {:induction false} SoundTail(buf: string, start: nat, pos: nat, count: int, out: seq<Node>, sofar: Disjunction)
    returns (d: Disjunction, post: nat)
    requires HasRead(buf, start, pos, count, out, sofar)
    ensures LevelReads(buf, start, count, out, d, post,
                       MakePol(buf, pos, WaitOperator, count, Waiting(sofar), out + Emitted(sofar)))
    decreases |buf| - pos, 0
  {
    hide MakePol, PopTight, NextToken, TextAt, LevelEnds, LevelReads, LevelEnd;
    MakePolRound(buf, pos, WaitOperator, count, Waiting(sofar), out + Emitted(sofar));
    var pre := FoundWaitingOperator(buf, pos, count);
    var token := NextToken(buf, pos, WaitOperator, count).token;
    if token == Opr('&') {
      d, post := SoundAnd(buf, start, pos, count, out, sofar, pre);
    } else if token == Opr('|') {
      d, post := SoundOr(buf, start, pos, count, out, sofar, pre);
    } else {
      d, post := sofar, pre;
      SoundEnd(buf, start, pos, count, out, sofar, pre);
    }
  }

  lemma {:induction false} SoundEnd(buf: string, start: nat, pos: nat, count: int, out: seq<Node>, sofar: Disjunction, post: nat)
    requires HasRead(buf, start, pos, count, out, sofar)
    requires TextAt(buf, pos, Spaces(post)) && LevelEnds(buf, pos + post, count)
    ensures LevelReads(buf, start, count, out, sofar, post,
                       MakePol(buf, pos, WaitOperator, count, Waiting(sofar), out + Emitted(sofar)))
  {
    hide MakePol, PopAll, TextAt, LevelEnds;
    ScanLevelEnd(buf, pos, count, post, Waiting(sofar), out + Emitted(sofar));
    EmittedClosed(sofar, out);
    TextAtSplit(buf, start, DisjunctionText(sofar), Spaces(post));
  }

  lemma {:induction false} SoundAnd(buf: string, start: nat, pos: nat, count: int, out: seq<Node>, sofar: Disjunction, pre: nat)
    returns (d: Disjunction, post: nat)
    requires HasRead(buf, start, pos, count, out, sofar) && TextAt(buf, pos, Spaces(pre) + "&")
    ensures LevelReads(buf, start, count, out, d, post,
                       MakePol(buf, pos, WaitOperator, count, Waiting(sofar), out + Emitted(sofar)))
    decreases |buf| - pos - 1, 1
  {
    hide MakePol, PopTight, TextAt, LevelReads;
    var stack, out' := Waiting(sofar), out + Emitted(sofar);
    assert pos + pre + 1 <= |buf| by { TextAtFits(buf, pos, Spaces(pre) + "&"); }
    AndRound(buf, pos, count, stack, out', pre);
    var o := SoundOperand(buf, pos + pre + 1, count, stack + ['&'], out');
    var more := WithLast(sofar, Ands(Last(sofar), pre, o));
    ExtendLast(sofar, pre, o, out);
    PopTightTop(stack, '&', out' + Postfix(OperandMeaning(o)));
    PopTightLoose(stack, out + Emitted(more));
    TextAtSplit3(buf, start, DisjunctionText(sofar), Spaces(pre) + "&", OperandText(o));
    d, post := SoundTail(buf, start, pos + pre + 1 + |OperandText(o)|, count, out, more);
  }

  lemma {:induction false} TextAtFits(buf: string, pos: nat, text: string)
    requires TextAt(buf, pos, text)
    ensures pos + |text| <= |buf|
  {
  }

  lemma {:induction false} SoundOr(buf: string, start: nat, pos: nat, count: int, out: seq<Node>, sofar: Disjunction, pre: nat)
    returns (d: Disjunction, post: nat)
    requires HasRead(buf, start, pos, count, out, sofar) && TextAt(buf, pos, Spaces(pre) + "|")
    ensures LevelReads(buf, start, count, out, d, post,
                       MakePol(buf, pos, WaitOperator, count, Waiting(sofar), out + Emitted(sofar)))
    decreases |buf| - pos - 1, 1
  {
    hide MakePol, PopTight, TextAt, LevelReads;
    var out' := out + Postfix(DisjunctionMeaning(sofar));
    assert pos + pre + 1 <= |buf| by { TextAtFits(buf, pos, Spaces(pre) + "|"); }
    OrRound(buf, pos, count, out, sofar, pre);
    var o := SoundOperand(buf, pos + pre + 1, count, ['|'], out');
    var more := Ors(sofar, pre, One(o));
    ExtendOrs(sofar, pre, o, out);
    PopTightLoose(['|'], out + Emitted(more));
    TextAtSplit3(buf, start, DisjunctionText(sofar), Spaces(pre) + "|", OperandText(o));
    d, post := SoundTail(buf, start, pos + pre + 1 + |OperandText(o)|, count, out, more);
  }

  lemma {:induction false} SoundLevel(buf: string, pos: nat, count: int, out: seq<Node>) returns (d: Disjunction, post: nat)
    requires IsCString(buf) && pos <= |buf| && count >= 0
    requires MakePol(buf, pos, WaitOperand, count, [], out).Compiled?
    ensures LevelReads(buf, pos, count, out, d, post, MakePol(buf, pos, WaitOperand, count, [], out))
    decreases |buf| - pos, 1
  {
    hide MakePol, PopTight, TextAt, LevelReads;
    var o := SoundOperand(buf, pos, count, [], out);
    PopTightLoose([], out + Postfix(OperandMeaning(o)));
    OneOperand(o, 0);
    d, post := SoundTail(buf, pos, pos + |OperandText(o)|, count, out, Just(One(o)));
  }

  /** Whatever compiles is the text of a well-formed query, and its output is the postfix of the meaning. */
  lemma {:induction false} CompileSound(buf: string) returns (q: Query)
    requires IsCString(buf) && Compile(buf).Compiled?
    ensures WellFormedDisjunction(q.body) && DisjunctionFits(q.body) && QueryText(q) == buf
    ensures Compile(buf).out == Postfix(DisjunctionMeaning(q.body))
  {
    var d, post := SoundLevel(buf, 0, 0, []);
    q := Query(d, post);
    assert buf[0..|buf|] == buf;
    assert [] + Postfix(DisjunctionMeaning(d)) == Postfix(DisjunctionMeaning(d));
  }

  /** The compiler accepts exactly the texts of well-formed queries that fit its operator stack. */
  lemma {:induction false} CompileAcceptsExactly(buf: string)
    requires IsCString(buf)
    ensures Compile(buf).Compiled? <==>
            exists q: Query :: WellFormedDisjunction(q.body) && DisjunctionFits(q.body) && QueryText(q) == buf
  {
    if Compile(buf).Compiled? {
      var q := CompileSound(buf);
    }
    forall q: Query | WellFormedDisjunction(q.body) && DisjunctionFits(q.body) && QueryText(q) == buf
      ensures Compile(buf).Compiled?
    {
      CompileComplete(q);
    }
  }
}
