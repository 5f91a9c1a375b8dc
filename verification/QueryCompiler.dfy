/** bqarr_in of contrib/intarray/_int_bool.c: the parser's working state, and the item array with
    back links that the evaluator reads. */
module QueryCompiler {
  import opened Alloc
  import opened QuerySyntax
  import opened P = QueryParser

  /** The list that pushquery builds, newest node first. */
  datatype NodeList = Nil | Push(node: Node, next: NodeList)

  function Pushed(list: NodeList): seq<Node> {
    match list
    case Nil => []
    case Push(node, next) => Pushed(next) + [node]
  }

  datatype Status = Done | SyntaxFailure | ComplexityFailure

  // ---------------------------------------------------------------- the tokenizer's function, case by case

  lemma {:induction false} TokenAfterSpace(buf: string, pos: nat, state: Wait, count: int)
    requires pos < |buf| && buf[pos] == ' '
    ensures NextToken(buf, pos, state, count) == NextToken(buf, pos + 1, state, count)
  {
    hide Strtol, InInt32;
  }

  lemma {:induction false} NoNumber(buf: string, pos: nat, count: int)
    requires pos <= |buf|
    ensures var ch, scan := At(buf, pos), NextToken(buf, pos, WaitOperand, count);
            && (ch == '!' ==> scan == Scan(Opr('!'), pos + 1, WaitOperand, count))
            && (ch == '(' ==> scan == Scan(Open, pos + 1, WaitOperand, count + 1))
            && (!IsDigit(ch) && ch != '-' && ch != '!' && ch != '(' && ch != ' ' ==> scan.token == Err)
    ensures !IsDigit('\0') && !IsDigit('!') && !IsDigit('(') && !IsDigit(' ')
  {
    hide Strtol, InInt32;
  }

  lemma {:induction false} NumberToken(buf: string, pos: nat, count: int)
    requires pos < |buf| && (IsDigit(buf[pos]) || buf[pos] == '-')
    ensures var e := SkipDigits(buf, pos + 1);
            NextToken(buf, pos, WaitOperand, count) ==
            if e - pos >= NUMBER_BUFFER || !InInt32(Strtol(buf[pos..e])) || (count != 0 && At(buf, e) == '\0')
            then Scan(Err, pos, WaitOperand, count)
            else Scan(Val(Strtol(buf[pos..e])), e, WaitOperator, count)
  {
    hide Strtol, InInt32;
  }

  lemma {:induction false} DigitsFrom(buf: string, pos: nat)
    requires pos <= |buf|
    ensures SkipDigits(buf, pos) == if IsDigit(At(buf, pos)) then SkipDigits(buf, pos + 1) else pos
    ensures IsDigit(At(buf, pos)) ==> pos < |buf|
  {
  }

  class WorkState {
    const buf: string
    var pos: nat
    var state: Wait
    var count: int
    var str: NodeList
    var num: nat

    constructor (text: string)
      ensures buf == text && pos == 0 && state == WaitOperand && count == 0 && str == Nil && num == 0
    {
      buf, pos, state, count, str, num := text, 0, WaitOperand, 0, Nil, 0;
    }

    ghost predicate Valid()
      reads this
    {
      IsCString(buf) && pos <= |buf| && state != WaitEndOperand && num == |Pushed(str)|
    }

    /** The token at the pointer where an operator is due. */
    method AfterOperand() returns (token: Token)
      requires pos <= |buf| && state == WaitOperator && At(buf, pos) != ' '
      modifies this`pos, this`state, this`count
      ensures pos <= |buf|
      ensures var scan := NextToken(buf, old(pos), WaitOperator, old(count));
              token == scan.token && (!token.Err? ==> pos == scan.pos && state == scan.state && count == scan.count)
    {
      var ch := At(buf, pos);
      if ch == '&' || ch == '|' {
        state, pos := WaitOperand, pos + 1;
        return Opr(ch);
      } else if ch == ')' {
        pos, count := pos + 1, count - 1;
        return if count < 0 then Err else Close;
      } else if ch == '\0' {
        return if count != 0 then Err else End;
      }
      return Err;
    }

    /** The token at the pointer where an operand is due, if it is no number. */
    method BeforeOperand() returns (token: Token)
      requires pos <= |buf| && state == WaitOperand
      requires var ch := At(buf, pos); !IsDigit(ch) && ch != '-' && ch != ' '
      modifies this`pos, this`count
      ensures pos <= |buf|
      ensures var scan := NextToken(buf, old(pos), WaitOperand, old(count));
              token == scan.token && (!token.Err? ==> pos == scan.pos && state == scan.state && count == scan.count)
    {
      hide NextToken;
      NoNumber(buf, pos, count);
      var ch := At(buf, pos);
      if ch == '!' {
        pos := pos + 1;
        return Opr('!');
      } else if ch == '(' {
        count, pos := count + 1, pos + 1;
        return Open;
      }
      return Err;
    }

    /** The number from p to the pointer, past its last digit. */
    method AfterNumber(nnn: string, ghost p: nat) returns (token: Token)
      requires p < pos <= |buf| && nnn == buf[p..pos] && |nnn| < NUMBER_BUFFER && (IsDigit(buf[p]) || buf[p] == '-')
      requires SkipDigits(buf, p + 1) == SkipDigits(buf, pos) && !IsDigit(At(buf, pos))
      modifies this`state
      ensures var scan := NextToken(buf, p, WaitOperand, count);
              token == scan.token && (!token.Err? ==> pos == scan.pos && state == scan.state && count == scan.count)
    {
      hide Strtol, InInt32, NextToken;
      NumberToken(buf, p, count);
      var val := Strtol(nnn);
      if !InInt32(val) { return Err; }
      state := WaitOperator;
      return if count != 0 && At(buf, pos) == '\0' then Err else Val(val);
    }

    /** The characters from p to the pointer begin a number that starts the token scan. */
    ghost predicate InNumber(p: nat, nnn: string, scan: Scan)
      reads this
    {
      && p < pos <= |buf| && nnn == buf[p..pos] && (IsDigit(buf[p]) || buf[p] == '-')
      && SkipDigits(buf, p + 1) == SkipDigits(buf, pos) && NextToken(buf, p, WaitOperand, count) == scan
    }

    lemma {:induction false} TooLongNumber(p: nat, nnn: string, scan: Scan)
      requires InNumber(p, nnn, scan) && |nnn| >= NUMBER_BUFFER
      ensures scan.token == Err
    {
      NumberToken(buf, p, count);
    }

    method GetToken() returns (token: Token)
      requires Valid()
      modifies this`pos, this`state, this`count
      ensures pos <= |buf|
      ensures var scan := NextToken(buf, old(pos), old(state), old(count));
              token == scan.token && (!token.Err? ==> pos == scan.pos && state == scan.state && count == scan.count)
    {
      hide NextToken, SkipDigits, IsDigit;
      var nnn := "";
      ghost var p: nat, scan := pos, NextToken(buf, pos, state, count);
      while true
        invariant pos <= |buf| && count == old(count)
        invariant state == old(state) || (old(state) == WaitOperand && state == WaitEndOperand)
        invariant state == old(state) ==> nnn == "" && NextToken(buf, pos, state, count) == scan
        invariant state == WaitEndOperand ==> InNumber(p, nnn, scan)
        decreases |buf| - pos
      {
        if |nnn| >= NUMBER_BUFFER {
          TooLongNumber(p, nnn, scan);
          return Err;
        }
        var ch := At(buf, pos);
        DigitsFrom(buf, pos);
        match state {
          case WaitOperand =>
            nnn := "";
            if IsDigit(ch) || ch == '-' {
              p := pos;
              state := WaitEndOperand;
              nnn := nnn + [ch];
            } else if ch != ' ' {
              token := BeforeOperand();
              return;
            } else {
              TokenAfterSpace(buf, pos, state, count);
            }
          case WaitEndOperand =>
            if IsDigit(ch) {
              assert buf[p..pos + 1] == nnn + [ch];
              nnn := nnn + [ch];
            } else {
              token := AfterNumber(nnn, p);
              return;
            }
          case WaitOperator =>
            if ch != ' ' {
              token := AfterOperand();
              return;
            }
            TokenAfterSpace(buf, pos, state, count);
        }
        pos := pos + 1;
      }
    }

    method PushQuery(node: Node)
      requires num == |Pushed(str)|
      modifies this`str, this`num
      ensures Pushed(str) == old(Pushed(str)) + [node] && num == |Pushed(str)|
    {
      str := Push(node, str);
      num := num + 1;
    }

    method PopTightOperators(stack: array<char>, lenstack: nat) returns (left: nat)
      requires lenstack <= stack.Length && num == |Pushed(str)|
      modifies this`str, this`num
      ensures left <= lenstack && num == |Pushed(str)|
      ensures (stack[..left], Pushed(str)) == PopTight(stack[..lenstack], old(Pushed(str)))
    {
      left := lenstack;
      while left > 0 && (stack[left - 1] == '&' || stack[left - 1] == '!')
        invariant left <= lenstack && num == |Pushed(str)|
        invariant PopTight(stack[..left], Pushed(str)) == PopTight(stack[..lenstack], old(Pushed(str)))
      {
        left := left - 1;
        assert stack[..left + 1][..left] == stack[..left];
        PushQuery(Operator(stack[left]));
      }
    }

    method PopAllOperators(stack: array<char>, lenstack: nat)
      requires lenstack <= stack.Length && num == |Pushed(str)|
      modifies this`str, this`num
      ensures num == |Pushed(str)| && Pushed(str) == PopAll(stack[..lenstack], old(Pushed(str)))
    {
      var left := lenstack;
      while left > 0
        invariant 0 <= left <= lenstack && num == |Pushed(str)|
        invariant PopAll(stack[..left], Pushed(str)) == PopAll(stack[..lenstack], old(Pushed(str)))
      {
        left := left - 1;
        assert stack[..left + 1][..left] == stack[..left];
        PushQuery(Operator(stack[left]));
      }
    }

    /** What the specification makes of the present state and the operators on the stack. */
    ghost function Outlook(stack: seq<char>): Outcome
      reads this
      requires Valid()
    {
      MakePol(buf, pos, state, count, stack, Pushed(str))
    }

    method MakePolish() returns (r: Status)
      requires Valid()
      modifies this
      ensures r == Done ==> Valid()
      ensures var outlook := old(Outlook([]));
              && (r == SyntaxFailure <==> outlook.SyntaxError?)
              && (r == ComplexityFailure <==> outlook.TooComplex?)
              && (r == Done ==> outlook == Compiled(pos, state, count, Pushed(str)))
      decreases |buf| - pos
    {
      hide MakePol, NextToken, PopTight, PopAll;
      var stack := new char[STACKDEPTH];
      var lenstack := 0;
      assert stack[..0] == [];
      while true
        invariant Valid() && 0 <= lenstack <= STACKDEPTH && old(pos) <= pos
        invariant Outlook(stack[..lenstack]) == old(Outlook([]))
        decreases |buf| - pos
      {
        MakePolRound(buf, pos, state, count, stack[..lenstack], Pushed(str));
        var token := GetToken();
        match token {
          case End =>
            PopAllOperators(stack, lenstack);
            return Done;
          case Close =>
            PopAllOperators(stack, lenstack);
            return Done;
          case Err =>
            return SyntaxFailure;
          case Val(v) =>
            PushQuery(Value(v));
            lenstack := PopTightOperators(stack, lenstack);
          case Opr(op) =>
            if lenstack > 0 && op == '|' {
              PushQuery(Operator(op));
            } else {
              if lenstack == STACKDEPTH { return ComplexityFailure; }
              stack[lenstack] := op;
              lenstack := lenstack + 1;
              assert stack[..lenstack] == stack[..lenstack - 1] + [op];
            }
          case Open =>
            var inner := MakePolish();
            if inner != Done { return inner; }
            lenstack := PopTightOperators(stack, lenstack);
        }
      }
    }
  }

  // ---------------------------------------------------------------- items and back links

  /** An item: a node, and for an operator the distance back to its left operand. */
  datatype Item = Item(node: Node, left: int)

  /** The value a 16-bit field keeps of an integer. */
  function Int2(x: int): (y: int)
    ensures -0x8000 <= y < 0x8000
    ensures -0x8000 <= x < 0x8000 <==> y == x
  {
    (x + 0x8000) % 0x1_0000 - 0x8000
  }

  function Items(f: Formula): (items: seq<Item>)
    ensures |items| == |Postfix(f)|
  {
    match f
    case Num(v) => [Item(Value(v), 0)]
    case Not(a) => Items(a) + [Item(Operator('!'), -1)]
    case And(l, r) => Items(l) + Items(r) + [Item(Operator('&'), Int2(-|Items(r)| - 1))]
    case Or(l, r) => Items(l) + Items(r) + [Item(Operator('|'), Int2(-|Items(r)| - 1))]
  }

  /** The items from `lo` on carry these nodes; their links are of no matter. */
  ghost predicate Carries(items: seq<Item>, lo: int, nodes: seq<Node>) {
    0 <= lo && lo + |nodes| <= |items| && forall k :: 0 <= k < |nodes| ==> items[lo + k].node == nodes[k]
  }

  lemma {:induction false} CarriesSplit(items: seq<Item>, lo: int, a: seq<Node>, b: seq<Node>)
    requires Carries(items, lo, a + b)
    ensures Carries(items, lo, a) && Carries(items, lo + |a|, b)
  {
    assert forall k :: 0 <= k < |a| ==> a[k] == (a + b)[k];
    assert forall k :: 0 <= k < |b| ==> b[k] == (a + b)[|a| + k];
  }

  /** Replaces the items that end at pos by as many others. */
  function Splice<T>(s: seq<T>, pos: int, part: seq<T>): seq<T>
    requires |part| - 1 <= pos < |s|
  {
    s[..pos + 1 - |part|] + part + s[pos + 1..]
  }

  /** From `before` to `after`, exactly the subquery that ends at pos got its links. */
  ghost predicate LinksFilled(before: seq<Item>, after: seq<Item>, pos: int, f: Formula) {
    |Items(f)| - 1 <= pos < |before| && after == Splice(before, pos, Items(f))
  }

  ghost predicate EndsWith(items: seq<Item>, pos: int, f: Formula) {
    -1 <= pos < |items| && Carries(items, pos + 1 - |Postfix(f)|, Postfix(f))
  }

  function OperatorOf(f: Formula): Node {
    match f case Num(v) => Value(v) case Not(_) => Operator('!') case And(_, _) => Operator('&') case Or(_, _) => Operator('|')
  }

  lemma {:induction false} LastNode(items: seq<Item>, pos: int, f: Formula)
    requires EndsWith(items, pos, f)
    ensures |Items(f)| - 1 <= pos < |items| && 0 <= pos && items[pos].node == OperatorOf(f)
    ensures f.Not? ==> EndsWith(items, pos - 1, f.arg)
  {
    hide Items;
    var lo := pos + 1 - |Postfix(f)|;
    assert items[lo + (|Postfix(f)| - 1)].node == Postfix(f)[|Postfix(f)| - 1];
    if f.Not? { CarriesSplit(items, lo, Postfix(f.arg), [Operator('!')]); }
  }

  lemma {:induction false} OperandNodes(items: seq<Item>, pos: int, f: Formula)
    requires EndsWith(items, pos, f) && (f.And? || f.Or?)
    ensures EndsWith(items, pos - 1, f.right) && EndsWith(items, pos - 1 - |Items(f.right)|, f.left)
  {
    hide Items, Carries;
    var lo := pos + 1 - |Postfix(f)|;
    CarriesSplit(items, lo, Postfix(f.left) + Postfix(f.right), [OperatorOf(f)]);
    CarriesSplit(items, lo, Postfix(f.left), Postfix(f.right));
  }

  lemma {:induction false} StillEndsWith(before: seq<Item>, after: seq<Item>, pos: int, f: Formula)
    requires EndsWith(before, pos, f) && |after| == |before| && after[..pos + 1] == before[..pos + 1]
    ensures EndsWith(after, pos, f)
  {
    assert forall k :: 0 <= k <= pos ==> after[k] == after[..pos + 1][k] == before[..pos + 1][k];
  }

  lemma {:induction false} SpliceJoined<T>(s: seq<T>, pos: int, l: seq<T>, r: seq<T>, x: T)
    requires |l| + |r| <= pos < |s|
    ensures Splice(Splice(s, pos - 1, r)[pos := x], pos - 1 - |r|, l) == Splice(s, pos, l + r + [x])
  {
    var mid, lo := pos - |r|, pos - |r| - |l|;
    var s1 := Splice(s, pos - 1, r)[pos := x];
    assert s1 == s[..mid] + r + [x] + s[pos + 1..];
    assert s1[..lo] == s[..lo] && s1[mid..] == r + [x] + s[pos + 1..];
  }

  lemma {:induction false} SpliceFirst<T>(s: seq<T>, pos: int, a: seq<T>, x: T)
    requires |a| <= pos < |s|
    ensures Splice(s[pos := x], pos - 1, a) == Splice(s, pos, a + [x])
  {
    assert s[pos := x][pos..] == [x] + s[pos + 1..];
  }

  /** findoprnd: fills in the back links of the subquery that ends at pos, and steps before it. */
  method FindOprnd(ptr: array<Item>, pos: int, ghost f: Formula) returns (next: int)
    requires EndsWith(ptr[..], pos, f)
    modifies ptr
    ensures next == pos - |Items(f)|
    ensures LinksFilled(old(ptr[..]), ptr[..], pos, f)
    decreases f
  {
    hide Postfix, Carries, EndsWith;
    ghost var s0 := ptr[..];
    LastNode(s0, pos, f);
    match ptr[pos].node {
      case Value(v) =>
        ptr[pos] := Item(ptr[pos].node, 0);
        next := pos - 1;
      case Operator(op) =>
        if op == '!' {
          ptr[pos] := Item(ptr[pos].node, -1);
          StillEndsWith(s0, ptr[..], pos - 1, f.arg);
          next := FindOprnd(ptr, pos - 1, f.arg);
          SpliceFirst(s0, pos, Items(f.arg), Item(Operator('!'), -1));
        } else {
          next := FindOprnds(ptr, pos, f);
        }
    }
  }

  /** The branch of findoprnd for `&` and `|`. */
  method FindOprnds(ptr: array<Item>, pos: int, ghost f: Formula) returns (next: int)
    requires (f.And? || f.Or?) && EndsWith(ptr[..], pos, f)
    modifies ptr
    ensures next == pos - |Items(f)|
    ensures LinksFilled(old(ptr[..]), ptr[..], pos, f)
    decreases f, 0
  {
    hide Postfix, Carries, EndsWith, Splice;
    ghost var s0 := ptr[..];
    LastNode(s0, pos, f);
    OperandNodes(s0, pos, f);
    var mid := FindOprnd(ptr, pos - 1, f.right);
    SpliceElsewhere(s0, pos - 1, Items(f.right));
    ptr[pos] := Item(ptr[pos].node, Int2(mid - pos));
    ghost var s2 := ptr[..];
    assert s2 == Splice(s0, pos - 1, Items(f.right))[pos := s2[pos]];
    StillEndsWith(s0, s2, mid, f.left);
    next := FindOprnd(ptr, mid, f.left);
    SpliceJoined(s0, pos, Items(f.left), Items(f.right), s2[pos]);
  }

  lemma {:induction false} SpliceElsewhere<T>(s: seq<T>, pos: int, part: seq<T>)
    requires |part| - 1 <= pos < |s|
    ensures |Splice(s, pos, part)| == |s|
    ensures forall k :: 0 <= k <= pos - |part| || pos < k < |s| ==> Splice(s, pos, part)[k] == s[k]
  {
  }

  datatype Result = Accepted(items: seq<Item>) | SyntaxErrorReported | TooComplexReported | SizeRefused | Overrun

  /** Copies the list, whose newest node comes first, into an array from its end to its start. */
  method CopyNodes(list: NodeList, num: nat) returns (ptr: array<Item>)
    requires num == |Pushed(list)|
    ensures fresh(ptr) && ptr.Length == num && Carries(ptr[..], 0, Pushed(list))
  {
    ptr := new Item[num](_ => Item(Value(0), 0));
    var i, str := num, list;
    ghost var nodes := Pushed(list);
    while i > 0
      invariant 0 <= i <= num && Pushed(str) == nodes[..i]
      invariant forall k :: i <= k < num ==> ptr[k].node == nodes[k]
    {
      i := i - 1;
      assert nodes[..i + 1][..i] == nodes[..i];
      ptr[i] := Item(str.node, 0);
      str := str.next;
    }
  }

  /** COMPUTESIZE: header and eight bytes for each item. */
  function ComputeSize(num: nat): nat {
    8 + 8 * num
  }

  /** A well-formed query with this text, whose meaning the compiler put out. */
  ghost predicate IsReading(buf: string, q: Query) {
    && WellFormedDisjunction(q.body) && QueryText(q) == buf
    && Compile(buf).Compiled? && Compile(buf).out == Postfix(DisjunctionMeaning(q.body))
  }

  /** bqarr_in. The report of an empty query cannot come up: whatever compiles has a node. A size over the allocation
      limit is refused or, if it wraps to a small one, leaves the items without room. */
  method BqarrIn(buf: string) returns (r: Result)
    requires IsCString(buf)
    ensures r.SyntaxErrorReported? <==> Compile(buf).SyntaxError?
    ensures r.TooComplexReported? <==> Compile(buf).TooComplex?
    ensures r.Accepted? <==> Compile(buf).Compiled? && ComputeSize(|Compile(buf).out|) <= MAX_ALLOC
    ensures r.SizeRefused? <==> Compile(buf).Compiled? && !Granted(Int32(ComputeSize(|Compile(buf).out|)))
    ensures r.Accepted? ==> exists q :: IsReading(buf, q) && r.items == Items(DisjunctionMeaning(q.body))
  {
    hide MakePol, Carries, Int32;
    var work := new WorkState(buf);
    var status := work.MakePolish();
    if status == SyntaxFailure { return SyntaxErrorReported; }
    if status == ComplexityFailure { return TooComplexReported; }
    ghost var q := CompileSound(buf);
    if work.num == 0 { assert false; }
    var commonlen := Int32(ComputeSize(work.num));
    if !Granted(commonlen) { return SizeRefused; }
    GrantedOrLess(ComputeSize(work.num));
    if commonlen < ComputeSize(work.num) { return Overrun; }
    var ptr := CopyNodes(work.str, work.num);
    var pos := FindOprnd(ptr, work.num - 1, DisjunctionMeaning(q.body));
    return Accepted(ptr[..]);
  }
}
