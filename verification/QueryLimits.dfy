/** The two limits of the compiler in contrib/intarray/_int_bool.c, as texts that just pass and just fail. */
module QueryLimits {
  import opened QuerySyntax
  import opened QueryParser

  function Copies(ch: char, n: nat): (s: string)
    ensures |s| == n && forall k :: 0 <= k < n ==> s[k] == ch
  {
    seq(n, _ => ch)
  }

  // ---------------------------------------------------------------- pending operators

  function Denied(n: nat): Operand {
    if n == 0 then Number(0, "1") else Negated(0, Denied(n - 1))
  }

  lemma {:induction false} DeniedFacts(n: nat, base: nat)
    ensures OperandText(Denied(n)) == Copies('!', n) + "1" && WellFormedOperand(Denied(n))
    ensures OperandFits(Denied(n), base) <==> n == 0 || base + n <= STACKDEPTH
    decreases n
  {
    if n == 0 {
      assert Copies('!', 0) + "1" == "1";
      assert Strtol("1") == 1 by { assert "1"[1..] == ""; assert ReadBase("1", 10, 0) == ReadBase("", 10, 1); }
      assert IsNumber("1");
    } else {
      DeniedFacts(n - 1, base + 1);
      assert Copies('!', n) == "!" + Copies('!', n - 1);
      assert Spaces(0) + "!" == "!";
    }
  }

  lemma {:induction false} SignAt(n: nat, k: nat)
    requires k < n
    ensures NextToken(Copies('!', n) + "1", k, WaitOperand, 0) == Scan(Opr('!'), k + 1, WaitOperand, 0)
  {
    assert At(Copies('!', n) + "1", k) == '!';
  }

  lemma {:induction false} TooManySigns(n: nat, k: nat)
    requires k <= 16 < n
    ensures MakePol(Copies('!', n) + "1", k, WaitOperand, 0, Copies('!', k), []) == TooComplex
    decreases 16 - k
  {
    hide NextToken;
    SignAt(n, k);
    if k < 16 {
      TooManySigns(n, k + 1);
      assert Copies('!', k) + ['!'] == Copies('!', k + 1);
    }
  }

  /** Sixteen operators may be pending, not seventeen. */
  lemma {:induction false} PendingOperators(n: nat)
    ensures n <= 16 ==> Compile(Copies('!', n) + "1").Compiled?
    ensures n > 16 ==> Compile(Copies('!', n) + "1") == TooComplex
  {
    hide MakePol;
    if n <= 16 {
      DeniedFacts(n, 0);
      var q := Query(Just(One(Denied(n))), 0);
      assert DisjunctionText(q.body) == OperandText(Denied(n)) && Spaces(0) == "";
      assert QueryText(q) == Copies('!', n) + "1";
      CompileComplete(q);
    } else {
      TooManySigns(n, 0);
      assert Copies('!', 0) == [];
    }
  }

  // ---------------------------------------------------------------- digits of a number

  lemma {:induction false} ZerosRead(n: nat)
    ensures ReadBase(Copies('0', n), 8, 0) == 0
    decreases n
  {
    if n > 0 {
      assert Copies('0', n)[1..] == Copies('0', n - 1);
      ZerosRead(n - 1);
    }
  }

  lemma {:induction false} ZerosSkipped(n: nat, pos: nat)
    requires pos <= n
    ensures SkipDigits(Copies('0', n), pos) == n
    decreases n - pos
  {
    if pos < n { ZerosSkipped(n, pos + 1); }
  }

  /** A number may have fifteen characters, not sixteen, and not none. */
  lemma {:induction false} NumberLength(n: nat)
    ensures 1 <= n <= 15 ==> Compile(Copies('0', n)).Compiled?
    ensures n == 0 || n > 15 ==> Compile(Copies('0', n)) == SyntaxError
  {
    var ds := Copies('0', n);
    if 1 <= n <= 15 {
      ZerosRead(n - 1);
      assert ds[1..] == Copies('0', n - 1);
      assert IsNumber(ds);
      var q := Query(Just(One(Number(0, ds))), 0);
      assert QueryText(q) == ds;
      hide MakePol;
      CompileComplete(q);
    } else if n > 15 {
      ZerosSkipped(n, 1);
      assert NextToken(ds, 0, WaitOperand, 0).token == Err;
    } else {
      assert NextToken(ds, 0, WaitOperand, 0).token == Err;
    }
  }
}
