/**
 What the exit-code filter's rule means: why just these bytes are held back, and which number is reported for a
 code written in decimal.
*/
module ExitCodeLaws {
  import opened Common
  import opened ExitCodeFilter

  // ---------- what is held back ----------

  /** Nothing passed on could have been part of an exit code, whatever is written later. */
  lemma PassedOnIsSafe(t: seq<byte>, more: seq<byte>, p: seq<byte>, ds: seq<byte>)
    requires EndsInCode(t + more, p, ds)
    ensures |t| - |Tail(t)| <= |p|
  {
    var all, k := t + more, |p|;
    if k < |t| {
      assert all == p + (EXIT_STR + ds);
      assert all[k..] == EXIT_STR + ds == t[k..] + more;
      assert (EXIT_STR + ds)[..EXIT_LEN] == EXIT_STR;
      assert Matches(EXIT_STR + ds);
      PrefixMatches(t[k..], more);
      assert Start(t) <= k;
    }
  }

  /** What is held back can still become one: some continuation makes it a code that begins just there. */
  lemma HeldIsNeeded(t: seq<byte>) returns (more: seq<byte>, ds: seq<byte>)
    requires Tail(t) != []
    ensures EndsInCode(t + more, t[..|t| - |Tail(t)|], ds)
  {
    var w, at := Tail(t), Start(t);
    if |w| <= EXIT_LEN {
      more, ds := EXIT_STR[|w|..] + [48], [48];
      assert w + EXIT_STR[|w|..] == EXIT_STR;
      assert w + more == EXIT_STR + ds;
    } else {
      more, ds := [48], w[EXIT_LEN..] + [48];
      assert w == EXIT_STR + w[EXIT_LEN..];
      assert w + more == EXIT_STR + ds;
    }
    assert t == t[..at] + w;
    Regroup(t[..at], w, more);
    Regroup(t[..at], EXIT_STR, ds);
  }

  // ---------- the number ----------

  /** A number in decimal, without leading zeros. */
  function Decimal(n: nat): (r: seq<byte>)
    ensures r != [] && forall i :: 0 <= i < |r| ==> Digit(r[i])
  {
    if n < 10 then [48 + n] else Decimal(n / 10) + [48 + n % 10]
  }

  lemma {:induction false} DecimalNumber(n: nat)
    ensures Number(Decimal(n)) == n
  {
    var ds := Decimal(n);
    if n < 10 {
      assert ds[..0] == [];
      assert Number([]) == 0;
    } else {
      DecimalNumber(n / 10);
      assert ds[..|ds| - 1] == Decimal(n / 10);
    }
  }

  /**
   A program's output `p` followed by exitcode= and the number: the number is reported and nothing but `p` passed on.
   A number beyond the int range is an error, and then everything is passed on.
  */
  lemma CodeReported(p: seq<byte>, n: nat)
    ensures var t := p + EXIT_STR + Decimal(n);
      && Report(t) == (if n <= MAX_INT then Code(n) else BadExitCode)
      && Output(t) == if n <= MAX_INT then p else t
  {
    hide Tail, Number, Decimal;
    var t := p + EXIT_STR + Decimal(n);
    ExitCodeHeld(p, Decimal(n));
    DecimalNumber(n);
    assert (EXIT_STR + Decimal(n))[EXIT_LEN..] == Decimal(n);
    assert t == p + (EXIT_STR + Decimal(n));
    assert t[..|t| - |Tail(t)|] == p;
  }

  /** Without a code at the end, that is what is reported, and all of the text is passed on. */
  lemma NoCodeIff(t: seq<byte>)
    ensures Report(t) == NoExitCode <==> !exists p, ds :: EndsInCode(t, p, ds)
    ensures Report(t) == NoExitCode ==> Output(t) == t
  {
    ExitCodeIff(t);
  }
}
