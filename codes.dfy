/** Activation code values: exactly four ASCII decimal digits, so there are
    ten thousand of them. */
module Codes {

  predicate IsDigit(ch: char)
  {
    '0' <= ch <= '9'
  }

  /** A well-formed activation code: four decimal digits. */
  predicate IsCode(s: string)
  {
    |s| == 4 && forall i :: 0 <= i < 4 ==> IsDigit(s[i])
  }

  /** The number of distinct activation codes. */
  const CodeSpace: nat := 10000

  function DigitChar(d: nat): (ch: char)
    requires d < 10
    ensures IsDigit(ch)
  {
    ('0' as int + d) as char
  }

  function DigitValue(ch: char): (d: nat)
    requires IsDigit(ch)
    ensures d < 10 && DigitChar(d) == ch
  {
    ch as int - '0' as int
  }

  /** Ten to the power `k`. */
  function Pow10(k: nat): (p: nat)
    ensures p >= 1
  {
    if k == 0 then 1 else 10 * Pow10(k - 1)
  }

  /** The `k` decimal digits that spell `n`, with leading zeros. */
  function Spell(n: nat, k: nat): (s: string)
    ensures |s| == k
    ensures forall i :: 0 <= i < k ==> IsDigit(s[i])
  {
    if k == 0 then [] else Spell(n / 10, k - 1) + [DigitChar(n % 10)]
  }

  /** The number a string of digits spells. */
  function Read(s: string): nat
    requires forall i :: 0 <= i < |s| ==> IsDigit(s[i])
  {
    if s == [] then 0 else 10 * Read(s[..|s| - 1]) + DigitValue(s[|s| - 1])
  }

  lemma {:induction false} ReadBound(s: string)
    requires forall i :: 0 <= i < |s| ==> IsDigit(s[i])
    ensures Read(s) < Pow10(|s|)
  {
    if s != [] {
      ReadBound(s[..|s| - 1]);
    }
  }

  lemma {:induction false} ReadSpell(n: nat, k: nat)
    requires n < Pow10(k)
    ensures Read(Spell(n, k)) == n
  {
    if k > 0 {
      var q, d := n / 10, n % 10;
      assert n == 10 * q + d;
      assert q < Pow10(k - 1);
      ReadSpell(q, k - 1);
      var s := Spell(n, k);
      assert s == Spell(q, k - 1) + [DigitChar(d)];
      assert s[..k - 1] == Spell(q, k - 1);
      assert DigitValue(s[k - 1]) == d;
    }
  }

  lemma {:induction false} SpellRead(s: string)
    requires forall i :: 0 <= i < |s| ==> IsDigit(s[i])
    ensures Spell(Read(s), |s|) == s
  {
    if s != [] {
      var init, d := s[..|s| - 1], DigitValue(s[|s| - 1]);
      SpellRead(init);
      var n := Read(s);
      assert n == 10 * Read(init) + d;
      assert n / 10 == Read(init) && n % 10 == d;
      assert s == init + [s[|s| - 1]];
    }
  }

  /** The code that spells `n` with leading zeros. */
  function CodeOf(n: nat): (s: string)
    requires n < CodeSpace
    ensures IsCode(s)
  {
    Spell(n, 4)
  }

  /** The number a code spells. */
  function ValueOf(s: string): (n: nat)
    requires IsCode(s)
    ensures n < CodeSpace
  {
    ReadBound(s);
    Read(s)
  }

  /** Reading a spelled number gives the number back. */
  lemma ValueOfCodeOf(n: nat)
    requires n < CodeSpace
    ensures ValueOf(CodeOf(n)) == n
  {
    ReadSpell(n, 4);
  }

  /** Spelling the number a code reads as gives the code back. */
  lemma CodeOfValueOf(s: string)
    requires IsCode(s)
    ensures CodeOf(ValueOf(s)) == s
  {
    SpellRead(s);
  }

  /** The codes that spell the numbers below `k`. */
  ghost function CodesBelow(k: nat): set<string>
    requires k <= CodeSpace
  {
    if k == 0 then {} else CodesBelow(k - 1) + {CodeOf(k - 1)}
  }

  lemma {:induction false} CodesBelowMembers(k: nat)
    requires k <= CodeSpace
    ensures forall n :: 0 <= n < k ==> CodeOf(n) in CodesBelow(k)
    ensures forall s :: s in CodesBelow(k) ==> IsCode(s) && ValueOf(s) < k
  {
    if k > 0 {
      var prev := CodesBelow(k - 1);
      CodesBelowMembers(k - 1);
      ValueOfCodeOf(k - 1);
      forall n | 0 <= n < k
        ensures CodeOf(n) in CodesBelow(k)
      {
        if n < k - 1 {
          assert CodeOf(n) in prev;
        }
      }
      forall s | s in CodesBelow(k)
        ensures IsCode(s) && ValueOf(s) < k
      {
        if s !in prev {
          assert s == CodeOf(k - 1);
        }
      }
    }
  }

  lemma {:induction false} CodesBelowSize(k: nat)
    requires k <= CodeSpace
    ensures |CodesBelow(k)| == k
  {
    if k > 0 {
      CodesBelowSize(k - 1);
      CodeOfNotBelow(k - 1);
    }
  }

  lemma CodeOfNotBelow(k: nat)
    requires k < CodeSpace
    ensures CodeOf(k) !in CodesBelow(k)
  {
    CodesBelowMembers(k);
    ValueOfCodeOf(k);
  }

  /** Every code, and nothing else. */
  ghost function AllCodes(): (all: set<string>)
    ensures |all| == CodeSpace
    ensures forall s :: s in all <==> IsCode(s)
  {
    CodesBelowMembers(CodeSpace);
    CodesBelowSize(CodeSpace);
    forall s | IsCode(s)
      ensures s in CodesBelow(CodeSpace)
    {
      CodeOfValueOf(s);
    }
    CodesBelow(CodeSpace)
  }

  /** A set of codes leaves a code free exactly when it holds fewer than ten
      thousand of them: a generator that redraws until it hits a free code
      can only stop while fewer than ten thousand codes are taken. */
  lemma FreeCodeExistsIff(taken: set<string>)
    requires forall s :: s in taken ==> IsCode(s)
    ensures (exists s :: IsCode(s) && s !in taken) <==> |taken| < CodeSpace
  {
    var all := AllCodes();
    assert taken <= all;
    if |taken| < CodeSpace {
      assert |all - taken| == |all| - |taken| > 0;
      var s :| s in all - taken;
      assert IsCode(s) && s !in taken;
    } else {
      assert |all - taken| == |all| - |taken| <= 0;
      assert all - taken == {};
      forall s | IsCode(s)
        ensures s in taken
      {
        assert s in all;
      }
    }
  }
}
