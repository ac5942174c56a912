/** The base-A codec of the referral service: a number is written as a
    fixed-length string over the alphabet, least significant digit first,
    and read back by scanning from the last character to the first. */
module Codec {
  import opened NumberTheory

  /** No character occurs twice in the alphabet. */
  predicate Distinct(chars: string)
  {
    |chars| == 0 || (chars[0] !in chars[1..] && Distinct(chars[1..]))
  }

  /** Every character of code belongs to the alphabet. */
  predicate OverAlphabet(chars: string, code: string)
  {
    forall i :: 0 <= i < |code| ==> code[i] in chars
  }

  /** Position of the first occurrence of c in chars, or -1 when c does not
      occur (the contract of String.prototype.indexOf). */
  function IndexOf(chars: string, c: char): (r: int)
    ensures -1 <= r < |chars|
    ensures r == -1 <==> c !in chars
    ensures r >= 0 ==> chars[r] == c
  {
    if chars == [] then -1
    else if chars[0] == c then 0
    else
      var k := IndexOf(chars[1..], c);
      if k == -1 then -1 else k + 1
  }

  /** indexOf finds the first occurrence: c does not occur before it. */
  lemma {:induction false} IndexOfFirst(chars: string, c: char, j: nat)
    requires j < IndexOf(chars, c)
    ensures chars[j] != c
  {
    if j > 0 {
      IndexOfFirst(chars[1..], c, j - 1);
    }
  }

  /** In an alphabet without repeats, indexOf finds each character at its own position. */
  lemma {:induction false} IndexOfDistinct(chars: string, i: nat)
    requires Distinct(chars) && i < |chars|
    ensures IndexOf(chars, chars[i]) == i
  {
    if i > 0 {
      assert chars[1..][i - 1] == chars[i];
      IndexOfDistinct(chars[1..], i - 1);
    }
  }

  /** Digit i of d in base `base`, least significant first. */
  function Digit(base: nat, d: nat, i: nat): nat
    requires base >= 1
  {
    (d / Pow(base, i)) % base
  }

  /** d / a by repeated subtraction. Equal to d / a (QuotRem); written this
      way so that unfolding it never brings nonlinear arithmetic into a proof. */
  function Quot(d: nat, a: nat): nat
    requires a >= 1
    decreases d
  {
    if d < a then 0 else 1 + Quot(d - a, a)
  }

  /** d % a by repeated subtraction; see Quot. */
  function Rem(d: nat, a: nat): (r: nat)
    requires a >= 1
    ensures r < a
    decreases d
  {
    if d < a then d else Rem(d - a, a)
  }

  lemma {:induction false} QuotRem(d: nat, a: nat)
    requires a >= 1
    ensures Quot(d, a) == d / a && Rem(d, a) == d % a
    decreases d
  {
    if d < a {
      DivModUnique(d, a, 0, d);
    } else {
      QuotRem(d - a, a);
      DivModUnique(d - a, a, (d - a) / a, (d - a) % a);
      DivModUnique(d, a, (d - a) / a + 1, (d - a) % a);
    }
  }

  /** The L-character code of d. Digits of d above position L are not
      represented, so d is in effect reduced modulo A^L. */
  function Encoding(chars: string, L: nat, d: nat): (code: string)
    requires |chars| >= 1
    ensures |code| == L
  {
    if L == 0 then [] else [chars[Rem(d, |chars|)]] + Encoding(chars, L - 1, Quot(d, |chars|))
  }

  /** Every character of an encoding is taken from the alphabet. */
  lemma {:induction false} EncodingOverAlphabet(chars: string, L: nat, d: nat)
    requires |chars| >= 1
    ensures OverAlphabet(chars, Encoding(chars, L, d))
  {
    if L > 0 {
      EncodingOverAlphabet(chars, L - 1, Quot(d, |chars|));
    }
  }

  /** The first character of an encoding is the low digit; the rest encodes
      the remaining digits. */
  lemma EncodingStep(chars: string, L: nat, d: nat)
    requires |chars| >= 1 && L >= 1
    ensures Encoding(chars, L, d) == [chars[d % |chars|]] + Encoding(chars, L - 1, d / |chars|)
  {
    QuotRem(d, |chars|);
  }

  /** Writing the low digit of d after a prefix and then the encoding of
      the remaining digits is writing the encoding of d after it. */
  lemma EncodingAppend(chars: string, prefix: string, L: nat, i: nat, d: nat)
    requires |chars| >= 1 && i < L
    ensures (prefix + [chars[d % |chars|]]) + Encoding(chars, L - (i + 1), d / |chars|)
            == prefix + Encoding(chars, L - i, d)
  {
    EncodingStep(chars, L - i, d);
    assert (prefix + [chars[d % |chars|]]) + Encoding(chars, L - (i + 1), d / |chars|)
        == prefix + ([chars[d % |chars|]] + Encoding(chars, L - (i + 1), d / |chars|));
  }

  /** The number a code stands for: character i contributes its alphabet
      index times A^i. A character outside the alphabet contributes -1. */
  function Value(chars: string, code: string): int
  {
    if code == [] then 0 else IndexOf(chars, code[0]) + |chars| * Value(chars, code[1..])
  }

  /** Reading from the back, each character multiplies what was read so far
      by A and adds its own index. */
  lemma ValueOfSuffix(chars: string, code: string, i: nat)
    requires i < |code|
    ensures Value(chars, code[i..]) == IndexOf(chars, code[i]) + |chars| * Value(chars, code[i + 1..])
  {
    assert code[i..][1..] == code[i + 1..];
  }

  /** Character i of the code is digit i of d, least significant first. */
  lemma {:induction false} EncodingDigits(chars: string, L: nat, d: nat, i: nat)
    requires |chars| >= 1 && i < L
    ensures Encoding(chars, L, d)[i] == chars[Digit(|chars|, d, i)]
    decreases L
  {
    var a := |chars|;
    QuotRem(d, a);
    if i > 0 {
      EncodingDigits(chars, L - 1, d / a, i - 1);
      DivModOfProduct(d, a, Pow(a, i - 1));
    }
  }

  /** Reading an encoding back yields d modulo A^L (d itself when d < A^L). */
  lemma {:induction false} DecodeEncode(chars: string, L: nat, d: nat)
    requires |chars| >= 1 && Distinct(chars)
    ensures Value(chars, Encoding(chars, L, d)) == d % Pow(|chars|, L)
    decreases L
  {
    var a := |chars|;
    if L == 0 {
      DivModUnique(d, 1, d, 0);
    } else {
      QuotRem(d, a);
      var code := Encoding(chars, L, d);
      assert code[1..] == Encoding(chars, L - 1, d / a);
      DecodeEncode(chars, L - 1, d / a);
      IndexOfDistinct(chars, d % a);
      DivModOfProduct(d, a, Pow(a, L - 1));
    }
  }

  /** A code over the alphabet stands for a number in [0, A^|code|). */
  lemma {:induction false} ValueBounds(chars: string, code: string)
    requires |chars| >= 1 && OverAlphabet(chars, code)
    ensures 0 <= Value(chars, code) < Pow(|chars|, |code|)
    decreases |code|
  {
    if code != [] {
      var a := |chars|;
      assert OverAlphabet(chars, code[1..]);
      ValueBounds(chars, code[1..]);
      var v := Value(chars, code[1..]);
      var p := Pow(a, |code| - 1);
      var i := IndexOf(chars, code[0]);
      assert code[0] in chars;
      assert Value(chars, code) == i + a * v;
      DigitBound(i, a, v, p);
      assert Pow(a, |code|) == a * p;
    }
  }

  /** A code over the alphabet stands for a non-negative number. */
  lemma {:induction false} ValueNonNegative(chars: string, code: string)
    requires OverAlphabet(chars, code)
    ensures Value(chars, code) >= 0
    decreases |code|
  {
    if code != [] {
      assert OverAlphabet(chars, code[1..]);
      ValueNonNegative(chars, code[1..]);
    }
  }

  /** Encoding a code's number at the code's length gives the code back. */
  lemma {:induction false} EncodeDecode(chars: string, code: string)
    requires |chars| >= 1 && OverAlphabet(chars, code)
    ensures Value(chars, code) >= 0
    ensures Encoding(chars, |code|, Value(chars, code)) == code
    decreases |code|
  {
    ValueBounds(chars, code);
    if code != [] {
      var a := |chars|;
      assert OverAlphabet(chars, code[1..]);
      EncodeDecode(chars, code[1..]);
      var v := Value(chars, code[1..]);
      var i := IndexOf(chars, code[0]);
      assert code[0] in chars;
      DivModUnique(Value(chars, code), a, v, i);
      QuotRem(Value(chars, code), a);
    }
  }

  /** Two numbers below A^L with the same encoding are equal. */
  lemma EncodingInjective(chars: string, L: nat, d1: nat, d2: nat)
    requires |chars| >= 1 && Distinct(chars)
    requires d1 < Pow(|chars|, L) && d2 < Pow(|chars|, L)
    requires Encoding(chars, L, d1) == Encoding(chars, L, d2)
    ensures d1 == d2
  {
    DecodeEncode(chars, L, d1);
    DecodeEncode(chars, L, d2);
    DivModUnique(d1, Pow(|chars|, L), 0, d1);
    DivModUnique(d2, Pow(|chars|, L), 0, d2);
  }

  /** Encoding keeps only d modulo A^L. */
  lemma EncodingTruncates(chars: string, L: nat, d: nat)
    requires |chars| >= 1 && Distinct(chars)
    ensures Encoding(chars, L, d) == Encoding(chars, L, d % Pow(|chars|, L))
  {
    DecodeEncode(chars, L, d);
    EncodingOverAlphabet(chars, L, d);
    EncodeDecode(chars, Encoding(chars, L, d));
  }
}
