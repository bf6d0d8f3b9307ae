/** Non-negative integers written in decimal, as the codec prints and reads its
    block codes: `x.ToString()`, `PadLeft(width, '0')` and `int.TryParse`. */
module Decimal {
  import opened Common

  predicate IsDigit(c: char) { '0' <= c <= '9' }

  predicate AllDigits(s: seq<char>) { forall i :: 0 <= i < |s| ==> IsDigit(s[i]) }

  /** The number of characters of `x.ToString()`. */
  function Digits(x: nat): (d: nat)
    ensures 1 <= d
  {
    if x < 10 then 1 else 1 + Digits(x / 10)
  }

  function DigitChar(d: nat): char
    requires d < 10
  {
    (('0' as int) + d) as char
  }

  function DigitValue(c: char): nat
    requires IsDigit(c)
  {
    (c as int) - ('0' as int)
  }

  /** `x.ToString()` for a non-negative x. */
  function ToDecimal(x: nat): (s: seq<char>)
    ensures |s| == Digits(x) && AllDigits(s)
  {
    if x < 10 then [DigitChar(x)] else ToDecimal(x / 10) + [DigitChar(x % 10)]
  }

  function Zeros(k: nat): (z: seq<char>)
    ensures |z| == k && forall i :: 0 <= i < k ==> z[i] == '0'
  {
    if k == 0 then [] else Zeros(k - 1) + ['0']
  }

  /** `s.PadLeft(w, '0')`: zeros in front up to length w, longer strings unchanged. */
  function PadLeft(s: seq<char>, w: nat): (p: seq<char>)
    ensures |p| == if |s| < w then w else |s|
    ensures p[|p| - |s|..] == s
    ensures forall i :: 0 <= i < |p| - |s| ==> p[i] == '0'
  {
    if |s| < w then Zeros(w - |s|) + s else s
  }

  /** A block code as the encoders print it. */
  function Pad(x: nat, w: nat): seq<char>
  {
    PadLeft(ToDecimal(x), w)
  }

  /** The value of a string of decimal digits (the empty string reads as 0). */
  function Value(s: seq<char>): nat
    requires AllDigits(s)
  {
    if s == [] then 0 else 10 * Value(s[..|s| - 1]) + DigitValue(s[|s| - 1])
  }

  /** `int.TryParse` on the strings the decoders give it: it succeeds exactly
      on a non-empty run of digits. */
  function TryParse(s: seq<char>): (r: Option<nat>)
    ensures r.Some? <==> s != [] && AllDigits(s)
  {
    if s != [] && AllDigits(s) then Some(Value(s)) else None
  }

  lemma {:induction false} ValueOfDecimal(x: nat)
    ensures Value(ToDecimal(x)) == x
  {
    if x >= 10 {
      ValueOfDecimal(x / 10);
      var s := ToDecimal(x);
      assert s[..|s| - 1] == ToDecimal(x / 10);
    }
  }

  lemma {:induction false} ValueOfZeros(k: nat)
    ensures Value(Zeros(k)) == 0
  {
    if k > 0 {
      ValueOfZeros(k - 1);
      assert Zeros(k)[..k - 1] == Zeros(k - 1);
    }
  }

  /** Leading zeros do not change the value of a digit string. */
  lemma {:induction false} ValueIgnoresZeros(k: nat, s: seq<char>)
    requires AllDigits(s)
    ensures AllDigits(Zeros(k) + s) && Value(Zeros(k) + s) == Value(s)
    decreases |s|
  {
    var z := Zeros(k) + s;
    if s == [] {
      assert z == Zeros(k);
      ValueOfZeros(k);
    } else {
      ValueIgnoresZeros(k, s[..|s| - 1]);
      assert z[..|z| - 1] == Zeros(k) + s[..|s| - 1];
    }
  }

  /** More digits are never needed for a smaller number. */
  lemma {:induction false} DigitsMonotone(x: nat, y: nat)
    requires x <= y
    ensures Digits(x) <= Digits(y)
  {
    if x >= 10 {
      DigitsMonotone(x / 10, y / 10);
    }
  }

  /** Counting up by one adds at most one digit. */
  lemma {:induction false} DigitsStep(x: nat)
    ensures Digits(x) <= Digits(x + 1) <= Digits(x) + 1
  {
    DigitsMonotone(x, x + 1);
    if x >= 10 {
      DigitsStep(x / 10);
      assert (x + 1) / 10 == x / 10 || (x + 1) / 10 == x / 10 + 1;
      DigitsMonotone((x + 1) / 10, x / 10 + 1);
    }
  }

  /** A code padded to a width that has room for it has exactly that width,
      and reading it back gives the code. */
  lemma PadThenParse(x: nat, w: nat)
    requires Digits(x) <= w
    ensures |Pad(x, w)| == w && AllDigits(Pad(x, w))
    ensures TryParse(Pad(x, w)) == Some(x)
  {
    var s := ToDecimal(x);
    ValueOfDecimal(x);
    ValueIgnoresZeros(w - |s|, s);
    if |s| < w {
      assert Pad(x, w) == Zeros(w - |s|) + s;
    } else {
      assert Zeros(0) + s == s;
    }
  }
}
