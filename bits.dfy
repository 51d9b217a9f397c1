/** Machine integers, powers of two and big-endian strings of '0'/'1' digits. */
module Bits {

  /** One digital-line sample as the driver's uInt8 buffers hold it. */
  type uint8 = x: int | 0 <= x < 0x100

  /** The number of values of a uint64_t. */
  const TWO_64: nat := 0x1_0000_0000_0000_0000

  /** A uint64_t. */
  type uint64 = x: int | 0 <= x < 0x1_0000_0000_0000_0000

  function Pow2(k: nat): (p: nat)
    ensures p >= 1
  {
    if k == 0 then 1 else 2 * Pow2(k - 1)
  }

  lemma {:induction false} Pow2Monotone(a: nat, b: nat)
    requires a <= b
    ensures Pow2(a) <= Pow2(b)
  {
    if a < b {
      Pow2Monotone(a, b - 1);
    }
  }

  lemma {:induction false} Pow2Add(a: nat, b: nat)
    ensures Pow2(a + b) == Pow2(a) * Pow2(b)
  {
    if b > 0 {
      Pow2Add(a, b - 1);
    }
  }

  lemma Pow2Is64()
    ensures Pow2(64) == TWO_64
  {
    assert Pow2(2) == 4;
    Pow2Add(2, 2);
    Pow2Add(4, 4);
    Pow2Add(8, 8);
    assert Pow2(16) == 0x1_0000;
    Pow2Add(16, 16);
    assert Pow2(32) == 0x1_0000_0000;
    Pow2Add(32, 32);
  }

  /** Bit i of n, that is (n >> i) & 1. */
  function Bit(n: nat, i: nat): (b: nat)
    ensures b < 2
  {
    if i == 0 then n % 2 else Bit(n / 2, i - 1)
  }

  predicate IsDigit(c: char) {
    c == '0' || c == '1'
  }

  predicate BinaryString(s: seq<char>) {
    forall i :: 0 <= i < |s| ==> IsDigit(s[i])
  }

  /** The digit character of the lowest bit of b. */
  function DigitChar(b: nat): char {
    if b % 2 == 0 then '0' else '1'
  }

  /** The value of one digit character: 1 for '1', 0 otherwise. */
  function DigitOf(c: char): nat {
    if c == '1' then 1 else 0
  }

  function Repeat<T>(x: T, k: nat): (s: seq<T>)
    ensures |s| == k && forall i :: 0 <= i < k ==> s[i] == x
  {
    seq(k, _ => x)
  }

  /** The value of a digit string read left to right, most significant digit first. */
  function Value(s: seq<char>): nat {
    if s == [] then 0 else 2 * Value(s[..|s| - 1]) + DigitOf(s[|s| - 1])
  }

  lemma {:induction false} ValueBound(s: seq<char>)
    ensures Value(s) < Pow2(|s|)
  {
    if s != [] {
      ValueBound(s[..|s| - 1]);
    }
  }

  /**
   * The shortest big-endian binary text of n, built by taking the lowest
   * bit and halving; the empty string for 0.
   */
  function Binary(n: nat): seq<char> {
    if n == 0 then [] else Binary(n / 2) + [DigitChar(n % 2)]
  }

  lemma {:induction false} BinaryValue(n: nat)
    ensures BinaryString(Binary(n))
    ensures Value(Binary(n)) == n
    ensures Binary(n) == [] <==> n == 0
    ensures n > 0 ==> Binary(n)[0] == '1'
  {
    if n > 0 {
      BinaryValue(n / 2);
      var b := Binary(n);
      assert b[..|b| - 1] == Binary(n / 2);
    }
  }

  lemma {:induction false} BinaryLength(n: nat)
    requires n > 0
    ensures |Binary(n)| >= 1
    ensures Pow2(|Binary(n)| - 1) <= n < Pow2(|Binary(n)|)
  {
    if n / 2 > 0 {
      BinaryLength(n / 2);
    }
  }

  /** No digit string with value n is shorter than Binary(n). */
  lemma BinaryShortest(n: nat, t: seq<char>)
    requires Value(t) == n
    ensures |Binary(n)| <= |t|
  {
    if n > 0 {
      BinaryLength(n);
      ValueBound(t);
      if |t| < |Binary(n)| {
        Pow2Monotone(|t|, |Binary(n)| - 1);
      }
    }
  }

  lemma BinaryFits(n: nat, w: nat)
    requires n < Pow2(w)
    ensures |Binary(n)| <= w
  {
    if n > 0 {
      BinaryLength(n);
      if |Binary(n)| > w {
        Pow2Monotone(w, |Binary(n)| - 1);
      }
    }
  }

  /** s with '0' digits prepended until it is at least w digits long. */
  function PadLeft(s: seq<char>, w: nat): seq<char> {
    if |s| >= w then s else Repeat('0', w - |s|) + s
  }

  /** Prepending one '0' to a string shorter than w does not change its padding to w digits. */
  lemma PadLeftStep(s: seq<char>, w: nat)
    requires |s| < w
    ensures PadLeft(['0'] + s, w) == PadLeft(s, w)
  {
    if |s| + 1 < w {
      assert Repeat('0', w - |s| - 1) + ['0'] == Repeat('0', w - |s|);
    }
  }

  /** The w lowest bits of n, most significant first. */
  function BitsOf(n: nat, w: nat): (s: seq<char>)
    ensures |s| == w && BinaryString(s)
  {
    if w == 0 then [] else BitsOf(n / 2, w - 1) + [DigitChar(n % 2)]
  }

  lemma {:induction false} BitsOfAt(n: nat, w: nat, i: nat)
    requires i < w
    ensures BitsOf(n, w)[i] == DigitChar(Bit(n, w - 1 - i))
  {
    if i < w - 1 {
      BitsOfAt(n / 2, w - 1, i);
    }
  }

  /** Padding the shortest binary text of n to w digits gives its w lowest bits. */
  lemma {:induction false} PadBinary(n: nat, w: nat)
    requires n < Pow2(w)
    ensures PadLeft(Binary(n), w) == BitsOf(n, w)
  {
    if w == 0 {
    } else if n == 0 {
      PadBinary(0, w - 1);
      assert Repeat('0', w - 1) + ['0'] == Repeat('0', w);
    } else {
      var b := Binary(n / 2);
      BinaryFits(n / 2, w - 1);
      PadBinary(n / 2, w - 1);
      if |b| + 1 < w {
        assert PadLeft(b + [DigitChar(n % 2)], w) == PadLeft(b, w - 1) + [DigitChar(n % 2)];
      }
    }
  }

  lemma {:induction false} ValueBitsOf(n: nat, w: nat)
    requires n < Pow2(w)
    ensures Value(BitsOf(n, w)) == n
  {
    if w > 0 {
      ValueBitsOf(n / 2, w - 1);
      var s := BitsOf(n, w);
      assert s[..|s| - 1] == BitsOf(n / 2, w - 1);
    }
  }

  lemma {:induction false} BitsOfValue(s: seq<char>)
    requires BinaryString(s)
    ensures BitsOf(Value(s), |s|) == s
  {
    if s != [] {
      var p := s[..|s| - 1];
      BitsOfValue(p);
      assert Value(s) / 2 == Value(p);
      assert DigitChar(Value(s) % 2) == s[|s| - 1];
      assert s == p + [s[|s| - 1]];
    }
  }

  lemma {:induction false} BitsOfAllOnes(w: nat)
    ensures BitsOf(Pow2(w) - 1, w) == Repeat('1', w)
  {
    if w > 0 {
      BitsOfAllOnes(w - 1);
      assert (Pow2(w) - 1) / 2 == Pow2(w - 1) - 1;
      assert Repeat('1', w - 1) + ['1'] == Repeat('1', w);
    }
  }
}
