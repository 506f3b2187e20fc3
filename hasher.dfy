/**
 * The djb2 string hash that picks a bucket for a destination
 * (project.cpp:208-217). `unsigned long` is 32 bits wide on the platform
 * the program targets, so the accumulator wraps modulo 2^32.
 */
module Hasher {
  import opened Records

  /** Number of buckets of the table (kHashTableSize). */
  const TableSize: nat := 127

  /** 2^32: the accumulator is a 32-bit unsigned integer. */
  const Modulus: nat := 0x1_0000_0000

  /** djb2's seed. */
  const Seed: nat := 5381

  /** No byte of `s` is the terminating zero. */
  ghost predicate NulFree(s: seq<byte>)
  {
    forall i :: 0 <= i < |s| ==> s[i] != 0
  }

  /** The C string held by a byte buffer: every byte before the first zero. */
  function CPrefix(s: seq<byte>): (c: seq<byte>)
    ensures NulFree(c)
    ensures c <= s
    ensures |c| < |s| ==> s[|c|] == 0
  {
    if s == [] || s[0] == 0 then [] else [s[0]] + CPrefix(s[1..])
  }

  /** One step of djb2, `(h << 5) + h + c` in 32-bit unsigned arithmetic. */
  function Step(h: nat, c: byte): (h': nat)
    ensures h' < Modulus
  {
    (h * 33 + c as int) % Modulus
  }

  /** The djb2 accumulator after reading every byte of `s`, left to right. */
  function Djb2(s: seq<byte>): (h: nat)
    ensures h < Modulus
  {
    if s == [] then Seed else Step(Djb2(s[..|s| - 1]), s[|s| - 1])
  }

  /** Reading one more byte is one more step. */
  lemma Djb2Snoc(s: seq<byte>, c: byte)
    ensures Djb2(s + [c]) == Step(Djb2(s), c)
  {
    assert (s + [c])[..|s|] == s;
  }

  /** Reducing a sum modulo 2^32 may reduce its first term first. */
  lemma ModAdd(x: int, y: int)
    ensures (x % Modulus + y) % Modulus == (x + y) % Modulus
  {
    var q := x / Modulus;
    assert x == q * Modulus + x % Modulus;
    assert x + y == q * Modulus + (x % Modulus + y);
  }

  /**
   * The step as the source writes it, in 32-bit unsigned arithmetic: the
   * shift by five wraps, the addition of `hash` wraps, the addition of `c`
   * wraps. Wrapping once at the end gives the same value.
   */
  lemma StepIsShiftAdd(h: nat, c: byte)
    requires h < Modulus
    ensures Step(h, c) == (((h * 32) % Modulus + h) % Modulus + c as int) % Modulus
  {
    ModAdd(h * 32, h);
    ModAdd(h * 32 + h, c as int);
  }

  /** The bucket a destination hashes to. */
  function Bucket(key: seq<byte>): (index: nat)
    ensures index < TableSize
  {
    Djb2(CPrefix(key)) % TableSize
  }

  /** Polynomial form of djb2: 5381 * 33^n + sum of s[i] * 33^(n-1-i). */
  function Poly(s: seq<byte>): nat
  {
    if s == [] then Seed else Poly(s[..|s| - 1]) * 33 + s[|s| - 1] as int
  }

  lemma {:induction false} ModStep(a: nat, c: nat)
    ensures ((a % Modulus) * 33 + c) % Modulus == (a * 33 + c) % Modulus
  {
    var q := a / Modulus;
    assert a == q * Modulus + a % Modulus;
    assert a * 33 + c == (q * 33) * Modulus + ((a % Modulus) * 33 + c);
  }

  /**
   * The wrapping accumulator is the polynomial hash reduced modulo 2^32:
   * the per-step wrap-around loses nothing but the high bits.
   */
  lemma {:induction false} Djb2IsPolynomial(s: seq<byte>)
    ensures Djb2(s) == Poly(s) % Modulus
    decreases |s|
  {
    if s != [] {
      var init := s[..|s| - 1];
      Djb2IsPolynomial(init);
      ModStep(Poly(init), s[|s| - 1] as int);
    }
  }

  /** A NUL-free buffer is its own C string. */
  lemma {:induction false} CPrefixOfNulFree(s: seq<byte>)
    requires NulFree(s)
    ensures CPrefix(s) == s
    decreases |s|
  {
    if s != [] {
      CPrefixOfNulFree(s[1..]);
    }
  }

  /** What follows the first zero byte of a key never affects its bucket. */
  lemma {:induction false} BucketIgnoresTail(s: seq<byte>, junk: seq<byte>)
    requires NulFree(s)
    ensures CPrefix(s + [0] + junk) == s
    ensures Bucket(s + [0] + junk) == Bucket(s)
    decreases |s|
  {
    if s == [] {
      assert (s + [0] + junk)[0] == 0;
    } else {
      assert (s + [0] + junk)[1..] == s[1..] + [0] + junk;
      BucketIgnoresTail(s[1..], junk);
    }
    CPrefixOfNulFree(s);
  }

  /** hash(): reads bytes until the first zero and reduces modulo 127. */
  method Hash(key: seq<byte>) returns (index: nat)
    ensures index == Djb2(CPrefix(key)) % TableSize
    ensures index < TableSize
  {
    var h: nat := Seed;
    var i := 0;
    while i < |key| && key[i] != 0
      invariant 0 <= i <= |key|
      invariant key[..i] <= CPrefix(key)
      invariant h == Djb2(key[..i])
    {
      assert key[..i + 1][..i] == key[..i];
      h := (h * 33 + key[i] as int) % Modulus;
      i := i + 1;
    }
    assert key[..i] == CPrefix(key);
    index := h % TableSize;
  }
}
