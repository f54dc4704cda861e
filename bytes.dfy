/** Byte-level helpers shared by every revision: the XOR of two byte strings
    (`XORInto`, `xor_arrays`) and the big-endian digits of a length
    (`absorbIntBytes`, `absorb_number`). */
module Bytes {

  /** An unsigned byte. The revisions keep their registers in uint8_t (C, C++,
      Go) or in an int masked with `& 0xff` (Java); either way every sum wraps
      modulo 256, which the model writes out with `Add`. */
  type Byte = x: int | 0 <= x < 256

  /** A value, or nothing where the source throws, panics or returns NULL. */
  datatype Option<T> = None | Some(value: T)

  /** Byte addition as uint8_t performs it. */
  function Add(a: Byte, b: Byte): (r: Byte)
    ensures r == a + b || r == a + b - 256
  {
    (a + b) % 256
  }

  function Pow2(n: nat): (r: nat)
    ensures r >= 1
  {
    if n == 0 then 1 else 2 * Pow2(n - 1)
  }

  /** Bitwise exclusive or of the low `width` bits of a and b, bit by bit from
      the least significant. */
  function XorBits(a: nat, b: nat, width: nat): (r: nat)
    ensures r < Pow2(width)
    decreases width
  {
    if width == 0 then 0 else (a % 2 + b % 2) % 2 + 2 * XorBits(a / 2, b / 2, width - 1)
  }

  /** Bitwise exclusive or of two bytes (`^` on uint8_t, on Java bytes, on Go bytes). */
  function XorByte(a: Byte, b: Byte): Byte
  {
    assert Pow2(8) == 256;
    XorBits(a, b, 8)
  }

  lemma {:induction false} XorBitsTwice(a: nat, b: nat, width: nat)
    requires a < Pow2(width)
    ensures XorBits(XorBits(a, b, width), b, width) == a
    decreases width
  {
    if width > 0 {
      var bit := (a % 2 + b % 2) % 2;
      var rest := XorBits(a / 2, b / 2, width - 1);
      var r := bit + 2 * rest;
      assert XorBits(a, b, width) == r;
      assert r % 2 == bit && r / 2 == rest;
      assert (bit + b % 2) % 2 == a % 2;
      XorBitsTwice(a / 2, b / 2, width - 1);
      assert XorBits(r, b, width) == a % 2 + 2 * (a / 2);
    }
  }

  /** XORing a byte twice with the same key byte restores it. */
  lemma XorByteTwice(a: Byte, b: Byte)
    ensures XorByte(XorByte(a, b), b) == a
  {
    assert Pow2(8) == 256;
    XorBitsTwice(a, b, 8);
  }

  /** XOR with zero keeps the other operand. */
  lemma {:induction false} XorBitsZero(b: nat, width: nat)
    requires b < Pow2(width)
    ensures XorBits(0, b, width) == b
    decreases width
  {
    if width > 0 {
      XorBitsZero(b / 2, width - 1);
    }
  }

  /** XOR with all ones complements the other operand. */
  lemma {:induction false} XorBitsOnes(b: nat, width: nat)
    requires b < Pow2(width)
    ensures XorBits(Pow2(width) - 1, b, width) == Pow2(width) - 1 - b
    decreases width
  {
    if width > 0 {
      var p, half, low := Pow2(width - 1), b / 2, b % 2;
      assert Pow2(width) == 2 * p && b == 2 * half + low && half < p;
      var ones := 2 * (p - 1) + 1;
      assert ones % 2 == 1 && ones / 2 == p - 1;
      assert (ones % 2 + low) % 2 == 1 - low;
      XorBitsOnes(half, width - 1);
      assert XorBits(ones, b, width) == (1 - low) + 2 * XorBits(p - 1, half, width - 1);
      assert ones == Pow2(width) - 1 && (1 - low) + 2 * (p - 1 - half) == ones - b;
    } else {
      assert b == 0;
    }
  }

  /** XOR leaves a value unchanged exactly when the other operand is zero. */
  lemma {:induction false} XorBitsFixed(a: nat, b: nat, width: nat)
    requires a < Pow2(width) && b < Pow2(width)
    ensures XorBits(a, b, width) == a <==> b == 0
    decreases width
  {
    if width > 0 {
      var p := Pow2(width - 1);
      assert Pow2(width) == 2 * p && a / 2 < p && b / 2 < p;
      var bit := (a % 2 + b % 2) % 2;
      var rest := XorBits(a / 2, b / 2, width - 1);
      assert XorBits(a, b, width) == bit + 2 * rest;
      XorBitsFixed(a / 2, b / 2, width - 1);
      assert bit == a % 2 <==> b % 2 == 0;
      assert b == 0 <==> b % 2 == 0 && b / 2 == 0;
    }
  }

  /** A byte XORed with a key-stream byte other than zero is a different byte. */
  lemma XorByteFixed(a: Byte, k: Byte)
    ensures XorByte(a, k) == a <==> k == 0
  {
    assert Pow2(8) == 256;
    XorBitsFixed(a, k, 8);
  }

  /** `a` XORed position by position with the first |a| bytes of `b`. */
  function Xor(a: seq<Byte>, b: seq<Byte>): (r: seq<Byte>)
    requires |b| >= |a|
    ensures |r| == |a|
    ensures forall n {:trigger r[n]} :: 0 <= n < |a| ==> r[n] == XorByte(a[n], b[n])
  {
    seq(|a|, n requires 0 <= n < |a| => XorByte(a[n], b[n]))
  }

  /** XORing the same key stream twice gives the original bytes back. */
  lemma XorTwice(a: seq<Byte>, b: seq<Byte>)
    requires |b| >= |a|
    ensures Xor(Xor(a, b), b) == a
  {
    var r := Xor(Xor(a, b), b);
    forall n | 0 <= n < |a| ensures r[n] == a[n] {
      XorByteTwice(a[n], b[n]);
    }
  }

  /** XOR distributes over concatenation of the data and of the key stream. */
  lemma XorAppend(a1: seq<Byte>, a2: seq<Byte>, b1: seq<Byte>, b2: seq<Byte>)
    requires |b1| == |a1| && |b2| >= |a2|
    ensures Xor(a1 + a2, b1 + b2) == Xor(a1, b1) + Xor(a2, b2)
  {
  }

  /** Big-endian base-256 digits of `n`, most significant first, with no leading
      zero byte. A value of at most 255 (and, as in the Java `int` version, any
      negative value) is a single byte holding its low eight bits. */
  function BigEndian(n: int): (r: seq<Byte>)
    ensures |r| >= 1
    ensures r[|r| - 1] == n % 256
    decreases n
  {
    if n <= 255 then [n % 256] else BigEndian(n / 256) + [n % 256]
  }

  /** The number a big-endian byte string denotes. */
  function FromBigEndian(bs: seq<Byte>): (v: nat)
    ensures bs == [] ==> v == 0
  {
    if bs == [] then 0 else FromBigEndian(bs[..|bs| - 1]) * 256 + bs[|bs| - 1] as nat
  }

  /** A value that fits in one byte is absorbed as exactly that one byte. */
  lemma BigEndianSmall(n: int)
    requires n <= 255
    ensures BigEndian(n) == [n % 256]
  {
  }

  /** The digits of a non-negative number read back as that number, and the first
      digit is never zero unless the number itself is zero. */
  lemma {:induction false} BigEndianRoundTrip(n: nat)
    ensures FromBigEndian(BigEndian(n)) == n
    ensures n > 0 ==> BigEndian(n)[0] != 0
    decreases n
  {
    var r := BigEndian(n);
    var last := n % 256;
    if n <= 255 {
      assert r == [last];
      assert r[..0] == [];
      assert FromBigEndian(r) == last as nat;
    } else {
      BigEndianRoundTrip(n / 256);
      var p := BigEndian(n / 256);
      assert r == p + [last];
      assert r[..|r| - 1] == p;
      assert FromBigEndian(r) == FromBigEndian(p) * 256 + last as nat;
      assert r[0] == p[0];
    }
  }

  /** The number of digits: one byte per started factor of 256. */
  lemma {:induction false} BigEndianLength(n: nat)
    ensures n <= 255 ==> |BigEndian(n)| == 1
    ensures 256 <= n <= 65535 ==> |BigEndian(n)| == 2
    decreases n
  {
    if n > 255 {
      BigEndianLength(n / 256);
    }
  }

  /** n zero bytes, what `new byte[n]` holds. */
  function Zeros(n: nat): (r: seq<Byte>)
    ensures |r| == n && forall t :: 0 <= t < n ==> r[t] == 0
  {
    seq(n, _ => 0)
  }

  /** `Arrays.copyOf(original, n)`: the first n bytes, padded with zeros when
      the original is shorter. */
  function CopyOf(original: seq<Byte>, n: nat): (r: seq<Byte>)
    ensures |r| == n
    ensures forall t {:trigger r[t]} :: 0 <= t < n ==> r[t] == (if t < |original| then original[t] else 0)
  {
    if |original| >= n then original[..n] else original + Zeros(n - |original|)
  }

  /** A fresh array holding xs. */
  method ToArray(xs: seq<Byte>) returns (a: array<Byte>)
    ensures fresh(a) && a[..] == xs
  {
    a := new Byte[|xs|](t requires 0 <= t < |xs| => xs[t]);
  }

  /** A sequence is its first n elements followed by the rest. */
  lemma SplitAt<T>(xs: seq<T>, n: nat)
    requires n <= |xs|
    ensures xs == xs[..n] + xs[n..]
  {
  }

  /** Concatenation regroups freely. */
  lemma Regroup<T>(a: seq<T>, b: seq<T>, c: seq<T>)
    ensures a + (b + c) == a + b + c
  {
  }

  /** The three parts of a concatenation come back by slicing. */
  lemma Fields3<T>(a: seq<T>, b: seq<T>, c: seq<T>)
    ensures (a + b + c)[..|a|] == a
    ensures (a + b + c)[|a|..|a| + |b|] == b
    ensures (a + b + c)[|a| + |b|..] == c
  {
  }

  /** XORing a prefix is taking the prefix of the XOR. */
  lemma XorPrefix(a: seq<Byte>, b: seq<Byte>, n: nat)
    requires |b| >= |a| && n <= |a|
    ensures Xor(a, b)[..n] == Xor(a[..n], b[..n])
  {
  }

  /** XORing a slice is taking the slice of the XOR. */
  lemma XorSlice(a: seq<Byte>, b: seq<Byte>, lo: nat, hi: nat)
    requires |b| >= |a| && lo <= hi <= |a|
    ensures Xor(a, b)[lo..hi] == Xor(a[lo..hi], b[lo..hi])
  {
  }
}
