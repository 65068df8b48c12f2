/** Byte-level helpers behind the stack's number format: byte reversal and the
    OpenSSL MPI encoding of a signed integer without its four-byte length
    prefix (big-endian sign-magnitude, the sign in the top bit of the first,
    most significant byte). */
module Mpi {

  /** An 8-bit byte, read as its unsigned value 0..255. */
  newtype uint8 = x: int | 0 <= x < 0x100

  /** The byte string in reverse order. */
  function ReverseBytes(s: seq<uint8>): (r: seq<uint8>)
    ensures |r| == |s|
    ensures forall i :: 0 <= i < |s| ==> r[i] == s[|s| - 1 - i]
  {
    if s == [] then [] else ReverseBytes(s[1..]) + [s[0]]
  }

  /** Reversing twice gives the original bytes back. */
  lemma ReverseReverse(s: seq<uint8>)
    ensures ReverseBytes(ReverseBytes(s)) == s
  {
    var r := ReverseBytes(ReverseBytes(s));
    assert |r| == |s|;
    forall i | 0 <= i < |s| ensures r[i] == s[i] {
      assert ReverseBytes(s)[|s| - 1 - i] == s[i];
    }
  }

  /** The unsigned number a big-endian byte string stands for. */
  function BigEndianValue(s: seq<uint8>): nat
  {
    if s == [] then 0 else BigEndianValue(s[..|s| - 1]) * 0x100 + s[|s| - 1] as int
  }

  /** Leading zero bytes do not change a big-endian number. */
  lemma {:induction false} LeadingZero(s: seq<uint8>)
    ensures BigEndianValue([0] + s) == BigEndianValue(s)
    decreases |s|
  {
    if s != [] {
      var t := [0 as uint8] + s;
      assert t[..|t| - 1] == [0 as uint8] + s[..|s| - 1];
      LeadingZero(s[..|s| - 1]);
    }
  }

  /** A big-endian number is zero exactly when every byte is zero. */
  lemma {:induction false} BigEndianZero(s: seq<uint8>)
    ensures BigEndianValue(s) == 0 <==> forall i :: 0 <= i < |s| ==> s[i] == 0
    decreases |s|
  {
    if s != [] {
      var init := s[..|s| - 1];
      BigEndianZero(init);
      if BigEndianValue(s) == 0 {
        forall i | 0 <= i < |s| ensures s[i] == 0 {
          if i < |s| - 1 { assert s[i] == init[i]; }
        }
      } else {
        assert !(forall i :: 0 <= i < |init| ==> init[i] == 0) || s[|s| - 1] != 0;
      }
    }
  }

  /** The shortest big-endian byte string for `n`: no leading zero byte, and
      empty for zero. */
  function MinimalBigEndian(n: nat): (r: seq<uint8>)
    ensures BigEndianValue(r) == n
    ensures r == [] <==> n == 0
    ensures r != [] ==> r[0] != 0
    decreases n
  {
    if n == 0 then []
    else
      var prefix := MinimalBigEndian(n / 0x100);
      var r := prefix + [(n % 0x100) as uint8];
      assert r[..|r| - 1] == prefix;
      r
  }

  /** The sign flag of a sign-magnitude number: `(b & 0x80) == 0x80`. */
  predicate SignBitSet(b: uint8)
  {
    b >= 0x80
  }

  /** `b & 0x7f`: the byte with its sign flag cleared. */
  function ClearSignBit(b: uint8): uint8
  {
    if SignBitSet(b) then b - 0x80 else b
  }

  /** `b | 0x80`: the byte with its sign flag set. */
  function SetSignBit(b: uint8): uint8
  {
    if SignBitSet(b) then b else b + 0x80
  }

  /** MPI encoding without the length prefix: zero is the empty string;
      otherwise the minimal big-endian magnitude, with a 0x00 byte put in
      front when its top bit is taken, and the top bit of the first byte set
      for a negative value. */
  function EncodeMPI(value: int): (r: seq<uint8>)
    ensures r == [] <==> value == 0
    ensures r != [] ==> (SignBitSet(r[0]) <==> value < 0)
  {
    if value == 0 then []
    else
      var magnitude := MinimalBigEndian(if value < 0 then -value else value);
      var padded := if SignBitSet(magnitude[0]) then [0 as uint8] + magnitude else magnitude;
      if value < 0 then [SetSignBit(padded[0])] + padded[1..] else padded
  }

  /** MPI decoding without the length prefix: the empty string is zero;
      otherwise the top bit of the first byte is the sign and the remaining
      bits, big-endian, are the magnitude. */
  function DecodeMPI(mpi: seq<uint8>): (r: int)
    ensures mpi == [] ==> r == 0
    ensures r < 0 ==> mpi != [] && SignBitSet(mpi[0])
    ensures r > 0 ==> mpi != [] && !SignBitSet(mpi[0])
  {
    if mpi == [] then 0
    else
      var magnitude: int := BigEndianValue([ClearSignBit(mpi[0])] + mpi[1..]);
      if SignBitSet(mpi[0]) then -magnitude else magnitude
  }

  /** Decoding an encoded integer gives the integer back. */
  lemma DecodeEncodeMPI(value: int)
    ensures DecodeMPI(EncodeMPI(value)) == value
  {
    if value != 0 {
      var abs := if value < 0 then -value else value;
      var magnitude := MinimalBigEndian(abs);
      var padded := if SignBitSet(magnitude[0]) then [0 as uint8] + magnitude else magnitude;
      assert BigEndianValue(padded) == abs by {
        if SignBitSet(magnitude[0]) { LeadingZero(magnitude); }
      }
      assert !SignBitSet(padded[0]);
      var mpi := EncodeMPI(value);
      assert [ClearSignBit(mpi[0])] + mpi[1..] == padded;
    }
  }

  /** A nonzero value below 256 has the one-byte magnitude [n]. */
  lemma MinimalBigEndianOneByte(n: nat)
    requires 0 < n < 0x100
    ensures MinimalBigEndian(n) == [n as uint8]
  {
    assert n / 0x100 == 0 && n % 0x100 == n;
    assert MinimalBigEndian(0) == [];
  }

  /** Zero is no bytes; 1 is [0x01] and -1 sets its sign bit, [0x81]. */
  lemma EncodeMPIUnits()
    ensures EncodeMPI(0) == []
    ensures EncodeMPI(1) == [0x01] && EncodeMPI(-1) == [0x81]
  {
    MinimalBigEndianOneByte(1);
    assert !SignBitSet(0x01) && SetSignBit(0x01) == 0x81;
  }

  /** 128 already uses the top bit, so its encoding gets a 0x00 byte in
      front, and -128 sets the sign on that byte. */
  lemma EncodeMPIPadding()
    ensures EncodeMPI(128) == [0x00, 0x80] && EncodeMPI(-128) == [0x80, 0x80]
  {
    MinimalBigEndianOneByte(128);
    assert SignBitSet(0x80) && SetSignBit(0x00) == 0x80;
  }

  /** 256 needs two magnitude bytes, most significant first. */
  lemma EncodeMPITwoBytes()
    ensures EncodeMPI(256) == [0x01, 0x00]
  {
    MinimalBigEndianOneByte(1);
    assert MinimalBigEndian(256) == [0x01, 0x00];
    assert !SignBitSet(0x01);
  }

  /** 256 to the power `k`. */
  function Pow256(k: nat): (r: nat)
    ensures r > 0
  {
    if k == 0 then 1 else 0x100 * Pow256(k - 1)
  }

  lemma {:induction false} Pow256Monotone(j: nat, k: nat)
    requires j <= k
    ensures Pow256(j) <= Pow256(k)
    decreases k
  {
    if j < k { Pow256Monotone(j, k - 1); }
  }

  /** The value of a big-endian string of `k` bytes is below 256^k. */
  lemma {:induction false} BigEndianBound(s: seq<uint8>)
    ensures BigEndianValue(s) < Pow256(|s|)
    decreases |s|
  {
    if s != [] {
      BigEndianBound(s[..|s| - 1]);
    }
  }

  /** The first byte of a big-endian string weighs 256^(number of bytes after it). */
  lemma {:induction false} BigEndianCons(a: uint8, t: seq<uint8>)
    ensures BigEndianValue([a] + t) == a as int * Pow256(|t|) + BigEndianValue(t)
    decreases |t|
  {
    if t != [] {
      var s := [a] + t;
      var init := t[..|t| - 1];
      assert s[..|s| - 1] == [a] + init;
      BigEndianCons(a, init);
      calc {
        BigEndianValue(s);
        (a as int * Pow256(|init|) + BigEndianValue(init)) * 0x100 + t[|t| - 1] as int;
        a as int * (0x100 * Pow256(|init|)) + (BigEndianValue(init) * 0x100 + t[|t| - 1] as int);
      }
    }
  }

  lemma BelowSignBit(c: int, p: nat, b: nat)
    requires 0 <= c < 0x80 && b < p
    ensures c * p + b < 0x80 * p
  {
    assert (c + 1) * p == c * p + p;
    assert (c + 1) * p <= 0x80 * p;
  }

  /** A decoded value's magnitude fits below the sign bit of its first byte. */
  lemma DecodedMagnitudeBound(mpi: seq<uint8>)
    requires mpi != []
    ensures -0x80 * Pow256(|mpi| - 1) < DecodeMPI(mpi) < 0x80 * Pow256(|mpi| - 1)
  {
    var c := ClearSignBit(mpi[0]) as int;
    var rest := mpi[1..];
    var magnitude: int := BigEndianValue([ClearSignBit(mpi[0])] + rest);
    var p := Pow256(|rest|);
    BigEndianCons(ClearSignBit(mpi[0]), rest);
    BigEndianBound(rest);
    assert magnitude == c * p + BigEndianValue(rest);
    BelowSignBit(c, p, BigEndianValue(rest));
    assert DecodeMPI(mpi) == if SignBitSet(mpi[0]) then -magnitude else magnitude;
  }

  lemma ScaleLe(a: nat, x: nat, y: nat)
    requires x <= y
    ensures a * x <= a * y
  {
  }

  /** A minimal magnitude of `k` bytes is at least 256^(k - 1), and at least
      0x80 * 256^(k - 1) when its first byte has the top bit set. */
  lemma MinimalLowerBound(n: nat)
    requires n > 0
    ensures n >= Pow256(|MinimalBigEndian(n)| - 1)
    ensures SignBitSet(MinimalBigEndian(n)[0]) ==> n >= 0x80 * Pow256(|MinimalBigEndian(n)| - 1)
  {
    var m := MinimalBigEndian(n);
    var p := Pow256(|m| - 1);
    assert m == [m[0]] + m[1..];
    BigEndianCons(m[0], m[1..]);
    assert n >= m[0] as int * p;
    if SignBitSet(m[0]) {
      ScaleLe(p, 0x80, m[0] as nat);
    } else {
      ScaleLe(p, 1, m[0] as nat);
    }
  }

  /** No byte string decodes to a value whose encoding is longer than it:
      EncodeMPI produces the shortest string for each value. */
  lemma EncodeMPIMinimal(mpi: seq<uint8>)
    ensures |EncodeMPI(DecodeMPI(mpi))| <= |mpi|
  {
    var value := DecodeMPI(mpi);
    if value != 0 {
      DecodedMagnitudeBound(mpi);
      var abs := if value < 0 then -value else value;
      var pLen := Pow256(|mpi| - 1);
      assert abs < 0x80 * pLen;
      var magnitude := MinimalBigEndian(abs);
      var k := |magnitude|;
      MinimalLowerBound(abs);
      if SignBitSet(magnitude[0]) {
        if k > |mpi| - 1 {
          Pow256Monotone(|mpi| - 1, k - 1);
          assert false;
        }
      } else {
        if k > |mpi| {
          Pow256Monotone(|mpi|, k - 1);
          assert false;
        }
      }
    }
  }
}
