/** The script stack's value type: an immutable string of bytes that the
    script interpreter pushes and pops, read as a signed number (MPI format
    with the bytes reversed, i.e. little-endian sign-magnitude) or as a
    truth value. */
module StackElements {
  import opened Mpi

  /** A stack element. Building one from a byte string is the constructor
      itself, and the `bytes` field is what `getBytes` returns. */
  datatype StackElement = StackElement(bytes: seq<uint8>)

  /* ---------------------------------------------------------------------
     Construction
     --------------------------------------------------------------------- */

  /** An element holding the same bytes as `elem`. */
  function Copy(elem: StackElement): (e: StackElement)
    ensures e.bytes == elem.bytes
    ensures Equals(e, elem) && HashCode(e) == HashCode(elem)
    ensures GetBigInteger(e) == GetBigInteger(elem) && CompareTo(e, elem) == 0
  {
    StackElement(elem.bytes)
  }

  /** An element holding `value` in MPI format, bytes reversed. Reading it
      back as a number gives `value`. */
  function FromBigInteger(value: int): (e: StackElement)
    ensures GetBigInteger(e) == value
    ensures e.bytes == [] <==> value == 0
  {
    DecodeEncodeMPI(value);
    ReverseReverse(EncodeMPI(value));
    StackElement(ReverseBytes(EncodeMPI(value)))
  }

  /** The element built from a number has the fewest bytes of any element
      holding that number. */
  lemma FromBigIntegerMinimal(other: StackElement)
    ensures |FromBigInteger(GetBigInteger(other)).bytes| <= |other.bytes|
  {
    EncodeMPIMinimal(ReverseBytes(other.bytes));
  }

  /** The element for a truth value: the single byte 0x01 for true and 0x00
      for false. */
  function FromBoolean(isTrue: bool): (e: StackElement)
    ensures e.bytes == [if isTrue then 1 else 0]
    ensures Truthy(e.bytes) == isTrue
    ensures GetBigInteger(e) == if isTrue then 1 else 0
  {
    var e := StackElement([if isTrue then 1 else 0]);
    assert isTrue ==> CountsAsTrue(e.bytes, 0);
    assert ReverseBytes(e.bytes) == e.bytes;
    assert e.bytes[..0] == [] && [ClearSignBit(e.bytes[0])] + e.bytes[1..] == e.bytes;
    assert BigEndianValue(e.bytes) == e.bytes[0] as int;
    e
  }

  /* ---------------------------------------------------------------------
     Numeric view
     --------------------------------------------------------------------- */

  /** The signed number the element stands for: its bytes reversed and read
      as MPI. The sign is the top bit of the last stored byte. */
  function GetBigInteger(e: StackElement): (n: int)
    ensures e.bytes == [] ==> n == 0
    ensures n < 0 ==> e.bytes != [] && SignBitSet(e.bytes[|e.bytes| - 1])
    ensures n > 0 ==> e.bytes != [] && !SignBitSet(e.bytes[|e.bytes| - 1])
  {
    DecodeMPI(ReverseBytes(e.bytes))
  }

  /* ---------------------------------------------------------------------
     Truth value
     --------------------------------------------------------------------- */

  /** Byte `i` makes the element true: it is nonzero, and it is not the
      negative-zero sign byte 0x80 in the last position. */
  predicate CountsAsTrue(bytes: seq<uint8>, i: nat)
    requires i < |bytes|
  {
    bytes[i] != 0 && !(bytes[i] == 0x80 && i == |bytes| - 1)
  }

  /** The truth rule: some byte counts as true. */
  predicate Truthy(bytes: seq<uint8>)
  {
    exists i: nat :: i < |bytes| && CountsAsTrue(bytes, i)
  }

  /** `isTrue`: scans the bytes in stored order and stops at the first one
      that makes the element true. The answer is the element's number read
      as a truth value. */
  method IsTrue(e: StackElement) returns (isTrue: bool)
    ensures isTrue <==> Truthy(e.bytes)
    ensures isTrue <==> GetBigInteger(e) != 0
  {
    TruthyIffNonzero(e);
    isTrue := false;
    var i := 0;
    while i < |e.bytes| && !isTrue
      invariant 0 <= i <= |e.bytes|
      invariant isTrue <==> exists j: nat :: j < i && CountsAsTrue(e.bytes, j)
    {
      if e.bytes[i] == 0x80 {
        if i != |e.bytes| - 1 {
          isTrue := true;
        }
      } else if e.bytes[i] != 0 {
        isTrue := true;
      }
      assert isTrue <==> (exists j: nat :: j < i && CountsAsTrue(e.bytes, j)) || CountsAsTrue(e.bytes, i);
      i := i + 1;
    }
  }

  /** Any nonzero number is true and any zero, positive or negative, is
      false. */
  lemma TruthyIffNonzero(e: StackElement)
    ensures Truthy(e.bytes) <==> GetBigInteger(e) != 0
  {
    var b := e.bytes;
    if b != [] {
      var last := |b| - 1;
      var s := ReverseBytes(b);
      var m := [ClearSignBit(s[0])] + s[1..];
      assert GetBigInteger(e) == 0 <==> BigEndianValue(m) == 0;
      BigEndianZero(m);
      if Truthy(b) {
        var i: nat :| i < |b| && CountsAsTrue(b, i);
        assert m[last - i] != 0;
      } else {
        forall k | 0 <= k < |m| ensures m[k] == 0 {
          assert !CountsAsTrue(b, last - k);
        }
      }
    }
  }

  /** The cases of the truth rule worth spelling out: empty, zero, negative
      zero and a padded negative zero are false; a 0x80 anywhere but last is
      true. */
  lemma TruthTable()
    ensures !Truthy([]) && !Truthy([0x00]) && !Truthy([0x80]) && !Truthy([0x00, 0x80])
    ensures Truthy([0x01]) && Truthy([0x80, 0x00]) && Truthy([0x80, 0x01]) && Truthy([0x01, 0x80])
  {
    assert CountsAsTrue([0x01], 0);
    assert CountsAsTrue([0x80, 0x00], 0);
    assert CountsAsTrue([0x80, 0x01], 0);
    assert CountsAsTrue([0x01, 0x80], 0);
  }

  /* ---------------------------------------------------------------------
     Equality, hashing and ordering
     --------------------------------------------------------------------- */

  /** `equals`: the byte strings have the same length and the same bytes. */
  predicate Equals(a: StackElement, b: StackElement)
  {
    |a.bytes| == |b.bytes| && forall i :: 0 <= i < |a.bytes| ==> a.bytes[i] == b.bytes[i]
  }

  /** Byte-wise equality is equality of the values themselves, so it is an
      equivalence relation. */
  lemma EqualsIsIdentity(a: StackElement, b: StackElement, c: StackElement)
    ensures Equals(a, b) <==> a == b
    ensures Equals(a, a)
    ensures Equals(a, b) ==> Equals(b, a)
    ensures Equals(a, b) && Equals(b, c) ==> Equals(a, c)
  {
    if Equals(a, b) {
      assert a.bytes == b.bytes;
    }
  }

  /** Java's `byte` is signed: 0x80..0xff stand for -128..-1. */
  function JavaByte(b: uint8): (v: int)
    ensures -0x80 <= v < 0x80
    ensures (v - b as int) % 0x100 == 0
  {
    if b >= 0x80 then b as int - 0x100 else b as int
  }

  /** Java `int` arithmetic: wraps modulo 2^32 into -2^31..2^31-1. */
  function WrapInt32(x: int): (r: int)
    ensures -0x8000_0000 <= r < 0x8000_0000
    ensures (r - x) % 0x1_0000_0000 == 0
  {
    (x + 0x8000_0000) % 0x1_0000_0000 - 0x8000_0000
  }

  /** `Arrays.hashCode(byte[])`: starting from 1, each byte in turn gives
      31 * hash + byte, in 32-bit arithmetic. */
  function ArraysHashCode(a: seq<uint8>): (h: int)
    ensures -0x8000_0000 <= h < 0x8000_0000
  {
    if a == [] then 1 else WrapInt32(31 * ArraysHashCode(a[..|a| - 1]) + JavaByte(a[|a| - 1]))
  }

  /** `hashCode`, a function of the bytes alone. */
  function HashCode(e: StackElement): (h: int)
    ensures -0x8000_0000 <= h < 0x8000_0000
  {
    ArraysHashCode(e.bytes)
  }

  /** Equal elements have equal hash codes. */
  lemma HashCodeConsistent(a: StackElement, b: StackElement)
    requires Equals(a, b)
    ensures HashCode(a) == HashCode(b)
  {
    EqualsIsIdentity(a, b, b);
  }

  /** The hash does not separate all elements: [0x00, 0x1f] and [0x01, 0x00]
      collide. */
  lemma HashCodeCollision()
    ensures HashCode(StackElement([0x00, 0x1f])) == HashCode(StackElement([0x01, 0x00])) == 992
    ensures !Equals(StackElement([0x00, 0x1f]), StackElement([0x01, 0x00]))
  {
    assert WrapInt32(31) == 31 && WrapInt32(32) == 32 && WrapInt32(992) == 992;
    assert ArraysHashCode([0x00]) == 31 by {
      assert ([0x00 as uint8])[..0] == [];
    }
    assert ArraysHashCode([0x01]) == 32 by {
      assert ([0x01 as uint8])[..0] == [];
    }
    assert ArraysHashCode([0x00, 0x1f]) == 992 by {
      assert [0x00 as uint8, 0x1f][..1] == [0x00];
    }
    assert ArraysHashCode([0x01, 0x00]) == 992 by {
      assert [0x01 as uint8, 0x00][..1] == [0x01];
    }
  }

  /** `compareTo`: -1, 0 or 1 as the first element's number is below, equal
      to or above the second's. */
  function CompareTo(a: StackElement, b: StackElement): (r: int)
    ensures r == -1 || r == 0 || r == 1
    ensures r == -1 <==> GetBigInteger(a) < GetBigInteger(b)
    ensures r == 1 <==> GetBigInteger(a) > GetBigInteger(b)
  {
    var x, y := GetBigInteger(a), GetBigInteger(b);
    if x < y then -1 else if x > y then 1 else 0
  }

  /** The ordering is a total preorder: reflexive, antisymmetric in sign,
      transitive and total. */
  lemma CompareToIsTotalPreorder(a: StackElement, b: StackElement, c: StackElement)
    ensures CompareTo(a, a) == 0
    ensures CompareTo(a, b) == -CompareTo(b, a)
    ensures CompareTo(a, b) <= 0 && CompareTo(b, c) <= 0 ==> CompareTo(a, c) <= 0
    ensures CompareTo(a, b) == 0 && CompareTo(b, c) == 0 ==> CompareTo(a, c) == 0
  {
  }

  /** Elements built from numbers compare as the numbers do. */
  lemma CompareToMatchesIntegers(x: int, y: int)
    ensures CompareTo(FromBigInteger(x), FromBigInteger(y)) == if x < y then -1 else if x > y then 1 else 0
  {
  }

  /** Ordering is coarser than equality: equal elements compare as 0, but
      [0x01] and its padded form [0x01, 0x00] compare as 0 and are not
      equal, and so are [] and negative zero [0x80]. */
  lemma EqualsFinerThanCompareTo(a: StackElement, b: StackElement)
    ensures Equals(a, b) ==> CompareTo(a, b) == 0
    ensures CompareTo(StackElement([0x01]), StackElement([0x01, 0x00])) == 0
    ensures !Equals(StackElement([0x01]), StackElement([0x01, 0x00]))
    ensures CompareTo(StackElement([]), StackElement([0x80])) == 0
    ensures !Equals(StackElement([]), StackElement([0x80]))
  {
    EqualsIsIdentity(a, b, b);
    var padded := StackElement([0x01, 0x00]);
    assert ReverseBytes(padded.bytes) == [0x00, 0x01];
    assert [0x00 as uint8, 0x01][1..] == [0x01];
    LeadingZero([0x01]);
    assert ReverseBytes(StackElement([0x80]).bytes) == [0x80];
    assert GetBigInteger(StackElement([0x80])) == 0 by {
      assert ([0x80 as uint8])[1..] == [];
    }
  }

  /** Stack bytes of a few numbers: 0 is no bytes, 1 is [0x01] and -1 is
      [0x81]; 128 has its top bit set, so it needs a padding byte, [0x80,
      0x00], and -128 sets the sign on that byte, [0x80, 0x80]; 256 is
      [0x00, 0x01], least significant byte first. */
  lemma EncodingExamples()
    ensures FromBigInteger(0).bytes == []
    ensures FromBigInteger(1).bytes == [0x01] && FromBigInteger(-1).bytes == [0x81]
    ensures FromBigInteger(128).bytes == [0x80, 0x00] && FromBigInteger(-128).bytes == [0x80, 0x80]
    ensures FromBigInteger(256).bytes == [0x00, 0x01]
  {
    EncodeMPIUnits();
    EncodeMPIPadding();
    EncodeMPITwoBytes();
    assert ReverseBytes([0x01]) == [0x01];
    assert ReverseBytes([0x81]) == [0x81];
    assert ReverseBytes([0x00, 0x80]) == [0x80, 0x00];
    assert ReverseBytes([0x80, 0x80]) == [0x80, 0x80];
    assert ReverseBytes([0x01, 0x00]) == [0x00, 0x01];
  }
}
