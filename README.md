# StackElement: the script stack's value type, in Dafny

JavaBitcoin's script interpreter keeps a stack of `StackElement`s. Each one is an
immutable string of bytes, and the interpreter can read it in three ways:

- **As a signed number.** The bytes are reversed and read as an OpenSSL MPI
  without the four-byte length prefix: big-endian sign-magnitude, with the sign
  in the top bit of the most significant byte. On the stack this reads as
  little-endian, with the sign in the top bit of the last byte. The empty
  string is zero.
- **As a truth value.** Any nonzero byte makes the element true, except a 0x80
  in the last position, which is "negative zero".
- **Under comparison.** `equals` compares the bytes exactly; `compareTo` compares
  the numbers.

The model has two modules:

- `Mpi` (`mpi.dfy`) holds the byte-level codec: the `uint8` byte, byte
  reversal, the big-endian value of a byte string, the minimal big-endian
  magnitude, and MPI encoding and decoding. It also proves the round trip
  and that the encoding is the shortest possible.
- `StackElements` (`stack_element.dfy`) holds the datatype `StackElement(bytes)`
  and its operations.
  - The byte[] constructor is the datatype constructor. `getBytes` is the
    `bytes` field.
  - The copy, BigInteger and boolean constructors are functions.
  - `getBigInteger`, `hashCode`, `equals` and `compareTo` are functions and
    predicates.
  - `isTrue` is a method that keeps the source's loop. It is proved equal to
    the predicate `Truthy`, and equal to "the number is not zero".

Bytes are modelled as their unsigned values 0..255. Java's signed view of a
byte matters only to `Arrays.hashCode`, and `JavaByte` supplies it there.
Java's `int` wrap-around in that hash is written out in `WrapInt32`.

The copy constructor (StackElement.java:46-48) shares the source element's
array and does not duplicate it. Since a Dafny `seq` is immutable, sharing and
copying cannot be told apart in this model. The `@return` note at
StackElement.java:83 calls the decoded value unsigned, but the value is signed,
and it is modelled as signed.

## Model

| member | source | states |
|---|---|---|
| `Mpi.ReverseBytes` | src/main/java/org/ScripterRon/JavaBitcoin/StackElement.java:57 | the reversed string has the same length, and byte i is the input's byte n-1-i |
| `Mpi.ReverseReverse` | src/main/java/org/ScripterRon/JavaBitcoin/StackElement.java:85-87 | reversing the stored bytes twice gives them back, so reading the number undoes the reversal made when it was stored |
| `Mpi.MinimalBigEndian` | src/main/java/org/ScripterRon/JavaBitcoin/StackElement.java:50-57 | the magnitude bytes have the number's big-endian value; they are empty only for zero and never start with 0x00 |
| `Mpi.EncodeMPI` | src/main/java/org/ScripterRon/JavaBitcoin/StackElement.java:50-57 | MPI without length prefix: empty exactly for zero; otherwise the first byte's top bit is set exactly when the value is negative |
| `Mpi.DecodeMPI` | src/main/java/org/ScripterRon/JavaBitcoin/StackElement.java:79-86 | the empty string decodes to 0; a negative result needs the sign bit of the first byte, and a positive one needs it clear |
| `Mpi.DecodeEncodeMPI` | src/main/java/org/ScripterRon/JavaBitcoin/StackElement.java:56-58 | decoding the MPI encoding of any integer gives that integer back |
| `Mpi.EncodeMPIMinimal` | src/main/java/org/ScripterRon/JavaBitcoin/StackElement.java:50-58 | for every byte string, the encoding of its decoded value is no longer than it |
| `Mpi.EncodeMPIUnits` | src/main/java/org/ScripterRon/JavaBitcoin/StackElement.java:50-57 | in MPI form 0 is [], 1 is [0x01] and -1 is [0x81] |
| `Mpi.EncodeMPIPadding` | src/main/java/org/ScripterRon/JavaBitcoin/StackElement.java:50-57 | 128 already uses the top bit, so its MPI form is [0x00,0x80]; -128 sets the sign on the padding byte, [0x80,0x80] |
| `Mpi.EncodeMPITwoBytes` | src/main/java/org/ScripterRon/JavaBitcoin/StackElement.java:50-57 | 256 is [0x01,0x00] in MPI form, most significant byte first |
| `Mpi.LeadingZero` | src/main/java/org/ScripterRon/JavaBitcoin/StackElement.java:50-52 | the 0x00 byte put in front of a magnitude whose top bit is set does not change its value |
| `Mpi.BigEndianZero` | src/main/java/org/ScripterRon/JavaBitcoin/StackElement.java:89-91 | a magnitude is zero exactly when all its bytes are zero |
| `StackElements.Copy` | src/main/java/org/ScripterRon/JavaBitcoin/StackElement.java:46-48 | the copy holds the source's bytes, so it is `equals` to the source, has the same hash code and decoded value, and compares as 0 with it |
| `StackElements.FromBigInteger` | src/main/java/org/ScripterRon/JavaBitcoin/StackElement.java:50-58 | `getBigInteger` of the element is the integer it was built from; zero, and only zero, gives no bytes |
| `StackElements.FromBigIntegerMinimal` | src/main/java/org/ScripterRon/JavaBitcoin/StackElement.java:50-58 | the element built from the number any element holds has no more bytes than that element: the stored encoding is the shortest one |
| `StackElements.FromBoolean` | src/main/java/org/ScripterRon/JavaBitcoin/StackElement.java:60-68 | true gives exactly [0x01] and false exactly [0x00]; its truth value is the boolean it was built from, and its number is 1 or 0 |
| `StackElements.GetBigInteger` | src/main/java/org/ScripterRon/JavaBitcoin/StackElement.java:79-87 | an empty element is 0; a negative value needs the top bit of the last stored byte set, and a positive one needs it clear |
| `StackElements.IsTrue` | src/main/java/org/ScripterRon/JavaBitcoin/StackElement.java:89-106 | the loop answers true exactly when some byte is nonzero and is not a 0x80 in the last position; that is, exactly when the number is not zero |
| `StackElements.TruthyIffNonzero` | src/main/java/org/ScripterRon/JavaBitcoin/StackElement.java:89-91 | the truth rule holds exactly when the decoded number is nonzero, so positive and negative zero are both false |
| `StackElements.TruthTable` | src/main/java/org/ScripterRon/JavaBitcoin/StackElement.java:95-106 | [], [0x00], [0x80] and [0x00,0x80] are false; [0x01], [0x80,0x00], [0x80,0x01] and [0x01,0x80] are true |
| `StackElements.EqualsIsIdentity` | src/main/java/org/ScripterRon/JavaBitcoin/StackElement.java:118-131 | `equals` (same length, same bytes) holds exactly when the two elements are the same value; it is reflexive, symmetric and transitive |
| `StackElements.ArraysHashCode` | src/main/java/org/ScripterRon/JavaBitcoin/StackElement.java:115 | the hash of the bytes is always a 32-bit Java `int` |
| `StackElements.HashCode` | src/main/java/org/ScripterRon/JavaBitcoin/StackElement.java:108-116 | the element's hash code is always a 32-bit Java `int` |
| `StackElements.HashCodeConsistent` | src/main/java/org/ScripterRon/JavaBitcoin/StackElement.java:113-131 | elements that are `equals` have the same hash code |
| `StackElements.HashCodeCollision` | src/main/java/org/ScripterRon/JavaBitcoin/StackElement.java:114-116 | [0x00,0x1f] and [0x01,0x00] both hash to 992 but are not `equals`, so equal hashes do not imply equal elements |
| `StackElements.CompareTo` | src/main/java/org/ScripterRon/JavaBitcoin/StackElement.java:133-144 | the result is -1, 0 or 1; it is -1 exactly when the first number is smaller and 1 exactly when it is larger |
| `StackElements.CompareToIsTotalPreorder` | src/main/java/org/ScripterRon/JavaBitcoin/StackElement.java:140-144 | `compareTo` is reflexive, antisymmetric (swapping the arguments negates the result) and transitive, both for "at most" and for "compares as 0" |
| `StackElements.CompareToMatchesIntegers` | src/main/java/org/ScripterRon/JavaBitcoin/StackElement.java:136-144 | elements built from any two integers, of any size or sign, compare as the integers do |
| `StackElements.EqualsFinerThanCompareTo` | src/main/java/org/ScripterRon/JavaBitcoin/StackElement.java:125-144 | `equals` implies `compareTo` is 0, but not the other way round: [0x01] against [0x01,0x00], and [] against negative zero [0x80], compare as 0 and are not `equals` |
| `StackElements.EncodingExamples` | src/main/java/org/ScripterRon/JavaBitcoin/StackElement.java:50-58 | on the stack, 0 is stored as [], 1 as [0x01] and -1 as [0x81]; 128 is [0x80,0x00] with a padding byte, -128 is [0x80,0x80], and 256 is [0x00,0x01], least significant byte first |

## Left out

- `Utils.reverseBytes`, `Utils.encodeMPI` and `Utils.decodeMPI`: Utils.java is not part of this model. `ReverseBytes`, `EncodeMPI` and `DecodeMPI` follow the MPI format that StackElement.java:50-52 and 79-81 describe, with no length prefix. They are not claimed to mirror that file line by line.
- `RequestException`: it only carries an error code and a message, so there is nothing to verify in it.
- Java `BigInteger` is Dafny's unbounded `int`. Its internal representation is not modelled.
- Array aliasing: the byte[] constructor, the copy constructor and `getBytes` share the array without copying it. An immutable `seq` cannot be changed through a shared reference, so later mutation through that array is not modelled.
- `equals(Object)` with `null` or a non-`StackElement` argument (the check at StackElement.java:127): Dafny's typing only admits two stack elements.
