/** IntegerConstantValueTag: the ConstantValue attribute of a field whose type is int.
    It keeps the value and its four-byte big-endian class-file encoding. */
module IntTag {
  import opened Decimal

  const TWO_31: int := 0x8000_0000
  const TWO_32: int := 0x1_0000_0000

  /** A Java int. */
  type Int32 = x: int | -TWO_31 <= x < TWO_31

  /** A Java byte. */
  type Byte = x: int | -128 <= x < 128

  /** Two's-complement wrap-around of an int-typed Java expression. */
  function Wrap32(x: int): (r: Int32)
    ensures (r - x) % TWO_32 == 0
  {
    (x + TWO_31) % TWO_32 - TWO_31
  }

  /** `v >> n` on a Java int is an arithmetic shift: the floor of v / 2^n. */
  function ShiftRight(v: Int32, n: nat): (r: int)
    requires n in {0, 8, 16, 24}
    ensures var d := if n == 0 then 1 else if n == 8 then 0x100 else if n == 16 then 0x1_0000 else 0x100_0000;
            d * r <= v < d * r + d
  {
    if n == 0 then v else if n == 8 then v / 0x100 else if n == 16 then v / 0x1_0000 else v / 0x100_0000
  }

  /** `x & 0xff`: the low eight bits of x, read as an unsigned number. */
  function LowByte(x: int): (r: int)
    ensures 0 <= r < 0x100
  {
    x % 0x100
  }

  /** The narrowing conversion `(byte) x` of a value in 0..255. */
  function ToByte(x: int): (b: Byte)
    requires 0 <= x < 0x100
    ensures b % 0x100 == x
  {
    if x < 0x80 then x else x - 0x100
  }

  /** The constructor's encoding: byte k holds bits 31-8k .. 24-8k of the value. */
  function Encode(value: Int32): (bytes: seq<Byte>)
    ensures |bytes| == 4
  {
    [ToByte(LowByte(ShiftRight(value, 24))), ToByte(LowByte(ShiftRight(value, 16))),
     ToByte(LowByte(ShiftRight(value, 8))), ToByte(LowByte(ShiftRight(value, 0)))]
  }

  /** How a class-file reader reassembles four big-endian bytes into a signed int. */
  function Decode(bytes: seq<Byte>): Int32
    requires |bytes| == 4
  {
    Wrap32(LowByte(bytes[0]) * 0x100_0000 + LowByte(bytes[1]) * 0x1_0000 +
           LowByte(bytes[2]) * 0x100 + LowByte(bytes[3]))
  }

  /** Euclidean division is determined by its quotient and remainder. */
  lemma DivModUnique(x: int, d: int, q: int, r: int)
    requires d > 0 && 0 <= r < d && x == q * d + r
    ensures x / d == q && x % d == r
  {
    var k := q - x / d;
    assert k * d == x % d - r;
    if k >= 1 {
      MulAtLeast(k, d);
      assert false;
    } else if k <= -1 {
      MulAtLeast(-k, d);
      assert false;
    }
  }

  lemma MulAtLeast(k: int, d: int)
    requires k >= 1 && d > 0
    ensures k * d >= d
  {
  }

  /** The four bytes of a Java int: a signed high byte and three unsigned lower ones. */
  lemma SplitBytes(value: Int32) returns (hi: int, c1: int, c2: int, c3: int)
    ensures -0x80 <= hi < 0x80 && 0 <= c1 < 0x100 && 0 <= c2 < 0x100 && 0 <= c3 < 0x100
    ensures value == hi * 0x100_0000 + c1 * 0x1_0000 + c2 * 0x100 + c3
  {
    c3 := value % 0x100;
    var v1 := value / 0x100;
    c2 := v1 % 0x100;
    var v2 := v1 / 0x100;
    c1 := v2 % 0x100;
    hi := v2 / 0x100;
  }

  /** The three shifts the constructor makes drop the low bytes. */
  lemma ShiftsOfSplit(value: Int32, hi: int, c1: int, c2: int, c3: int)
    requires 0 <= c1 < 0x100 && 0 <= c2 < 0x100 && 0 <= c3 < 0x100
    requires value == hi * 0x100_0000 + c1 * 0x1_0000 + c2 * 0x100 + c3
    ensures ShiftRight(value, 24) == hi
    ensures ShiftRight(value, 16) == hi * 0x100 + c1
    ensures ShiftRight(value, 8) == hi * 0x1_0000 + c1 * 0x100 + c2
  {
    DivModUnique(value, 0x100_0000, hi, c1 * 0x1_0000 + c2 * 0x100 + c3);
    DivModUnique(value, 0x1_0000, hi * 0x100 + c1, c2 * 0x100 + c3);
    DivModUnique(value, 0x100, hi * 0x1_0000 + c1 * 0x100 + c2, c3);
  }

  /** `& 0xff` keeps the last byte of a number written in base 256. */
  lemma LowByteOf(q: int, c: int)
    requires 0 <= c < 0x100
    ensures LowByte(q * 0x100 + c) == c
  {
    DivModUnique(q * 0x100 + c, 0x100, q, c);
  }

  /** Reassembling the encoding gives back the value, negative values included. */
  lemma DecodeEncode(value: Int32)
    ensures Decode(Encode(value)) == value
  {
    var hi, c1, c2, c3 := SplitBytes(value);
    ShiftsOfSplit(value, hi, c1, c2, c3);
    LowByteOf(hi, c1);
    LowByteOf(hi * 0x100 + c1, c2);
    LowByteOf(value / 0x100, c3);
    // the high byte reads back as hi + 0x100 * q, which wrap-around removes again
    var q := if hi < 0 then 1 else 0;
    LowByteOf(-q, hi + 0x100 * q);
    var bytes := Encode(value);
    assert LowByte(bytes[0]) == hi + 0x100 * q;
    assert LowByte(bytes[1]) == c1 && LowByte(bytes[2]) == c2 && LowByte(bytes[3]) == c3;
    DivModUnique(value + q * TWO_32 + TWO_31, TWO_32, q, value + TWO_31);
  }

  /** An IntegerConstantValueTag object: its `value` field and the `bytes` it inherits. */
  datatype Tag = Tag(value: Int32, bytes: seq<Byte>)

  /** The class invariant the constructor establishes. */
  predicate Valid(t: Tag) {
    t.bytes == Encode(t.value)
  }

  /** `new IntegerConstantValueTag(value)`. */
  function NewTag(value: Int32): (t: Tag)
    ensures Valid(t) && t.value == value
    ensures |t.bytes| == 4 && Decode(t.bytes) == value
  {
    DecodeEncode(value);
    Tag(value, Encode(value))
  }

  /** getIntValue(): the value, which is also what the stored bytes decode to. */
  function GetIntValue(t: Tag): (r: Int32)
    requires Valid(t)
    ensures r == Decode(t.bytes)
  {
    DecodeEncode(t.value);
    t.value
  }

  /** Jimple's IntConstant. */
  datatype IntConstant = IntConstant(value: Int32)

  /** getConstant(): an IntConstant holding the tag's value. */
  function GetConstant(t: Tag): (c: IntConstant)
    requires Valid(t)
    ensures c.value == GetIntValue(t) == Decode(t.bytes)
  {
    DecodeEncode(t.value);
    IntConstant(t.value)
  }

  const ToStringPrefix: string := "ConstantValue: "

  /** toString(): "ConstantValue: " followed by Integer.toString(value). */
  function ToString(t: Tag): (s: string)
    ensures |s| > |ToStringPrefix| && s[..|ToStringPrefix|] == ToStringPrefix
    ensures var rest := s[|ToStringPrefix|..];
            IsCanonicalInt(rest) && (rest[0] == '-' <==> t.value < 0) && ParseInt(rest) == t.value
  {
    IntToStringRoundTrip(t.value);
    ToStringPrefix + IntToString(t.value)
  }

  /** hashCode(): `31 * super.hashCode() + value`, evaluated in int arithmetic. */
  function HashCode(t: Tag, superHash: Int32): (h: Int32)
    ensures (h - (31 * superHash + t.value)) % TWO_32 == 0
  {
    var result := superHash;
    var product := Wrap32(31 * result);
    Wrap32(product + t.value)
  }

  /** For a fixed super hash the hash code tells all values apart. */
  lemma HashCodeSeparatesValues(t1: Tag, t2: Tag, superHash: Int32)
    requires t1.value != t2.value
    ensures HashCode(t1, superHash) != HashCode(t2, superHash)
  {
    var h1, h2 := HashCode(t1, superHash), HashCode(t2, superHash);
    if h1 == h2 {
      // the values would differ by a non-zero multiple of 2^32, which two ints cannot
      var x1, x2 := h1 - (31 * superHash + t1.value), h2 - (31 * superHash + t2.value);
      var d := t1.value - t2.value;
      assert d == x2 - x1;
      DivModUnique(d, TWO_32, x2 / TWO_32 - x1 / TWO_32, 0);
      if d > 0 {
        DivModUnique(d, TWO_32, 0, d);
        assert false;
      } else {
        DivModUnique(d, TWO_32, -1, d + TWO_32);
        assert false;
      }
    }
  }

  const TagClass: string := "soot.tagkit.IntegerConstantValueTag"

  /** A Java object an `equals` argument may be: an IntegerConstantValueTag or an object of
      another class, each with its identity `ref`. */
  datatype Obj = TagObj(ref: nat, tag: Tag) | OtherObj(ref: nat, cls: string)

  /** getClass() of an object, by name. */
  function ClassOf(o: Obj): string {
    match o
    case TagObj(_, _) => TagClass
    case OtherObj(_, cls) => cls
  }

  /** A heap is consistent when an object's class name tells its shape and equal references
      denote the same object. */
  predicate Consistent(a: Obj, b: Obj) {
    && (a.OtherObj? ==> a.cls != TagClass)
    && (b.OtherObj? ==> b.cls != TagClass)
    && (a.ref == b.ref ==> a == b)
  }

  /** `self.equals(obj)`, where `superEquals` is the result of ConstantValueTag.equals(obj). */
  function Equals(self: Obj, obj: Obj, superEquals: bool): (r: bool)
    requires self.TagObj? && Consistent(self, obj)
    ensures r <==> self == obj || (superEquals && obj.TagObj? && obj.tag.value == self.tag.value)
  {
    if self.ref == obj.ref then true
    else if !superEquals then false
    else if ClassOf(self) != ClassOf(obj) then false
    else if self.tag.value != obj.tag.value then false
    else true
  }

  /** equals is reflexive whatever the superclass says. */
  lemma EqualsReflexive(self: Obj, superEquals: bool)
    requires self.TagObj?
    ensures Equals(self, self, superEquals)
  {
  }

  /** equals is symmetric when the superclass's verdict is. */
  lemma EqualsSymmetric(a: Obj, b: Obj, superEquals: bool)
    requires a.TagObj? && b.TagObj? && Consistent(a, b)
    ensures Equals(a, b, superEquals) == Equals(b, a, superEquals)
  {
  }

  /** Equal tags whose super hashes agree have the same hash code. */
  lemma EqualsAgreesWithHashCode(a: Obj, b: Obj, superEquals: bool, superHash: Int32)
    requires a.TagObj? && b.TagObj? && Consistent(a, b)
    requires Equals(a, b, superEquals)
    ensures HashCode(a.tag, superHash) == HashCode(b.tag, superHash)
  {
  }
}
