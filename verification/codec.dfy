/** The byte codec of `types.cpp`: fixed-width integers written as their raw
    bytes and strings written as a 32-bit length followed by their bytes.

    A packet is a byte sequence. `Serialize*` appends an encoding to a packet;
    `Deserialize*` reads a prefix and returns the value together with the
    remaining bytes, which is what the C++ code's `erase` of the consumed
    prefix leaves behind. `types.cpp` copies bytes in host order; the model
    fixes that order to little-endian.
 */
module Codec {
  import opened Wrappers

  type byte = b: int | 0 <= b < 0x100
  type Bytes = seq<byte>
  type uint16 = x: int | 0 <= x < 0x1_0000
  type uint32 = x: int | 0 <= x < 0x1_0000_0000

  /** `size_t` values written as `uint32_t` wrap around modulo this. */
  const U32_MODULUS: nat := 0x1_0000_0000

  /** A decoded value and the bytes that follow it. */
  datatype Read<T> = Read(value: T, rest: Bytes)

  predicate Fits32(s: Bytes) {
    |s| < U32_MODULUS
  }

  /** A prefix of a prefix is a prefix. */
  lemma PrefixOfPrefix(a: Bytes, b: Bytes, c: Bytes)
    requires |c| <= |b| <= |a| && a[..|b|] == b && b[..|c|] == c
    ensures a[..|c|] == c
  {
    assert a[..|c|] == a[..|b|][..|c|];
  }

  lemma ConcatAssociative(a: Bytes, b: Bytes, c: Bytes)
    ensures (a + b) + c == a + (b + c)
  {
  }

  // ---------------------------------------------------------------------
  // Unsigned little-endian representation
  // ---------------------------------------------------------------------

  function Pow256(n: nat): (r: nat)
    ensures r > 0
  {
    if n == 0 then 1 else 0x100 * Pow256(n - 1)
  }

  /** The `width` bytes of `x`, least significant first. */
  function LittleEndian(width: nat, x: nat): (r: Bytes)
    requires x < Pow256(width)
    ensures |r| == width
  {
    if width == 0 then [] else [x % 0x100] + LittleEndian(width - 1, x / 0x100)
  }

  /** The number whose little-endian bytes are `bs`. */
  function FromLittleEndian(bs: Bytes): (r: nat)
    ensures r < Pow256(|bs|)
  {
    if |bs| == 0 then 0 else bs[0] + 0x100 * FromLittleEndian(bs[1..])
  }

  lemma {:induction false} FromLittleEndianOfLittleEndian(width: nat, x: nat)
    requires x < Pow256(width)
    ensures FromLittleEndian(LittleEndian(width, x)) == x
  {
    if width > 0 {
      var bs := LittleEndian(width, x);
      assert bs[1..] == LittleEndian(width - 1, x / 0x100);
      FromLittleEndianOfLittleEndian(width - 1, x / 0x100);
    }
  }

  lemma {:induction false} LittleEndianOfFromLittleEndian(bs: Bytes)
    ensures LittleEndian(|bs|, FromLittleEndian(bs)) == bs
  {
    if |bs| > 0 {
      var x := FromLittleEndian(bs);
      assert x % 0x100 == bs[0];
      assert x / 0x100 == FromLittleEndian(bs[1..]);
      LittleEndianOfFromLittleEndian(bs[1..]);
    }
  }

  // ---------------------------------------------------------------------
  // Number<T> for the eight integer instantiations
  // ---------------------------------------------------------------------

  /** The integer types `Number<T>` is instantiated with. */
  datatype IntType = Int8 | Int16 | Int32 | Int64 | UInt8 | UInt16 | UInt32 | UInt64 {

    /** `sizeof(T)`. */
    function Size(): nat {
      match this
      case Int8 | UInt8 => 1
      case Int16 | UInt16 => 2
      case Int32 | UInt32 => 4
      case Int64 | UInt64 => 8
    }

    predicate Signed() {
      Int8? || Int16? || Int32? || Int64?
    }

    /** The number of distinct values of `T`, `2^(8 * sizeof(T))`. */
    function Modulus(): (m: nat)
      ensures m == Pow256(Size())
    {
      assert Pow256(1) == 0x100;
      assert Pow256(2) == 0x1_0000;
      assert Pow256(3) == 0x100_0000;
      assert Pow256(4) == 0x1_0000_0000;
      assert Pow256(8) == 0x1_0000_0000 * Pow256(4) by {
        assert Pow256(5) == 0x100 * Pow256(4);
        assert Pow256(6) == 0x100 * Pow256(5);
        assert Pow256(7) == 0x100 * Pow256(6);
      }
      match this
      case Int8 | UInt8 => 0x100
      case Int16 | UInt16 => 0x1_0000
      case Int32 | UInt32 => 0x1_0000_0000
      case Int64 | UInt64 => 0x1_0000_0000_0000_0000
    }

    /** The values of `T`: two's complement when signed. */
    predicate Contains(x: int) {
      if Signed() then -(Modulus() / 2) <= x < Modulus() / 2
      else 0 <= x < Modulus()
    }
  }

  /** The unsigned number whose bytes are the in-memory bytes of `x`. */
  function ToRaw(t: IntType, x: int): (u: nat)
    requires t.Contains(x)
    ensures u < t.Modulus()
  {
    if x < 0 then x + t.Modulus() else x
  }

  /** The value of `T` whose in-memory bytes are those of `u`. */
  function FromRaw(t: IntType, u: nat): (x: int)
    requires u < t.Modulus()
    ensures t.Contains(x)
    ensures ToRaw(t, x) == u
  {
    if t.Signed() && u >= t.Modulus() / 2 then u - t.Modulus() else u
  }

  /** `Number<T>::Serialize(msg, packet)`: append the `sizeof(T)` raw bytes of `x`. */
  function SerializeNumber(t: IntType, x: int, packet: Bytes): (r: Bytes)
    requires t.Contains(x)
    ensures |r| == |packet| + t.Size()
    ensures r[..|packet|] == packet
  {
    packet + LittleEndian(t.Size(), ToRaw(t, x))
  }

  /** `Number<T>::Serialize(msg)`: the encoding on its own. */
  function EncodeNumber(t: IntType, x: int): Bytes
    requires t.Contains(x)
  {
    SerializeNumber(t, x, [])
  }

  /** `Number<T>::Deserialize(packet, msg)`, reporting a short packet as an error. */
  function DeserializeNumber(t: IntType, packet: Bytes): (r: Result<Read<int>>)
    ensures r.Ok? <==> |packet| >= t.Size()
    ensures r.Ok? ==> t.Contains(r.value.value) && r.value.rest == packet[t.Size()..]
    ensures r.Err? ==> r.error == Truncated(t.Size(), |packet|)
  {
    if |packet| < t.Size() then Err(Truncated(t.Size(), |packet|))
    else Ok(Read(FromRaw(t, FromLittleEndian(packet[..t.Size()])), packet[t.Size()..]))
  }

  /** Serializing appends exactly `sizeof(T)` bytes and keeps the packet as a prefix. */
  lemma SerializeNumberAppends(t: IntType, x: int, packet: Bytes)
    requires t.Contains(x)
    ensures |SerializeNumber(t, x, packet)| == |packet| + t.Size()
    ensures SerializeNumber(t, x, packet) == packet + EncodeNumber(t, x)
  {
  }

  /** Reading back what was written yields the value and leaves the rest untouched. */
  lemma NumberRoundTrip(t: IntType, x: int, rest: Bytes)
    requires t.Contains(x)
    ensures DeserializeNumber(t, EncodeNumber(t, x) + rest) == Ok(Read(x, rest))
  {
    var raw := LittleEndian(t.Size(), ToRaw(t, x));
    var packet := EncodeNumber(t, x) + rest;
    assert packet[..t.Size()] == raw;
    assert packet[t.Size()..] == rest;
    FromLittleEndianOfLittleEndian(t.Size(), ToRaw(t, x));
  }

  /** Every long-enough packet starts with the encoding of the value read from it. */
  lemma DeserializeNumberInverse(t: IntType, packet: Bytes)
    requires |packet| >= t.Size()
    ensures var r := DeserializeNumber(t, packet).value;
            packet == EncodeNumber(t, r.value) + r.rest
  {
    var r := DeserializeNumber(t, packet).value;
    LittleEndianOfFromLittleEndian(packet[..t.Size()]);
    assert EncodeNumber(t, r.value) == packet[..t.Size()];
  }

  /** The u32 length prefix of `String::Serialize` (the `size_t` is truncated). */
  function LengthPrefix(n: nat): uint32 {
    n % U32_MODULUS
  }

  lemma LengthPrefixExact(n: nat)
    requires n < U32_MODULUS
    ensures LengthPrefix(n) == n
  {
  }

  // ---------------------------------------------------------------------
  // String
  // ---------------------------------------------------------------------

  /** `String::Serialize(msg, packet)`: a u32 length, then the raw bytes. */
  function SerializeString(s: Bytes, packet: Bytes): (r: Bytes)
    ensures |r| == |packet| + 4 + |s|
    ensures r[..|packet|] == packet && r[|packet| + 4..] == s
  {
    SerializeNumber(UInt32, LengthPrefix(|s|), packet) + s
  }

  /** `String::Serialize(msg)`. */
  function EncodeString(s: Bytes): Bytes {
    SerializeString(s, [])
  }

  /** `String::Deserialize(packet, msg)`: the declared length, then that many bytes. */
  function DeserializeString(packet: Bytes): (r: Result<Read<Bytes>>)
    ensures r.Ok? <==> |packet| >= 4 && |packet| - 4 >= FromLittleEndian(packet[..4])
    ensures r.Ok? ==> Fits32(r.value.value)
  {
    var size :- DeserializeNumber(UInt32, packet);
    var n: nat := size.value;
    if |size.rest| < n then Err(Truncated(n, |size.rest|))
    else Ok(Read(size.rest[..n], size.rest[n..]))
  }

  /** A string read splits the packet into the length, the string and the rest,
      and the string is as long as the length says. */
  lemma DeserializeStringLayout(packet: Bytes)
    requires DeserializeString(packet).Ok?
    ensures var r := DeserializeString(packet).value;
            && packet == packet[..4] + r.value + r.rest
            && |r.value| == FromLittleEndian(packet[..4])
  {
  }

  /** The string encoding grows the packet by `4 + |s|` and keeps it as a prefix. */
  lemma SerializeStringAppends(s: Bytes, packet: Bytes)
    ensures |SerializeString(s, packet)| == |packet| + 4 + |s|
    ensures SerializeString(s, packet) == packet + EncodeString(s)
    ensures EncodeString(s) == EncodeNumber(UInt32, LengthPrefix(|s|)) + s
  {
  }

  lemma StringRoundTrip(s: Bytes, rest: Bytes)
    requires Fits32(s)
    ensures DeserializeString(EncodeString(s) + rest) == Ok(Read(s, rest))
  {
    var header := EncodeNumber(UInt32, |s|);
    assert EncodeString(s) + rest == header + (s + rest);
    NumberRoundTrip(UInt32, |s|, s + rest);
    assert (s + rest)[..|s|] == s;
    assert (s + rest)[|s|..] == rest;
  }

  /** The empty string is four zero bytes and reads back as itself. */
  lemma EmptyStringRoundTrip(rest: Bytes)
    ensures EncodeString([]) == [0, 0, 0, 0]
    ensures DeserializeString(EncodeString([]) + rest) == Ok(Read([], rest))
  {
    StringRoundTrip([], rest);
  }

  /** A packet too short for the declared string length is refused. */
  lemma DeserializeStringTruncated(n: uint32, body: Bytes)
    requires |body| < n
    ensures DeserializeString(EncodeNumber(UInt32, n) + body) == Err(Truncated(n, |body|))
  {
    NumberRoundTrip(UInt32, n, body);
  }

  // ---------------------------------------------------------------------
  // Consecutive fields
  // ---------------------------------------------------------------------

  /** One field of a packet: a number of some integer type, or a string. */
  datatype Field = Number(t: IntType, x: int) | Text(s: Bytes) {
    predicate Valid() {
      match this
      case Number(t, x) => t.Contains(x)
      case Text(s) => Fits32(s)
    }
  }

  function SerializeField(f: Field, packet: Bytes): Bytes
    requires f.Valid()
  {
    match f
    case Number(t, x) => SerializeNumber(t, x, packet)
    case Text(s) => SerializeString(s, packet)
  }

  /** Read a field of the same shape as `f`. */
  function DeserializeField(f: Field, packet: Bytes): Result<Read<Field>> {
    match f
    case Number(t, _) =>
      var r :- DeserializeNumber(t, packet);
      Ok(Read(Number(t, r.value), r.rest))
    case Text(_) =>
      var r :- DeserializeString(packet);
      Ok(Read(Text(r.value), r.rest))
  }

  predicate AllValid(fs: seq<Field>) {
    forall i | 0 <= i < |fs| :: fs[i].Valid()
  }

  lemma AllValidTail(fs: seq<Field>)
    requires |fs| > 0 && AllValid(fs)
    ensures fs[0].Valid() && AllValid(fs[1..])
  {
    forall i | 0 <= i < |fs| - 1 ensures fs[1..][i].Valid() {
      assert fs[1..][i] == fs[i + 1];
    }
  }

  /** The fields written one after another into an empty packet. */
  function EncodeFields(fs: seq<Field>): Bytes
    requires AllValid(fs)
  {
    if |fs| == 0 then [] else
      AllValidTail(fs);
      SerializeField(fs[0], []) + EncodeFields(fs[1..])
  }

  /** Read fields of the shapes `fs` one after another, each from what the previous left. */
  function DeserializeFields(fs: seq<Field>, packet: Bytes): Result<Read<seq<Field>>> {
    if |fs| == 0 then Ok(Read([], packet))
    else
      var head :- DeserializeField(fs[0], packet);
      var tail :- DeserializeFields(fs[1..], head.rest);
      Ok(Read([head.value] + tail.value, tail.rest))
  }

  lemma FieldRoundTrip(f: Field, rest: Bytes)
    requires f.Valid()
    ensures DeserializeField(f, SerializeField(f, []) + rest) == Ok(Read(f, rest))
  {
    match f
    case Number(t, x) => NumberRoundTrip(t, x, rest);
    case Text(s) => StringRoundTrip(s, rest);
  }

  /** Because each read removes exactly what it consumed, reading the fields back
      in the order they were written recovers every one of them. */
  lemma {:induction false} FieldsRoundTrip(fs: seq<Field>, rest: Bytes)
    requires AllValid(fs)
    ensures DeserializeFields(fs, EncodeFields(fs) + rest) == Ok(Read(fs, rest))
  {
    if |fs| > 0 {
      AllValidTail(fs);
      var head := SerializeField(fs[0], []);
      var tail := EncodeFields(fs[1..]);
      var packet := EncodeFields(fs) + rest;
      assert EncodeFields(fs) == head + tail;
      ConcatAssociative(head, tail, rest);
      FieldRoundTrip(fs[0], tail + rest);
      assert DeserializeField(fs[0], packet) == Ok(Read(fs[0], tail + rest));
      FieldsRoundTrip(fs[1..], rest);
      assert DeserializeFields(fs[1..], tail + rest) == Ok(Read(fs[1..], rest));
      assert [fs[0]] + fs[1..] == fs;
    } else {
      assert EncodeFields(fs) + rest == rest;
    }
  }
}
