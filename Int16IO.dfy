/** Writing a 16-bit signed integer as two bytes in a chosen byte order
    (IO/Int16Extensions.cs). */
module Int16IO {
  import opened Common

  /** The `Endianness` enum. A C# enum variable can hold any value of its
      underlying type, so the values the enum does not name are kept too:
      `Unnamed(code)` stands only for a code that is neither member's
      numeric value (the enum's declaration is not part of this model), so
      a value equal to `BigEndian`'s is written `BigEndian`. */
  datatype Endianness = LittleEndian | BigEndian | Unnamed(code: int)

  /** The 16-bit two's-complement pattern of `value`, read as unsigned. */
  function Pattern(value: Int16): (u: nat)
    ensures u < 0x1_0000 && (u - value) % 0x1_0000 == 0
  {
    if value < 0 then value + 0x1_0000 else value
  }

  /** The two bytes `TryWriteBytes` writes: high byte first for `BigEndian`,
      low byte first for every other value of the enum. */
  function Encode(value: Int16, endianness: Endianness): (bytes: seq<Byte>)
    ensures |bytes| == 2
    ensures endianness == BigEndian ==> 0x100 * (bytes[0] as int) + bytes[1] == Pattern(value)
    ensures endianness != BigEndian ==> 0x100 * (bytes[1] as int) + bytes[0] == Pattern(value)
  {
    var u := Pattern(value);
    var high, low := u / 0x100, u % 0x100;
    if endianness == BigEndian then [high, low] else [low, high]
  }

  /** Reading two bytes back as a 16-bit signed integer in the given order,
      as `BinaryPrimitives.ReadInt16BigEndian`/`LittleEndian` do. */
  function Decode(bytes: seq<Byte>, endianness: Endianness): Int16
    requires |bytes| == 2
  {
    var u := if endianness == BigEndian then 0x100 * (bytes[0] as int) + bytes[1]
             else 0x100 * (bytes[1] as int) + bytes[0];
    if u >= 0x8000 then u - 0x1_0000 else u
  }

  /** Decoding with the same byte order gives the value back. */
  lemma RoundTrip(value: Int16, endianness: Endianness)
    ensures Decode(Encode(value, endianness), endianness) == value
  {
  }

  /** The two byte orders are each other's reverse. */
  lemma OrdersAreReversed(value: Int16, other: Endianness)
    requires other != BigEndian
    ensures Encode(value, BigEndian) == [Encode(value, other)[1], Encode(value, other)[0]]
  {
  }

  /** 420 is 0x01A4. */
  lemma Example420()
    ensures Encode(420, BigEndian) == [0x01, 0xA4]
    ensures Encode(420, LittleEndian) == [0xA4, 0x01]
    ensures Decode([0x01, 0xA4], BigEndian) == 420
    ensures Decode([0xA4, 0x01], LittleEndian) == 420
  {
  }

  /** `TryWriteBytes(value, destination, endianness)`: false, writing
      nothing, when fewer than two bytes fit; otherwise the two bytes go to
      elements 0 and 1 and the rest of the destination is unchanged. */
  method TryWriteBytes(value: Int16, destination: array<Byte>, endianness: Endianness) returns (ok: bool)
    modifies destination
    ensures ok <==> destination.Length >= 2
    ensures !ok ==> destination[..] == old(destination[..])
    ensures ok ==> destination[..2] == Encode(value, endianness)
    ensures ok ==> destination[2..] == old(destination[2..])
  {
    if destination.Length < 2 {
      return false;
    }
    var bytes := Encode(value, endianness);
    destination[0] := bytes[0];
    destination[1] := bytes[1];
    return true;
  }

  /** `GetBytes(value, endianness)`: a fresh two-byte array holding what
      `TryWriteBytes` writes. */
  method GetBytes(value: Int16, endianness: Endianness) returns (bytes: array<Byte>)
    ensures fresh(bytes) && bytes[..] == Encode(value, endianness)
  {
    var buffer := new Byte[2];
    var written := TryWriteBytes(value, buffer, endianness);
    bytes := new Byte[2](i requires 0 <= i < 2 reads buffer => buffer[i]);
  }
}
