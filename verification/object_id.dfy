/**
 * The document identifier `bson.ObjectID`: twelve bytes, written in requests
 * and responses as 24 hexadecimal digits (`Hex`, `ObjectIDFromHex`).
 */
module ObjectIds {
  import opened Go

  type Byte = x: int | 0 <= x < 256

  type ObjectId = bs: seq<Byte> | |bs| == 12 witness [0, 0, 0, 0, 0, 0, 0, 0, 0, 0, 0, 0]

  /** The zero value `bson.NilObjectID`. */
  const NilObjectId: ObjectId := [0, 0, 0, 0, 0, 0, 0, 0, 0, 0, 0, 0]

  /** The lower-case digit for a nibble, as `Hex` writes it. */
  function HexDigit(n: nat): (c: char)
    requires n < 16
    ensures IsLowerHexDigit(c)
  {
    if n < 10 then ('0' as int + n) as char else ('a' as int + n - 10) as char
  }

  predicate IsLowerHexDigit(c: char) {
    '0' <= c <= '9' || 'a' <= c <= 'f'
  }

  predicate IsHexDigit(c: char) {
    '0' <= c <= '9' || 'a' <= c <= 'f' || 'A' <= c <= 'F'
  }

  predicate AllHexDigits(s: string) {
    forall i :: 0 <= i < |s| ==> IsHexDigit(s[i])
  }

  /** The strings `ObjectIDFromHex` accepts: exactly 24 hexadecimal digits, in either case. */
  predicate IsObjectIdHex(s: string) {
    |s| == 24 && AllHexDigits(s)
  }

  function DigitValue(c: char): (v: nat)
    requires IsHexDigit(c)
    ensures v < 16
    ensures IsLowerHexDigit(c) ==> HexDigit(v) == c
  {
    if '0' <= c <= '9' then (c - '0') as nat
    else if 'a' <= c <= 'f' then (c - 'a') as nat + 10
    else (c - 'A') as nat + 10
  }

  /** `hex.EncodeToString`: two lower-case digits per byte, high nibble first. */
  function EncodeHex(bs: seq<Byte>): (s: string)
    ensures |s| == 2 * |bs|
    ensures forall i :: 0 <= i < |s| ==> IsLowerHexDigit(s[i])
  {
    if bs == [] then ""
    else [HexDigit(bs[0] / 16), HexDigit(bs[0] % 16)] + EncodeHex(bs[1..])
  }

  /** `hex.Decode` on input it accepts. */
  function DecodeHex(s: string): (bs: seq<Byte>)
    requires |s| % 2 == 0 && AllHexDigits(s)
    ensures 2 * |bs| == |s|
  {
    if s == [] then []
    else [16 * DigitValue(s[0]) + DigitValue(s[1])] + DecodeHex(s[2..])
  }

  /** `ObjectID.Hex()`. */
  function Hex(id: ObjectId): (s: string)
    ensures IsObjectIdHex(s)
    ensures forall i :: 0 <= i < |s| ==> IsLowerHexDigit(s[i])
  {
    EncodeHex(id)
  }

  /** Why `ObjectIDFromHex` refused a string: the length check or `hex.Decode`. */
  datatype HexError = WrongLength | InvalidByte

  datatype ParsedId = Parsed(id: ObjectId) | Invalid(cause: HexError)

  /**
   * `bson.ObjectIDFromHex`: the length is checked in bytes first, then every
   * byte must be a hexadecimal digit.
   */
  function ObjectIdFromHex(s: string): (r: ParsedId)
    ensures r.Parsed? <==> IsObjectIdHex(s)
    ensures r == Invalid(WrongLength) <==> ByteLength(s) != 24
  {
    if ByteLength(s) != 24 then Invalid(WrongLength)
    else if AllHexDigits(s) then
      assert IsAscii(s) by {
        forall i | 0 <= i < |s| ensures (s[i] as int) < 0x80 { assert IsHexDigit(s[i]); }
      }
      Parsed(DecodeHex(s))
    else Invalid(InvalidByte)
  }

  lemma {:induction false} DecodeEncodeHex(bs: seq<Byte>)
    ensures AllHexDigits(EncodeHex(bs))
    ensures DecodeHex(EncodeHex(bs)) == bs
  {
    if bs != [] {
      DecodeEncodeHex(bs[1..]);
      var s := EncodeHex(bs);
      var hi, lo := HexDigit(bs[0] / 16), HexDigit(bs[0] % 16);
      assert s == [hi, lo] + EncodeHex(bs[1..]);
      assert s[2..] == EncodeHex(bs[1..]);
      assert DigitValue(hi) == bs[0] / 16 && DigitValue(lo) == bs[0] % 16;
    }
  }

  /** Every identifier survives the trip through its hexadecimal form. */
  lemma HexRoundTrip(id: ObjectId)
    ensures ObjectIdFromHex(Hex(id)) == Parsed(id)
  {
    DecodeEncodeHex(id);
  }

  /** Distinct identifiers have distinct hexadecimal forms. */
  lemma HexInjective(a: ObjectId, b: ObjectId)
    ensures Hex(a) == Hex(b) ==> a == b
  {
    HexRoundTrip(a);
    HexRoundTrip(b);
  }
}
