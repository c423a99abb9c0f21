/**
 * Identifiers of the in-memory workspace. Record ids are derived from the
 * workspace's id counter and attachment ids from the attachment's bytes.
 * The crate hashes both with SHA-256; the model keeps the hashed text
 * itself, which is already injective, and proves that it is.
 */
module Ids {

  import opened Core

  const HexDigits: string := "0123456789abcdef"

  /** The lower-case hexadecimal digit for d. */
  function HexDigit(d: nat): char
    requires d < 16
  {
    HexDigits[d]
  }

  /** The value of a lower-case hexadecimal digit (0 for other characters). */
  function DigitValue(c: char): (d: nat)
    ensures d < 16
  {
    if '0' <= c <= '9' then (c - '0') as nat
    else if 'a' <= c <= 'f' then (c - 'a') as nat + 10
    else 0
  }

  lemma DigitValueOfHexDigit(d: nat)
    requires d < 16
    ensures DigitValue(HexDigit(d)) == d
  {
  }

  /** `format!("{:x}", n)`: lower-case hexadecimal without leading zeros. */
  function Hex(n: nat): (s: string)
    ensures 1 <= |s|
  {
    if n < 16 then [HexDigit(n)] else Hex(n / 16) + [HexDigit(n % 16)]
  }

  /** Reads a string of hexadecimal digits back as a number. */
  function ParseHex(s: string): nat
  {
    if s == [] then 0 else ParseHex(s[..|s| - 1]) * 16 + DigitValue(s[|s| - 1])
  }

  lemma {:induction false} ParseHexInvertsHex(n: nat)
    ensures ParseHex(Hex(n)) == n
  {
    var s := Hex(n);
    if n < 16 {
      DigitValueOfHexDigit(n);
      assert s[..0] == [];
    } else {
      assert s[..|s| - 1] == Hex(n / 16);
      ParseHexInvertsHex(n / 16);
      DigitValueOfHexDigit(n % 16);
    }
  }

  const IdPrefix: string := "MINIMAPINMEMORY::"
  const IdSuffix: string := "::MINIMAPINMEMORY"

  /** The id of the record made when the counter reached n. */
  function RecordId(n: nat): string
  {
    IdPrefix + Hex(n) + IdSuffix
  }

  /** Distinct counter values give distinct record ids. */
  lemma RecordIdInjective(a: nat, b: nat)
    ensures RecordId(a) == RecordId(b) <==> a == b
  {
    if RecordId(a) == RecordId(b) {
      var ra, rb := RecordId(a), RecordId(b);
      assert |Hex(a)| == |Hex(b)|;
      assert Hex(a) == ra[|IdPrefix|..|ra| - |IdSuffix|];
      assert Hex(b) == rb[|IdPrefix|..|rb| - |IdSuffix|];
      ParseHexInvertsHex(a);
      ParseHexInvertsHex(b);
    }
  }

  /** The two hexadecimal digits of a byte, most significant first. */
  function ByteHex(b: byte): (s: string)
    ensures |s| == 2
  {
    [HexDigit(b as nat / 16), HexDigit(b as nat % 16)]
  }

  /** Reads two hexadecimal digits as a byte. */
  function ParseByte(s: string): byte
    requires |s| == 2
  {
    (DigitValue(s[0]) * 16 + DigitValue(s[1])) as byte
  }

  lemma ParseByteInvertsByteHex(b: byte)
    ensures ParseByte(ByteHex(b)) == b
  {
    DigitValueOfHexDigit(b as nat / 16);
    DigitValueOfHexDigit(b as nat % 16);
  }

  /** Two hexadecimal digits per byte, most significant first. */
  function ContentId(data: seq<byte>): (s: string)
    ensures |s| == 2 * |data|
  {
    if data == [] then [] else ByteHex(data[0]) + ContentId(data[1..])
  }

  /** Reads pairs of hexadecimal digits back as bytes. */
  function ParseContentId(s: string): seq<byte>
    decreases |s|
  {
    if |s| < 2 then [] else [ParseByte(s[..2])] + ParseContentId(s[2..])
  }

  lemma {:induction false} ParseContentIdInvertsContentId(data: seq<byte>)
    ensures ParseContentId(ContentId(data)) == data
  {
    if data != [] {
      var s := ContentId(data);
      assert s[..2] == ByteHex(data[0]);
      assert s[2..] == ContentId(data[1..]);
      ParseByteInvertsByteHex(data[0]);
      ParseContentIdInvertsContentId(data[1..]);
    }
  }

  /** Attachments with different bytes get different ids. */
  lemma ContentIdInjective(a: seq<byte>, b: seq<byte>)
    ensures ContentId(a) == ContentId(b) <==> a == b
  {
    ParseContentIdInvertsContentId(a);
    ParseContentIdInvertsContentId(b);
  }
}
