/** The text forms the camera service gives to two numeric codes reported by
    the driver: the crop mode of a camera and the data type of a property. */
module Names {

  /** The name of a crop mode. */
  function CropModeAsString(cropMode: nat): string
  {
    if cropMode == 0 then "none"
    else if cropMode == 1 then "auto"
    else if cropMode == 2 then "user"
    else "unknown"
  }

  /** Modes 0, 1 and 2 have their own names and every other mode is unknown;
      no two known modes share a name and none is called unknown. */
  lemma CropModeNames(cropMode: nat)
    ensures CropModeAsString(cropMode) == "none" <==> cropMode == 0
    ensures CropModeAsString(cropMode) == "auto" <==> cropMode == 1
    ensures CropModeAsString(cropMode) == "user" <==> cropMode == 2
    ensures CropModeAsString(cropMode) == "unknown" <==> cropMode > 2
  {
  }

  /** A lower-case hexadecimal digit. */
  function HexDigit(d: nat): char
    requires d < 16
  {
    "0123456789abcdef"[d]
  }

  /** The value of a lower-case hexadecimal digit, or 16 for any other character. */
  function HexDigitValue(c: char): nat
  {
    if '0' <= c <= '9' then (c as int) - ('0' as int)
    else if 'a' <= c <= 'f' then (c as int) - ('a' as int) + 10
    else 16
  }

  /** n in lower-case hexadecimal, without leading zeros. */
  function Hex(n: nat): (r: string)
    ensures |r| >= 1
    decreases n
  {
    if n < 16 then [HexDigit(n)] else Hex(n / 16) + [HexDigit(n % 16)]
  }

  /** The value of a string of hexadecimal digits. */
  function ParseHex(s: string): nat
  {
    if s == [] then 0
    else ParseHex(s[..|s| - 1]) * 16 + (var d := HexDigitValue(s[|s| - 1]); if d < 16 then d else 0)
  }

  function ZeroDigits(n: nat): (r: string)
    ensures |r| == n
  {
    if n == 0 then [] else ['0'] + ZeroDigits(n - 1)
  }

  /** The %04x verb: n in lower-case hexadecimal, padded with zeros to at
      least four digits. */
  function Hex04(n: nat): (r: string)
    ensures |r| >= 4
  {
    var h := Hex(n);
    if |h| < 4 then ZeroDigits(4 - |h|) + h else h
  }

  lemma {:induction false} ParseHexOfHex(n: nat)
    ensures ParseHex(Hex(n)) == n
    decreases n
  {
    if n >= 16 {
      ParseHexOfHex(n / 16);
      var h := Hex(n);
      assert h[..|h| - 1] == Hex(n / 16);
      HexDigitValueOf(n % 16);
      assert n == (n / 16) * 16 + n % 16;
    } else {
      HexDigitValueOf(n);
    }
  }

  lemma HexDigitValueOf(d: nat)
    requires d < 16
    ensures HexDigitValue(HexDigit(d)) == d
  {
  }

  lemma {:induction false} ParseHexLeadingZeros(k: nat, s: string)
    ensures ParseHex(ZeroDigits(k) + s) == ParseHex(s)
    decreases |s|, k
  {
    if s == [] {
      if k > 0 {
        assert ZeroDigits(k) + s == ZeroDigits(k);
        assert ZeroDigits(k) == ZeroDigits(k - 1) + ['0'] by {
          ZeroDigitsSnoc(k);
        }
        assert ZeroDigits(k)[..k - 1] == ZeroDigits(k - 1);
        ParseHexLeadingZeros(k - 1, []);
        assert ZeroDigits(k - 1) + [] == ZeroDigits(k - 1);
      }
    } else {
      var t := ZeroDigits(k) + s;
      assert t[..|t| - 1] == ZeroDigits(k) + s[..|s| - 1];
      ParseHexLeadingZeros(k, s[..|s| - 1]);
    }
  }

  lemma {:induction false} ZeroDigitsSnoc(k: nat)
    requires k > 0
    ensures ZeroDigits(k) == ZeroDigits(k - 1) + ['0']
  {
    if k > 1 {
      ZeroDigitsSnoc(k - 1);
    }
  }

  /** Reading back the four-digit form gives the number. */
  lemma ParseHex04(n: nat)
    ensures ParseHex(Hex04(n)) == n
  {
    ParseHexOfHex(n);
    if |Hex(n)| < 4 {
      ParseHexLeadingZeros(4 - |Hex(n)|, Hex(n));
    }
  }

  const UnknownPrefix: string := "Unknown format x"

  /** The name of a property data type code. Scalar types have codes 1 to 9
      and 0x10; their array forms set the high bits 0xa000. */
  function TypeIdToString(id: nat): string
  {
    if id == 0x0000 then "unknown"
    else if id == 0x0001 then "int8"
    else if id == 0x0002 then "uint8"
    else if id == 0x0003 then "int16"
    else if id == 0x0004 then "uint16"
    else if id == 0x0005 then "int32"
    else if id == 0x0006 then "uint32"
    else if id == 0x0007 then "int64"
    else if id == 0x0008 then "uint64"
    else if id == 0x0009 then "int128"
    else if id == 0x0010 then "uint128"
    else if id == 0xa001 then "int8[]"
    else if id == 0xa002 then "uint8[]"
    else if id == 0xa003 then "int16[]"
    else if id == 0xa004 then "uint16[]"
    else if id == 0xa005 then "int32[]"
    else if id == 0xa006 then "uint32[]"
    else if id == 0xa007 then "int64[]"
    else if id == 0xa008 then "uint64[]"
    else if id == 0xa009 then "int128[]"
    else if id == 0xa010 then "uint128[]"
    else if id == 0xffff then "string"
    else UnknownPrefix + Hex04(id)
  }

  /** The codes that have a name of their own. */
  predicate KnownTypeId(id: nat)
  {
    id == 0 || 1 <= id <= 9 || id == 0x10 || 0xa001 <= id <= 0xa009 || id == 0xa010 || id == 0xffff
  }

  /** The code a type name stands for: the inverse of TypeIdToString. */
  function TypeIdOfString(s: string): (r: nat)
  {
    if |s| > 9 then
      (if |s| >= |UnknownPrefix| && s[..|UnknownPrefix|] == UnknownPrefix then ParseHex(s[|UnknownPrefix|..]) else 0)
    else if s == "int8" then 0x0001
    else if s == "uint8" then 0x0002
    else if s == "int16" then 0x0003
    else if s == "uint16" then 0x0004
    else if s == "int32" then 0x0005
    else if s == "uint32" then 0x0006
    else if s == "int64" then 0x0007
    else if s == "uint64" then 0x0008
    else if s == "int128" then 0x0009
    else if s == "uint128" then 0x0010
    else if s == "int8[]" then 0xa001
    else if s == "uint8[]" then 0xa002
    else if s == "int16[]" then 0xa003
    else if s == "uint16[]" then 0xa004
    else if s == "int32[]" then 0xa005
    else if s == "uint32[]" then 0xa006
    else if s == "int64[]" then 0xa007
    else if s == "uint64[]" then 0xa008
    else if s == "int128[]" then 0xa009
    else if s == "uint128[]" then 0xa010
    else if s == "string" then 0xffff
    else 0
  }

  /** Codes without a name of their own are reported as "Unknown format x"
      followed by at least four hexadecimal digits. */
  lemma UnknownTypeIds(id: nat)
    requires !KnownTypeId(id)
    ensures TypeIdToString(id) == UnknownPrefix + Hex04(id)
    ensures TypeIdOfString(TypeIdToString(id)) == id
  {
    var s := TypeIdToString(id);
    assert s[..|UnknownPrefix|] == UnknownPrefix;
    assert s[|UnknownPrefix|..] == Hex04(id);
    ParseHex04(id);
  }

  lemma ScalarTypeIdsRoundTrip(id: nat)
    requires 0 <= id <= 9 || id == 0x10 || id == 0xffff
    ensures TypeIdOfString(TypeIdToString(id)) == id
  {
  }

  lemma ArrayTypeIdsRoundTrip(id: nat)
    requires 0xa001 <= id <= 0xa009 || id == 0xa010
    ensures TypeIdOfString(TypeIdToString(id)) == id
  {
  }

  /** Every code is recovered from its name, so no two codes share one. */
  lemma TypeIdToStringInjective(a: nat, b: nat)
    ensures TypeIdToString(a) == TypeIdToString(b) ==> a == b
  {
    TypeIdRoundTrip(a);
    TypeIdRoundTrip(b);
  }

  lemma TypeIdRoundTrip(id: nat)
    ensures TypeIdOfString(TypeIdToString(id)) == id
  {
    if !KnownTypeId(id) {
      UnknownTypeIds(id);
    } else if 0xa001 <= id <= 0xa009 || id == 0xa010 {
      ArrayTypeIdsRoundTrip(id);
    } else {
      ScalarTypeIdsRoundTrip(id);
    }
  }

  /** The array form of each scalar type is named after it with "[]" added. */
  lemma ArrayTypeNames(c: nat)
    requires 1 <= c <= 9 || c == 0x10
    ensures TypeIdToString(0xa000 + c) == TypeIdToString(c) + "[]"
  {
  }
}
