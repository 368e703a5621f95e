/**
 * `System.Guid`, identified with the 128-bit value whose 32 hexadecimal
 * digits, most significant first, are its "D" text form
 * (xxxxxxxx-xxxx-xxxx-xxxx-xxxxxxxxxxxx).
 */
module Guids {

  type Guid = bv128

  /** `Guid.Empty`. */
  const Empty: Guid := 0

  /** A random (RFC 4122 version 4) Guid, as `Guid.NewGuid()` returns:
      the 13th hex digit (bits 76..79) is 4, and the top two bits of the
      17th hex digit (bits 62..63) are 10. */
  predicate IsVersion4(g: Guid) {
    (g >> 76) & 0xF == 4 && (g >> 62) & 0x3 == 2
  }

  /** What `Guid.NewGuid()` can return. */
  type NewGuid = g: Guid | IsVersion4(g) witness 0x4000_8000_0000_0000_0000

  /** `Guid.NewGuid()` never returns `Guid.Empty`. */
  lemma NewGuidIsNotEmpty(g: NewGuid)
    ensures g != Empty
  {
    assert IsVersion4(g);
    assert ((0 as bv128) >> 76) & 0xF == 0;
  }

  function HexChar(d: bv128): (c: char)
    requires d < 16
  {
    "0123456789abcdef"[d as int]
  }

  /** The `width` least significant hex digits of `g`, most significant first. */
  function HexDigits(g: Guid, width: nat): (r: string)
    ensures |r| == width
  {
    if width == 0 then [] else HexDigits(g >> 4, width - 1) + [HexChar(g & 0xF)]
  }

  /** `Guid.ToString()`: the "D" format, lower-case digits in groups 8-4-4-4-12. */
  function GuidText(g: Guid): (r: string)
    ensures |r| == 36
    ensures r[8] == '-' && r[13] == '-' && r[18] == '-' && r[23] == '-'
  {
    var h := HexDigits(g, 32);
    h[..8] + "-" + h[8..12] + "-" + h[12..16] + "-" + h[16..20] + "-" + h[20..]
  }
}
