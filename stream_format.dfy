/** How one buffer element reaches the output stream in convertBinaryToHex:
    the element is a C++ `char`, cast to
    `unsigned char`, widened to `int`, and inserted with the `uppercase`,
    `hex`, `setw(2)` and `setfill('0')` manipulators. */
module StreamFormat {
  import Base16

  /** A C++ `char`, taken as signed 8-bit. Where `char` is unsigned the
      rendering is the same, because AsUnsigned maps the 256 values one to one
      onto 0..255. */
  newtype char8 = x: int | -128 <= x < 128

  /** `static_cast<unsigned char>`: the value congruent modulo 256 in 0..255. */
  function AsUnsigned(c: char8): (b: Base16.byte)
    ensures (b - c as int) % 256 == 0
  {
    if c < 0 then c as int + 256 else c as int
  }

  /** Exactly the negative chars land in the upper half 0x80..0xFF; no sign
      extension reaches the rendered value. */
  lemma AsUnsignedHighHalf(c: char8)
    ensures c < 0 <==> AsUnsigned(c) >= 0x80
    ensures c >= 0 ==> AsUnsigned(c) == c as int
  {
  }

  /** Two chars render the same exactly when they are the same char. */
  lemma AsUnsignedInjective(c: char8, d: char8)
    ensures AsUnsigned(c) == AsUnsigned(d) <==> c == d
  {
  }

  /** `std::hex` with `std::uppercase`: the shortest upper-case hex numeral. */
  function HexNumeral(n: nat): (r: seq<char>)
    ensures |r| >= 1
    ensures n < 16 <==> |r| == 1
    decreases n
  {
    if n < 16 then [Base16.HexDigit(n)] else HexNumeral(n / 16) + [Base16.HexDigit(n % 16)]
  }

  /** `std::setw(w)` with `std::setfill(fill)`: right-justify in a field of
      width `w`; a longer text is left as it is. */
  function PadLeft(s: seq<char>, w: nat, fill: char): (r: seq<char>)
    ensures |r| == if |s| >= w then |s| else w
    ensures r[|r| - |s|..] == s
    ensures forall i :: 0 <= i < |r| - |s| ==> r[i] == fill
  {
    if |s| >= w then s else seq(w - |s|, _ => fill) + s
  }

  /** The insertion on line 59 for one element: its one-byte Base16 encoding. */
  function FormatByte(c: char8): (r: seq<char>)
    ensures r == Base16.Encode([AsUnsigned(c)])
  {
    var n := AsUnsigned(c);
    assert [n][..0] == [];
    assert Base16.Encode([n]) == Base16.ByteToHex(n);
    assert n < 16 ==> n / 16 == 0 && n % 16 == n;
    assert n >= 16 ==> HexNumeral(n / 16) == [Base16.HexDigit(n / 16)];
    PadLeft(HexNumeral(n), 2, '0')
  }

  /** A negative char renders with a leading digit 8..F. */
  lemma NegativeCharRendersHigh(c: char8)
    requires c < 0
    ensures FormatByte(c)[0] in "89ABCDEF"
  {
    var n := AsUnsigned(c);
    Base16.EncodeAt([n], 0);
    var h := n / 16;
    assert 8 <= h < 16;
    Base16.HexDigitIsAlphabet(h);
  }
}
