/** Base16 with the upper-case alphabet of section 8 of RFC 4648: the text form
    in which the round-trip harness prints a binary buffer, and a parser that
    reads such text back (accepting either case, as hex payload files are
    written by hand). */
module Base16 {
  import opened Wrappers

  /** An unsigned octet. */
  type byte = x: int | 0 <= x < 256

  /** The alphabet of section 8 of RFC 4648, digit value = index. */
  const UpperAlphabet: seq<char> := "0123456789ABCDEF"

  predicate IsUpperDigit(c: char) {
    '0' <= c <= '9' || 'A' <= c <= 'F'
  }

  /** Text made only of upper-case hex digits. */
  predicate IsUpperHexText(s: seq<char>) {
    forall i :: 0 <= i < |s| ==> IsUpperDigit(s[i])
  }

  /** Value of one hex digit of either case; None for any other character. */
  function DigitValue(c: char): (r: Option<nat>)
    ensures r.Some? ==> r.value < 16
    ensures IsUpperDigit(c) ==> r.Some?
  {
    if '0' <= c <= '9' then Some(c as nat - '0' as nat)
    else if 'A' <= c <= 'F' then Some(c as nat - 'A' as nat + 10)
    else if 'a' <= c <= 'f' then Some(c as nat - 'a' as nat + 10)
    else None
  }

  /** The upper-case digit for a nibble; DigitValue reads it back. */
  function HexDigit(n: nat): (c: char)
    requires n < 16
    ensures IsUpperDigit(c)
    ensures DigitValue(c) == Some(n)
  {
    if n < 10 then ('0' as nat + n) as char else ('A' as nat + n - 10) as char
  }

  /** HexDigit is the table of section 8 of RFC 4648. */
  lemma HexDigitIsAlphabet(n: nat)
    requires n < 16
    ensures HexDigit(n) == UpperAlphabet[n]
  {
  }

  /** An upper-case digit is the HexDigit of its own value. */
  lemma UpperDigitRoundTrip(c: char)
    requires IsUpperDigit(c)
    ensures DigitValue(c).Some? && HexDigit(DigitValue(c).value) == c
  {
  }

  /** Two digits per octet, high nibble first. */
  function ByteToHex(b: byte): seq<char> {
    [HexDigit(b / 16), HexDigit(b % 16)]
  }

  /** Base16 encoding of a byte sequence, built byte by byte from the front
      as an output stream appends. */
  function Encode(bytes: seq<byte>): (r: seq<char>)
    ensures |r| == 2 * |bytes|
  {
    if bytes == [] then [] else Encode(bytes[..|bytes| - 1]) + ByteToHex(bytes[|bytes| - 1])
  }

  /** Decoding of Base16 text of either case; None on an odd length or a
      character that is not a hex digit. */
  function Decode(s: seq<char>): (r: Option<seq<byte>>)
    ensures r.Some? ==> |s| == 2 * |r.value|
    decreases |s|
  {
    if |s| == 0 then Some([])
    else if |s| == 1 then None
    else
      match (DigitValue(s[0]), DigitValue(s[1]), Decode(s[2..]))
      case (Some(hi), Some(lo), Some(rest)) =>
        var b: byte := hi * 16 + lo;
        Some([b] + rest)
      case _ => None
  }

  lemma {:induction false} EncodeAppend(u: seq<byte>, v: seq<byte>)
    ensures Encode(u + v) == Encode(u) + Encode(v)
    decreases |v|
  {
    if v == [] {
      assert u + v == u;
    } else {
      var w := v[..|v| - 1];
      assert (u + v)[..|u + v| - 1] == u + w;
      assert (u + v)[|u + v| - 1] == v[|v| - 1];
      EncodeAppend(u, w);
    }
  }

  /** Characters 2i and 2i+1 of the encoding are the high and the low nibble
      of byte i. */
  lemma {:induction false} EncodeAt(bytes: seq<byte>, i: nat)
    requires i < |bytes|
    ensures Encode(bytes)[2 * i] == HexDigit(bytes[i] / 16)
    ensures Encode(bytes)[2 * i + 1] == HexDigit(bytes[i] % 16)
    decreases |bytes|
  {
    var init := bytes[..|bytes| - 1];
    if i < |bytes| - 1 {
      EncodeAt(init, i);
      assert init[i] == bytes[i];
    }
  }

  /** Every character of an encoding is an upper-case hex digit. */
  lemma EncodeIsUpperHex(bytes: seq<byte>)
    ensures IsUpperHexText(Encode(bytes))
  {
    forall k | 0 <= k < |Encode(bytes)| ensures IsUpperDigit(Encode(bytes)[k]) {
      EncodeAt(bytes, k / 2);
      assert k == 2 * (k / 2) || k == 2 * (k / 2) + 1;
    }
  }

  lemma NibbleSplit(hi: nat, lo: nat)
    requires hi < 16 && lo < 16
    ensures (hi * 16 + lo) / 16 == hi && (hi * 16 + lo) % 16 == lo
  {
  }

  /** Decoding inverts encoding. */
  lemma {:induction false} DecodeEncode(bytes: seq<byte>)
    ensures Decode(Encode(bytes)) == Some(bytes)
    decreases |bytes|
  {
    if bytes != [] {
      var b, rest := bytes[0], bytes[1..];
      assert bytes == [b] + rest;
      EncodeAppend([b], rest);
      assert Encode([b]) == ByteToHex(b) by {
        assert [b][..0] == [];
      }
      var s := Encode(bytes);
      assert s[2..] == Encode(rest);
      DecodeEncode(rest);
      assert b / 16 * 16 + b % 16 == b;
    }
  }

  /** On upper-case text, encoding inverts decoding. */
  lemma {:induction false} EncodeDecode(s: seq<char>, bytes: seq<byte>)
    requires IsUpperHexText(s)
    requires Decode(s) == Some(bytes)
    ensures Encode(bytes) == s
    decreases |s|
  {
    if |s| != 0 {
      var hi, lo := DigitValue(s[0]).value, DigitValue(s[1]).value;
      var rest := Decode(s[2..]).value;
      var b: byte := hi * 16 + lo;
      assert bytes == [b] + rest;
      EncodeDecode(s[2..], rest);
      UpperDigitRoundTrip(s[0]);
      UpperDigitRoundTrip(s[1]);
      NibbleSplit(hi, lo);
      EncodeAppend([b], rest);
      assert Encode([b]) == ByteToHex(b) by {
        assert [b][..0] == [];
      }
      assert s == s[..2] + s[2..];
    }
  }

  /** A text is the encoding of some bytes exactly when it is upper-case hex
      that decodes to those bytes. */
  lemma EncodedIff(s: seq<char>, bytes: seq<byte>)
    ensures s == Encode(bytes) <==> IsUpperHexText(s) && Decode(s) == Some(bytes)
  {
    if s == Encode(bytes) {
      EncodeIsUpperHex(bytes);
      DecodeEncode(bytes);
    }
    if IsUpperHexText(s) && Decode(s) == Some(bytes) {
      EncodeDecode(s, bytes);
    }
  }

  /** Decoding succeeds exactly on even-length text made of hex digits of
      either case. */
  lemma {:induction false} DecodeSucceedsIff(s: seq<char>)
    ensures Decode(s).Some? <==>
      |s| % 2 == 0 && forall i :: 0 <= i < |s| ==> DigitValue(s[i]).Some?
    decreases |s|
  {
    if |s| >= 2 {
      DecodeSucceedsIff(s[2..]);
      assert forall i :: 2 <= i < |s| ==> s[i] == s[2..][i - 2];
      if Decode(s).None? && |s| % 2 == 0 && DigitValue(s[0]).Some? && DigitValue(s[1]).Some? {
        assert Decode(s[2..]).None?;
        var i :| 0 <= i < |s[2..]| && DigitValue(s[2..][i]).None?;
        assert DigitValue(s[i + 2]).None?;
      }
    }
  }
}
