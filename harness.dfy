/** The round-trip harness: render a binary buffer as hex text, size the
    encoder's destination buffer from the payload text, and compare the
    payload text with the re-encoded text. The BOE decoder and encoder are
    not part of this model; the encoder's effect on the destination buffer
    is a parameter. */
module Harness {
  import opened Wrappers
  import Base16
  import StreamFormat
  import Payload

  type char8 = StreamFormat.char8

  /** The buffer as the stream sees it, each element cast to unsigned. */
  function Unsigned(buffer: seq<char8>): seq<Base16.byte> {
    seq(|buffer|, i requires 0 <= i < |buffer| => StreamFormat.AsUnsigned(buffer[i]))
  }

  /** `convertBinaryToHex(buffer, size)`: the first `size` elements as
      upper-case Base16, two digits each, high nibble first; later elements
      play no part. */
  method ConvertBinaryToHex(buffer: seq<char8>, size: nat) returns (hex: string)
    requires size <= |buffer|
    ensures hex == Base16.Encode(Unsigned(buffer[..size]))
    ensures |hex| == 2 * size
    ensures Base16.IsUpperHexText(hex)
    ensures forall i :: 0 <= i < size ==>
      hex[2 * i] == Base16.HexDigit(StreamFormat.AsUnsigned(buffer[i]) / 16) &&
      hex[2 * i + 1] == Base16.HexDigit(StreamFormat.AsUnsigned(buffer[i]) % 16)
  {
    hex := "";
    var i := 0;
    while i < size
      invariant i <= size
      invariant hex == Base16.Encode(Unsigned(buffer[..i]))
    {
      assert Unsigned(buffer[..i + 1]) == Unsigned(buffer[..i]) + [StreamFormat.AsUnsigned(buffer[i])];
      Base16.EncodeAppend(Unsigned(buffer[..i]), [StreamFormat.AsUnsigned(buffer[i])]);
      hex := hex + StreamFormat.FormatByte(buffer[i]);
      i := i + 1;
    }
    Base16.EncodeIsUpperHex(Unsigned(buffer[..size]));
    forall i | 0 <= i < size
      ensures hex[2 * i] == Base16.HexDigit(StreamFormat.AsUnsigned(buffer[i]) / 16)
      ensures hex[2 * i + 1] == Base16.HexDigit(StreamFormat.AsUnsigned(buffer[i]) % 16)
    {
      Base16.EncodeAt(Unsigned(buffer[..size]), i);
    }
  }

  /** Which branch of the message-type dispatch runs the encoder. The numeric
      values of the message enumeration are not part of this model. */
  datatype MessageSelector = LoginRequest | NewOrderCross | Unrecognised

  /** The destination buffer after the encode step: `size` zero bytes, of
      which the encoder, when the dispatch selects a message, overwrites a
      prefix with the bytes it writes. */
  function EncodedBuffer(size: nat, selector: MessageSelector, written: seq<char8>): (r: seq<char8>)
    ensures |r| == size
  {
    seq(size, i requires 0 <= i < size => if selector != Unrecognised && i < |written| then written[i] else 0)
  }

  /** `processPayload`: allocate half as many bytes as the payload has hex
      characters, let the encoder fill them, and render all of them. */
  method ProcessPayload(hexPayload: seq<char>, selector: MessageSelector, written: seq<char8>)
    returns (encoded: string)
    ensures encoded == Base16.Encode(Unsigned(EncodedBuffer(|hexPayload| / 2, selector, written)))
    ensures |encoded| == 2 * (|hexPayload| / 2)
    ensures |hexPayload| % 2 == 0 ==> |encoded| == |hexPayload|
  {
    var buffer := new char8[|hexPayload| / 2](_ => 0);
    if selector != Unrecognised {
      var n := if |written| < buffer.Length then |written| else buffer.Length;
      forall i | 0 <= i < n {
        buffer[i] := written[i];
      }
    }
    assert buffer[..] == EncodedBuffer(|hexPayload| / 2, selector, written);
    encoded := ConvertBinaryToHex(buffer[..], buffer.Length);
    assert buffer[..][..buffer.Length] == buffer[..];
  }

  /** With no message selected the buffer stays zero and the harness prints
      "00" for every byte. */
  lemma UnrecognisedRendersZeros(size: nat, written: seq<char8>)
    ensures Base16.Encode(Unsigned(EncodedBuffer(size, Unrecognised, written))) == seq(2 * size, _ => '0')
  {
    var bytes := Unsigned(EncodedBuffer(size, Unrecognised, written));
    var hex := Base16.Encode(bytes);
    forall k | 0 <= k < 2 * size ensures hex[k] == '0' {
      Base16.EncodeAt(bytes, k / 2);
      assert bytes[k / 2] == 0;
      assert k == 2 * (k / 2) || k == 2 * (k / 2) + 1;
    }
  }

  datatype Verdict = Equal | NotEqual

  /** `compareHexStrings`: character-for-character equality, no case
      folding. */
  function CompareHexStrings(original: string, encoded: string): (v: Verdict)
    ensures v == Equal <==> original == encoded
  {
    if original == encoded then Equal else NotEqual
  }

  /** Against re-encoded output, the verdict is Equal exactly when the
      original text is upper-case hex that decodes to the encoder's bytes. */
  lemma VerdictMeansSameBytes(original: string, bytes: seq<Base16.byte>)
    ensures CompareHexStrings(original, Base16.Encode(bytes)) == Equal <==>
      Base16.IsUpperHexText(original) && Base16.Decode(original) == Some(bytes)
  {
    Base16.EncodedIff(original, bytes);
  }

  /** A payload text holding a lower-case digit is never reported equal to
      re-encoded output, whatever the bytes. */
  lemma LowercaseNeverEqual(original: string, bytes: seq<Base16.byte>, i: nat)
    requires i < |original| && 'a' <= original[i] <= 'f'
    ensures CompareHexStrings(original, Base16.Encode(bytes)) == NotEqual
  {
    Base16.EncodeIsUpperHex(bytes);
  }

  /** Why `main` ends in its error branch: the payload check, or an exception
      thrown by the decoder or the encoder. */
  datatype RunError = BadPayload(error: Payload.PayloadError) | CodecThrew

  /** Steps 1 to 3 of `main` on the text the payload file held: normalise,
      decode and re-encode, compare. `codecThrows` says whether the decoder
      or the encoder throws, which the catch turns into a failed run. */
  method RunRoundTrip(text: string, selector: MessageSelector, written: seq<char8>, codecThrows: bool)
    returns (r: Result<Verdict, RunError>)
    ensures r.Failure? <==> |Payload.Stripped(text)| % 2 != 0 || codecThrows
    ensures r.Failure? && |Payload.Stripped(text)| % 2 != 0 ==>
      r.error == BadPayload(Payload.OddHexLength(|Payload.Stripped(text)|))
    ensures r.Success? ==>
      var bytes := Unsigned(EncodedBuffer(|Payload.Stripped(text)| / 2, selector, written));
      (r.value == Equal <==>
        Base16.IsUpperHexText(Payload.Stripped(text)) && Base16.Decode(Payload.Stripped(text)) == Some(bytes))
  {
    var hexPayload := Payload.ReadHexPayload(text);
    if hexPayload.Failure? {
      return Failure(BadPayload(hexPayload.error));
    }
    if codecThrows {
      return Failure(CodecThrew);
    }
    var encodedPayload := ProcessPayload(hexPayload.value, selector, written);
    var verdict := CompareHexStrings(hexPayload.value, encodedPayload);
    VerdictMeansSameBytes(hexPayload.value, Unsigned(EncodedBuffer(|hexPayload.value| / 2, selector, written)));
    return Success(verdict);
  }
}
