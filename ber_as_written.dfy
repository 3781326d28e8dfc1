/**
 * The BER decoders of iec61850/ber.c exactly as written, including the
 * reads past the end of the input buffer that the C code can make. Each
 * function returns OutOfBounds where the C code would read a byte it was not
 * given; the lemmas compare these functions with the corrected definitions of
 * module Ber and exhibit, for each defect, an input that shows it.
 */
module BerAsWritten {
  import opened Wrappers
  import opened Ber
  import BerProofs

  /** What parse_length does with its window: a length field, its `return 0` rejection, or a read past the window. */
  datatype ParseOutcome = Parsed(length: nat, width: nat) | Rejected | Overread

  /** What a decoder returns: a value, NULL, or undefined behaviour from a read past the buffer. */
  datatype Outcome<T> = Ok(value: T) | Null | OutOfBounds

  /**
   * parse_length as written, on the window `w` that starts at the tag octet:
   * it only refuses an empty window, so a one-octet window has its length
   * octet read past the end, and its bound `numLengthBytes >= len` lets
   * through a count of |w| - 1, whose last length octet lies past the end.
   */
  function ParseLengthAsWritten(w: seq<Byte>): (r: ParseOutcome)
    ensures r.Parsed? ==> 1 <= r.width <= 1 + MaxLengthOctets && 1 + r.width <= |w|
  {
    if |w| == 0 then Rejected
    else if |w| < 2 then Overread
    else if w[1] < LongFormBit then Parsed(w[1], 1)
    else
      var n := w[1] - LongFormBit;
      if n > MaxLengthOctets || n >= |w| then Rejected
      else if n + 2 > |w| then Overread
      else Parsed(ValueOf(w[2..2 + n]), 1 + n)
  }

  /** The corrected reading of an outcome: a read past the buffer becomes a failure. */
  function ParseCorrected(p: ParseOutcome): Option<LengthField>
  {
    match p
    case Parsed(length, width) => Some(LengthField(length, width))
    case Rejected => None
    case Overread => None
  }

  function Corrected<T>(r: Outcome<T>): Option<T>
  {
    match r
    case Ok(v) => Some(v)
    case Null => None
    case OutOfBounds => None
  }

  /**
   * Wherever parse_length stays inside its window it agrees with the
   * corrected length parser; the corrected parser fails exactly where the
   * C code rejects the field or reads past the window.
   */
  lemma ParseLengthCorrected(w: Octets)
    ensures ParseCorrected(ParseLengthAsWritten(w)) == ParseLengthSpec(w)
    ensures ParseLengthAsWritten(w).Parsed? <==> ParseLengthSpec(w).Some?
  {
  }

  /** The only reads past the window: a lone tag octet, or a count of at most four that points one octet too far. */
  lemma ParseLengthOverread(w: seq<Byte>)
    ensures ParseLengthAsWritten(w) == Overread <==>
              |w| == 1 ||
              (|w| >= 2 && w[1] >= LongFormBit && w[1] - LongFormBit <= MaxLengthOctets &&
               w[1] - LongFormBit == |w| - 1)
  {
  }

  /** Finding: a long-form count of one in a two-octet window reads the octet after it. */
  lemma ParseLengthGuardExample()
    ensures ParseLengthAsWritten([0x04, 0x81]) == Overread
    ensures ParseLengthSpec([0x04, 0x81]) == None
  {
  }

  /**
   * ber_decode as written: NULL for fewer than two octets; a rejected length
   * field reads as length 0 and gives an element with no value; otherwise the
   * value is copied from the LAST `length` octets of the buffer, which lie
   * before the buffer when the length exceeds it.
   */
  function DecodeAsWritten(bytes: Octets): (r: Outcome<Element>)
    ensures r == Null <==> |bytes| < 2
    ensures r.Ok? ==> r.value.tag == bytes[0] && |r.value.value| <= |bytes| &&
                      r.value.value == bytes[|bytes| - |r.value.value|..]
  {
    if |bytes| < 2 then Null
    else
      var tag := bytes[0];
      match ParseLengthAsWritten(bytes)
      case Overread => OutOfBounds
      case Rejected => Ok(Element(tag, []))
      case Parsed(length, _) =>
        if length == 0 then Ok(Element(tag, []))
        else if length > |bytes| then OutOfBounds
        else Ok(Element(tag, bytes[|bytes| - length..]))
  }

  /**
   * On an exact encoding, with nothing after the value, the last `length`
   * octets are the value: ber_decode as written inverts ber_encode there.
   */
  lemma DecodeAsWrittenExact(e: Element)
    requires |e.value| < BerProofs.FourOctetLimit
    ensures |EncodeSpec(e)| < SizeLimit
    ensures DecodeAsWritten(EncodeSpec(e)) == Ok(e)
  {
    var enc := EncodeSpec(e);
    BerProofs.LengthForms(|e.value|);
    BerProofs.EncodeSpecParts(e);
    assert enc[..|enc|] == enc;
    BerProofs.ParseEncodeLength(enc, |e.value|);
    ParseLengthCorrected(enc);
    ExactTail(enc, e.value);
  }

  lemma ExactTail(enc: seq<Byte>, v: seq<Byte>)
    requires |v| <= |enc| && enc[|enc| - |v|..|enc|] == v
    ensures enc[|enc| - |v|..] == v
  {
  }

  /** Finding: with an octet after the value, the value is taken from the end of the buffer. */
  lemma DecodeTailExample()
    ensures DecodeAsWritten([0x04, 0x01, 0xAA, 0xBB]) == Ok(Element(0x04, [0xBB]))
    ensures DecodeSpec([0x04, 0x01, 0xAA, 0xBB]) == Some(Element(0x04, [0xAA]))
  {
    var w: Octets := [0x04, 0x01, 0xAA, 0xBB];
    assert ParseLengthSpec(w) == Some(LengthField(1, 1));
    assert w[|w| - 1..] == [0xBB];
    assert w[2..3] == [0xAA];
  }

  /** Finding: a length larger than the buffer makes ber_decode copy from before the buffer. */
  lemma DecodeOverrunExample()
    ensures DecodeAsWritten([0x04, 0x05, 0xAA]) == OutOfBounds
    ensures DecodeSpec([0x04, 0x05, 0xAA]) == None
  {
  }

  /** Finding: a rejected length field decodes as an element with no value instead of NULL. */
  lemma DecodeRejectedExample()
    ensures DecodeAsWritten([0x04, 0x85, 0, 0, 0, 0, 1]) == Ok(Element(0x04, []))
    ensures DecodeSpec([0x04, 0x85, 0, 0, 0, 0, 1]) == None
  {
  }

  /**
   * ber_decode_many as written from `offset` on: the tag octet and the length
   * field are read through parse_length on the rest of the buffer, and the
   * value is copied without checking that it fits.
   */
  function DecodeManyAsWritten(bytes: Octets, offset: nat, count: nat): (r: Outcome<seq<Element>>)
    ensures r.Ok? ==> |r.value| == count
    decreases count
  {
    if count == 0 then Ok([])
    else if offset >= |bytes| then Null
    else
      match ParseLengthAsWritten(bytes[offset..])
      case Overread => OutOfBounds
      case Rejected => Null
      case Parsed(length, width) =>
        var stop := offset + 1 + width + length;
        if stop > |bytes| then OutOfBounds
        else
          match DecodeManyAsWritten(bytes, stop, count - 1)
          case Ok(rest) => Ok([Element(bytes[offset], bytes[offset + 1 + width..stop])] + rest)
          case Null => Null
          case OutOfBounds => OutOfBounds
  }

  /**
   * The corrected ber_decode_many is the C loop with every read past the
   * buffer turned into a failure: both return the same elements whenever the
   * C code stays inside the buffer, and NULL for NULL.
   */
  lemma DecodeManyCorrected(bytes: Octets, offset: nat, count: nat)
    ensures Corrected(DecodeManyAsWritten(bytes, offset, count)) == DecodeManyFrom(bytes, offset, count)
  {
    DecodingsAgree(bytes, offset, count);
  }

  /** The two decodings of `count` elements from `offset`, side by side. */
  function Decodings(bytes: Octets, offset: nat, count: nat): (Option<seq<Element>>, Option<seq<Element>>)
  {
    (Corrected(DecodeManyAsWritten(bytes, offset, count)), DecodeManyFrom(bytes, offset, count))
  }

  lemma {:induction false} DecodingsAgree(bytes: Octets, offset: nat, count: nat)
    ensures Decodings(bytes, offset, count).0 == Decodings(bytes, offset, count).1
    decreases count
  {
    if count == 0 || offset >= |bytes| {
      DecodingsEnd(bytes, offset, count);
    } else {
      var p := ParseLengthAsWritten(bytes[offset..]);
      if p.Parsed? && offset + 1 + p.width + p.length <= |bytes| {
        DecodingsAgree(bytes, offset + 1 + p.width + p.length, count - 1);
        DecodingsNext(bytes, offset, count);
      } else {
        DecodeManyCorrectedHalts(bytes, offset, count);
      }
    }
  }

  lemma DecodingsEnd(bytes: Octets, offset: nat, count: nat)
    requires count == 0 || offset >= |bytes|
    ensures Decodings(bytes, offset, count).0 == Decodings(bytes, offset, count).1
  {
  }

  /** Both decoders read the same element and go on from the same offset. */
  lemma DecodingsNext(bytes: Octets, offset: nat, count: nat)
    requires 0 < count && offset < |bytes|
    requires var p := ParseLengthAsWritten(bytes[offset..]);
             p.Parsed? && offset + 1 + p.width + p.length <= |bytes| &&
             Decodings(bytes, offset + 1 + p.width + p.length, count - 1).0 ==
               Decodings(bytes, offset + 1 + p.width + p.length, count - 1).1
    ensures Decodings(bytes, offset, count).0 == Decodings(bytes, offset, count).1
  {
    var e, stop := BothHeads(bytes, offset, count);
    SameAfterHead(Decodings(bytes, offset, count), Decodings(bytes, stop, count - 1), e);
  }

  /** The element both decoders read first, and the offset both go on from. */
  lemma BothHeads(bytes: Octets, offset: nat, count: nat) returns (e: Element, stop: nat)
    requires 0 < count && offset < |bytes|
    requires var p := ParseLengthAsWritten(bytes[offset..]);
             p.Parsed? && offset + 1 + p.width + p.length <= |bytes|
    ensures var p := ParseLengthAsWritten(bytes[offset..]);
            stop == offset + 1 + p.width + p.length
    ensures Corrected(DecodeManyAsWritten(bytes, offset, count)) ==
              PrependAll([e], Corrected(DecodeManyAsWritten(bytes, stop, count - 1)))
    ensures DecodeManyFrom(bytes, offset, count) == PrependAll([e], DecodeManyFrom(bytes, stop, count - 1))
  {
    var w := bytes[offset..];
    var p := ParseLengthAsWritten(w);
    stop := offset + 1 + p.width + p.length;
    e := Element(bytes[offset], bytes[offset + 1 + p.width..stop]);
    DecodeManyAsWrittenStep(bytes, offset, count, e, stop);
    ParseLengthCorrected(w);
    HeadAfterField(bytes, offset, p.length, p.width);
    DecodeManyCons(bytes, offset, count, e, stop - offset);
  }

  /** Two decodings that put the same element before agreeing rests agree. */
  lemma SameAfterHead(d: (Option<seq<Element>>, Option<seq<Element>>), rest: (Option<seq<Element>>, Option<seq<Element>>), e: Element)
    requires d.0 == PrependAll([e], rest.0) && d.1 == PrependAll([e], rest.1) && rest.0 == rest.1
    ensures d.0 == d.1
  {
  }

  /** Both decoders stop at an element the C code rejects or would read past. */
  lemma DecodeManyCorrectedHalts(bytes: Octets, offset: nat, count: nat)
    requires 0 < count && offset < |bytes|
    requires var p := ParseLengthAsWritten(bytes[offset..]);
             !(p.Parsed? && offset + 1 + p.width + p.length <= |bytes|)
    ensures Corrected(DecodeManyAsWritten(bytes, offset, count)) == None
    ensures DecodeManyFrom(bytes, offset, count) == None
  {
    var w := bytes[offset..];
    ParseLengthCorrected(w);
    if ParseLengthSpec(w).Some? {
      HeadFromLengthField(w);
    }
    DecodeManyStepNone(bytes, offset, count);
  }

  /** One step of the C loop: the element it reads, then the rest from where that element ends. */
  lemma DecodeManyAsWrittenStep(bytes: Octets, offset: nat, count: nat, e: Element, stop: nat)
    requires 0 < count && offset < |bytes|
    requires var p := ParseLengthAsWritten(bytes[offset..]);
             p.Parsed? && stop == offset + 1 + p.width + p.length && stop <= |bytes| &&
             e == Element(bytes[offset], bytes[offset + 1 + p.width..stop])
    ensures Corrected(DecodeManyAsWritten(bytes, offset, count)) ==
              PrependAll([e], Corrected(DecodeManyAsWritten(bytes, stop, count - 1)))
  {
  }

  lemma DecodeManyStepNone(bytes: Octets, offset: nat, count: nat)
    requires 0 < count && offset < |bytes| && DecodeHead(bytes[offset..]).None?
    ensures DecodeManyFrom(bytes, offset, count) == None
  {
    DecodeManyStep(bytes, offset, count);
  }

  lemma HeadAfterField(bytes: Octets, offset: nat, length: nat, width: nat)
    requires offset < |bytes| && offset + 1 + width + length <= |bytes|
    requires ParseLengthSpec(bytes[offset..]) == Some(LengthField(length, width))
    ensures DecodeHead(bytes[offset..]) ==
              Some((Element(bytes[offset], bytes[offset + 1 + width..offset + 1 + width + length]), 1 + width + length))
  {
    var w := bytes[offset..];
    HeadFromLengthField(w);
    SuffixSlice(bytes, offset, 1 + width, 1 + width + length);
  }

  lemma SuffixSlice(bytes: seq<Byte>, offset: nat, i: nat, j: nat)
    requires offset + i <= offset + j <= |bytes|
    ensures bytes[offset..][i..j] == bytes[offset + i..offset + j]
  {
  }

  /** Finding: a tag in the last octet of the stream has its length octet read past the end. */
  lemma DecodeManyLastTagExample()
    ensures DecodeManyAsWritten([0x04], 0, 1) == OutOfBounds
    ensures DecodeManyFrom([0x04], 0, 1) == None
  {
  }

  /** Finding: a value longer than the rest of the stream is copied past its end. */
  lemma DecodeManyOverrunExample()
    ensures DecodeManyAsWritten([0x04, 0x05, 0xAA], 0, 1) == OutOfBounds
    ensures DecodeManyFrom([0x04, 0x05, 0xAA], 0, 1) == None
  {
  }
}
