/**
 * Properties of the BER codec: the short/long length-form boundary, DER
 * minimality of the long form (X.690 section 10.1), and the round trips
 * decode(encode(e)) == e for one element and for a stream of elements.
 */
module BerProofs {
  import opened Wrappers
  import opened Ber

  /** 2^32: parse_length accepts at most four length octets. */
  const FourOctetLimit: nat := 0x1_0000_0000

  lemma FourOctets()
    ensures Pow256(MaxLengthOctets) == FourOctetLimit
  {
  }

  /** Every value has a big-endian form in OctetCount(l) octets. */
  lemma {:induction false} OctetCountUpper(l: nat)
    ensures l < Pow256(OctetCount(l))
  {
    if l != 0 {
      OctetCountUpper(l / 256);
      assert l / 256 + 1 <= Pow256(OctetCount(l / 256));
      assert l < 256 * (l / 256 + 1);
    }
  }

  /** ...and no fewer octets would do. */
  lemma {:induction false} OctetCountLower(l: nat)
    requires l > 0
    ensures OctetCount(l) >= 1 && Pow256(OctetCount(l) - 1) <= l
  {
    if l / 256 > 0 {
      OctetCountLower(l / 256);
      assert 256 * Pow256(OctetCount(l / 256) - 1) <= 256 * (l / 256) <= l;
    }
  }

  /** Big-endian octets of a value that fits read back as that value. */
  lemma {:induction false} ValueOfBigEndian(l: nat, n: nat)
    requires l < Pow256(n)
    ensures ValueOf(BigEndian(l, n)) == l
  {
    if n > 0 {
      var front, last := BigEndian(l / 256, n - 1), l % 256;
      assert BigEndian(l, n) == front + [last];
      DivBound(l, Pow256(n - 1));
      ValueOfBigEndian(l / 256, n - 1);
      ValueOfSnoc(front, last);
    }
  }

  /** Appending an octet shifts the value up by one octet. */
  lemma ValueOfSnoc(s: seq<Byte>, b: Byte)
    ensures ValueOf(s + [b]) == ValueOf(s) * 256 + b
  {
    assert (s + [b])[..|s|] == s;
  }

  lemma DivBound(l: nat, p: nat)
    requires l < 256 * p
    ensures l / 256 < p
  {
  }

  /** The first of the minimal octets of a positive value is not zero. */
  lemma {:induction false} LeadingOctetNonzero(l: nat)
    requires l > 0
    ensures OctetCount(l) >= 1 && BigEndian(l, OctetCount(l))[0] != 0
  {
    if l / 256 > 0 {
      LeadingOctetNonzero(l / 256);
      assert BigEndian(l, OctetCount(l))[0] == BigEndian(l / 256, OctetCount(l / 256))[0];
    }
  }

  /**
   * Lengths 0..127 take the one-octet short form; every other length takes the
   * long form of 2..9 octets, the first giving the count of those that follow.
   */
  lemma LengthForms(l: nat)
    requires l < SizeLimit
    ensures l <= MaxShortLength <==> |EncodeLengthSpec(l)| == 1
    ensures l <= MaxShortLength ==> EncodeLengthSpec(l) == [l]
    ensures l > MaxShortLength ==>
              2 <= |EncodeLengthSpec(l)| <= 9 &&
              EncodeLengthSpec(l)[0] == LongFormBit + (|EncodeLengthSpec(l)| - 1)
  {
    if l > MaxShortLength {
      OctetCountLower(l);
      SizeLimitOctets();
      OctetCountFits(l, 8);
    }
  }

  /**
   * DER minimality of the long form: the length octets after the initial
   * octet read back as the length, the first of them is not zero, and the
   * length does not fit in one octet fewer.
   */
  lemma LongFormMinimal(l: nat)
    requires MaxShortLength < l < SizeLimit
    ensures var r := EncodeLengthSpec(l);
            |r| >= 2 && r[1] != 0 && ValueOf(r[1..]) == l && Pow256(|r| - 2) <= l
  {
    var r := EncodeLengthSpec(l);
    LeadingOctetNonzero(l);
    OctetCountLower(l);
    OctetCountUpper(l);
    ValueOfBigEndian(l, OctetCount(l));
    assert r[1..] == BigEndian(l, OctetCount(l));
  }

  /**
   * A length of 2^32 is written with five long-form octets, a count
   * parse_length refuses: such an element is encoded but never decoded.
   */
  lemma WideLengthRefused()
    ensures EncodeLengthSpec(FourOctetLimit) == [0x85, 0x01, 0x00, 0x00, 0x00, 0x00]
    ensures ParseLengthSpec([0x04] + EncodeLengthSpec(FourOctetLimit)) == None
  {
    assert OctetCount(FourOctetLimit) == 5;
  }

  /** The boundary cases: 127, 128 and 65535. */
  lemma LengthFormExamples()
    ensures EncodeLengthSpec(127) == [0x7F]
    ensures EncodeLengthSpec(128) == [0x81, 0x80]
    ensures EncodeLengthSpec(65535) == [0x82, 0xFF, 0xFF]
  {
    assert OctetCount(128) == 1 + OctetCount(0);
    assert OctetCount(65535) == 1 + OctetCount(255) == 2 + OctetCount(0);
  }

  /**
   * parse_length inverts encode_length: in a window whose octets after the
   * tag octet start with the header of a length below 2^32, whatever follows,
   * the length field parses back to that length and to the header's width.
   */
  lemma ParseEncodeLength(w: Octets, l: nat)
    requires l < FourOctetLimit
    requires 1 + |EncodeLengthSpec(l)| <= |w| && w[1..1 + |EncodeLengthSpec(l)|] == EncodeLengthSpec(l)
    ensures ParseLengthSpec(w) == Some(LengthField(l, |EncodeLengthSpec(l)|))
  {
    var h := EncodeLengthSpec(l);
    if l > MaxShortLength {
      var n, digits := LongLengthDigits(l);
      assert w[1] == h[0];
      assert w[2..2 + n] == h[1..] == digits;
      ParseLongForm(w, n, digits);
    } else {
      assert w[1] == h[0];
    }
  }

  /** The long form of l below 2^32: 0x80|n, then n <= 4 octets that read back as l. */
  lemma LongLengthDigits(l: nat) returns (n: nat, digits: seq<Byte>)
    requires MaxShortLength < l < FourOctetLimit
    ensures n <= MaxLengthOctets && |digits| == n && ValueOf(digits) == l
    ensures EncodeLengthSpec(l) == [LongFormBit + n] + digits
  {
    n := OctetCount(l);
    digits := BigEndian(l, n);
    FourOctets();
    OctetCountFits(l, MaxLengthOctets);
    OctetCountUpper(l);
    ValueOfBigEndian(l, n);
  }

  /** A window whose length octets announce n <= 4 octets that follow in it. */
  lemma ParseLongForm(w: Octets, n: nat, digits: seq<Byte>)
    requires n <= MaxLengthOctets && 2 + n <= |w|
    requires w[1] == LongFormBit + n && w[2..2 + n] == digits
    ensures ParseLengthSpec(w) == Some(LengthField(ValueOf(digits), 1 + n))
  {
  }

  /** A successful parse stays inside its window and denotes a length below 2^32. */
  lemma ParseLengthInBounds(w: Octets)
    requires ParseLengthSpec(w).Some?
    ensures var f := ParseLengthSpec(w).value;
            1 <= f.width <= 1 + MaxLengthOctets && 1 + f.width <= |w| && f.length < FourOctetLimit
  {
    if w[1] >= LongFormBit {
      var n := w[1] - LongFormBit;
      ValueOfBound(w[2..2 + n]);
      PowMonotone(n, MaxLengthOctets);
      FourOctets();
    }
  }

  lemma {:induction false} ValueOfBound(s: seq<Byte>)
    ensures ValueOf(s) < Pow256(|s|)
  {
    if s != [] {
      ValueOfBound(s[..|s| - 1]);
      assert ValueOf(s) <= (Pow256(|s| - 1) - 1) * 256 + 255;
    }
  }

  lemma {:induction false} PowMonotone(m: nat, n: nat)
    requires m <= n
    ensures Pow256(m) <= Pow256(n)
  {
    if m < n {
      PowMonotone(m, n - 1);
    }
  }

  /** The element at the head of a window that starts with its encoding, whatever follows. */
  lemma DecodeHeadEncode(e: Element, w: Octets)
    requires |e.value| < FourOctetLimit
    requires |EncodeSpec(e)| <= |w| && w[..|EncodeSpec(e)|] == EncodeSpec(e)
    ensures DecodeHead(w) == Some((e, |EncodeSpec(e)|))
  {
    var enc, h, v := EncodeSpec(e), EncodeLengthSpec(|e.value|), e.value;
    EncodeSpecParts(e);
    PrefixSlice(w, enc, 0, 1);
    PrefixSlice(w, enc, 1, 1 + |h|);
    PrefixSlice(w, enc, 1 + |h|, |enc|);
    ParseEncodeLength(w, |v|);
    HeadFromLengthField(w);
  }

  /** Where the tag, the length header and the value sit in an encoding. */
  lemma EncodeSpecParts(e: Element)
    ensures var h, enc := EncodeLengthSpec(|e.value|), EncodeSpec(e);
            |enc| == 1 + |h| + |e.value| && enc[0..1] == [e.tag] &&
            enc[1..1 + |h|] == h && enc[1 + |h|..|enc|] == e.value
  {
  }

  lemma PrefixSlice(w: seq<Byte>, p: seq<Byte>, i: nat, j: nat)
    requires |p| <= |w| && w[..|p|] == p && i <= j <= |p|
    ensures w[i..j] == p[i..j]
  {
    assert forall k | i <= k < j :: w[k] == w[..|p|][k];
  }

  /** ber_decode (with the value after the measured length field) inverts ber_encode. */
  lemma DecodeEncode(e: Element)
    requires |e.value| < FourOctetLimit
    ensures |EncodeSpec(e)| < SizeLimit
    ensures DecodeSpec(EncodeSpec(e)) == Some(e)
  {
    LengthForms(|e.value|);
    var enc := EncodeSpec(e);
    assert enc[..|enc|] == enc;
    DecodeHeadEncode(e, enc);
  }

  /**
   * ber_decode, corrected, fails exactly when the buffer holds no well-formed
   * length field or the value would run past the buffer; otherwise the value
   * is the `length` octets right after the length field, whatever follows.
   */
  lemma DecodeOutcomes(bytes: Octets)
    ensures DecodeSpec(bytes).None? <==>
              ParseLengthSpec(bytes).None? ||
              1 + ParseLengthSpec(bytes).value.width + ParseLengthSpec(bytes).value.length > |bytes|
    ensures DecodeSpec(bytes).Some? ==>
              var f := ParseLengthSpec(bytes).value;
              DecodeSpec(bytes).value == Element(bytes[0], bytes[1 + f.width..1 + f.width + f.length])
  {
  }

  /**
   * ber_decode_many inverts ber_encode_many: reading |es| elements from a
   * stream that starts with their encodings gives back es, in order, at
   * whatever offset the encodings start.
   */
  lemma DecodeManyEncodeMany(bytes: Octets, offset: nat, es: seq<Element>, rest: seq<Byte>)
    requires forall i :: 0 <= i < |es| ==> |es[i].value| < FourOctetLimit
    requires offset <= |bytes| && bytes[offset..] == EncodeManySpec(es) + rest
    ensures DecodeManyFrom(bytes, offset, |es|) == Some(es)
  {
    var at := EncodedChain(bytes, offset, es, rest);
    DecodeManyChain(bytes, at, es);
  }

  /** Element i of an encoded stream starts where the encodings of the first i end. */
  lemma EncodedChain(bytes: Octets, offset: nat, es: seq<Element>, rest: seq<Byte>) returns (at: seq<nat>)
    requires forall i :: 0 <= i < |es| ==> |es[i].value| < FourOctetLimit
    requires offset <= |bytes| && bytes[offset..] == EncodeManySpec(es) + rest
    ensures |at| == |es| + 1 && at[0] == offset
    ensures forall i :: 0 <= i < |es| ==> HeadAt(bytes, at, es, i)
  {
    at := seq(|es| + 1, i requires 0 <= i <= |es| => offset + |EncodeManySpec(es[..i])|);
    EncodeManyEmptyPrefix(es);
    forall i | 0 <= i < |es|
      ensures HeadAt(bytes, at, es, i)
    {
      assert at[i] == offset + |EncodeManySpec(es[..i])| && at[i + 1] == offset + |EncodeManySpec(es[..i + 1])|;
      EncodedHeadAt(bytes, offset, es, rest, at, i);
    }
  }

  lemma EncodedHeadAt(bytes: Octets, offset: nat, es: seq<Element>, rest: seq<Byte>, at: seq<nat>, i: nat)
    requires |at| == |es| + 1 && i < |es| && |es[i].value| < FourOctetLimit
    requires offset <= |bytes| && bytes[offset..] == EncodeManySpec(es) + rest
    requires at[i] == offset + |EncodeManySpec(es[..i])| && at[i + 1] == offset + |EncodeManySpec(es[..i + 1])|
    ensures HeadAt(bytes, at, es, i)
  {
    EncodedAt(bytes, offset, es, rest, i);
    HeadAtEncoded(bytes, at, es, i);
  }

  lemma EncodeManyEmptyPrefix(es: seq<Element>)
    ensures EncodeManySpec(es[..0]) == []
  {
    assert es[..0] == [];
  }

  /** Element i of es is the head of the window at at[i] and spans up to at[i + 1]. */
  ghost predicate HeadAt(bytes: Octets, at: seq<nat>, es: seq<Element>, i: nat)
    requires |at| == |es| + 1 && i < |es|
  {
    at[i] < at[i + 1] <= |bytes| && DecodeHead(bytes[at[i]..]) == Some((es[i], at[i + 1] - at[i]))
  }

  lemma HeadAtEncoded(bytes: Octets, at: seq<nat>, es: seq<Element>, i: nat)
    requires |at| == |es| + 1 && i < |es| && |es[i].value| < FourOctetLimit
    requires at[i] + |EncodeSpec(es[i])| == at[i + 1] <= |bytes|
    requires bytes[at[i]..][..|EncodeSpec(es[i])|] == EncodeSpec(es[i])
    ensures HeadAt(bytes, at, es, i)
  {
    DecodeHeadEncode(es[i], bytes[at[i]..]);
  }

  /** The encoding of element i sits right after those of the elements before it. */
  lemma EncodedAt(bytes: Octets, offset: nat, es: seq<Element>, rest: seq<Byte>, i: nat)
    requires i < |es|
    requires offset <= |bytes| && bytes[offset..] == EncodeManySpec(es) + rest
    ensures var p, enc := |EncodeManySpec(es[..i])|, EncodeSpec(es[i]);
            p + |enc| == |EncodeManySpec(es[..i + 1])| && offset + p + |enc| <= |bytes| &&
            bytes[offset + p..][..|enc|] == enc
  {
    EncodeManySplit(es, i);
    Layout(bytes, offset, EncodeManySpec(es[..i]), EncodeSpec(es[i]), EncodeManySpec(es[i + 1..]), rest);
  }

  lemma EncodeManySplit(es: seq<Element>, i: nat)
    requires i < |es|
    ensures EncodeManySpec(es[..i + 1]) == EncodeManySpec(es[..i]) + EncodeSpec(es[i])
    ensures EncodeManySpec(es) == EncodeManySpec(es[..i]) + EncodeSpec(es[i]) + EncodeManySpec(es[i + 1..])
  {
    EncodeManyPrefix(es, i);
    EncodeManyAt(es, i + 1);
  }

  lemma EncodeManyAt(es: seq<Element>, k: nat)
    requires k <= |es|
    ensures EncodeManySpec(es) == EncodeManySpec(es[..k]) + EncodeManySpec(es[k..])
  {
    TakeDrop(es, k);
    EncodeManyConcat(es[..k], es[k..]);
  }

  lemma TakeDrop(es: seq<Element>, k: nat)
    requires k <= |es|
    ensures es[..k] + es[k..] == es
  {
  }

  /** Where the second of four concatenated pieces sits in a stream. */
  lemma Layout(bytes: seq<Byte>, offset: nat, a: seq<Byte>, b: seq<Byte>, c: seq<Byte>, r: seq<Byte>)
    requires offset <= |bytes| && bytes[offset..] == a + b + c + r
    ensures offset + |a| + |b| <= |bytes| && bytes[offset + |a|..][..|b|] == b
  {
    assert bytes[offset + |a|..] == (a + b + c + r)[|a|..];
  }

  /** Heads laid end to end at offsets `at` decode, in order, to es. */
  lemma {:induction false} DecodeManyChain(bytes: Octets, at: seq<nat>, es: seq<Element>)
    requires |at| == |es| + 1
    requires forall i :: 0 <= i < |es| ==> HeadAt(bytes, at, es, i)
    ensures DecodeManyFrom(bytes, at[0], |es|) == Some(es)
    decreases |es|
  {
    if es != [] {
      var at', es' := at[1..], es[1..];
      forall i | 0 <= i < |es'|
        ensures HeadAt(bytes, at', es', i)
      {
        HeadAtShift(bytes, at, es, i);
      }
      DecodeManyChain(bytes, at', es');
      assert HeadAt(bytes, at, es, 0);
      DecodeManyConsSome(bytes, at[0], es, at[1] - at[0]);
    }
  }

  lemma HeadAtShift(bytes: Octets, at: seq<nat>, es: seq<Element>, i: nat)
    requires |at| == |es| + 1 && i + 1 < |es| && HeadAt(bytes, at, es, i + 1)
    ensures HeadAt(bytes, at[1..], es[1..], i)
  {
    assert at[1..][i] == at[i + 1] && at[1..][i + 1] == at[i + 2] && es[1..][i] == es[i + 1];
  }

  /** The streams ber_encode_many writes decode back to the elements. */
  lemma EncodeManyRoundTrip(es: seq<Element>)
    requires forall i :: 0 <= i < |es| ==> |es[i].value| < FourOctetLimit
    requires |EncodeManySpec(es)| < SizeLimit
    ensures DecodeManyFrom(EncodeManySpec(es), 0, |es|) == Some(es)
  {
    assert EncodeManySpec(es)[0..] == EncodeManySpec(es) + [];
    DecodeManyEncodeMany(EncodeManySpec(es), 0, es, []);
  }

  /** A successful ber_decode_many returns exactly `count` elements. */
  lemma {:induction false} DecodeManyCount(bytes: Octets, offset: nat, count: nat)
    requires DecodeManyFrom(bytes, offset, count).Some?
    ensures |DecodeManyFrom(bytes, offset, count).value| == count
    decreases count
  {
    if count > 0 {
      var head := DecodeHead(bytes[offset..]);
      DecodeManyStep(bytes, offset, count);
      var k := head.value.1;
      DecodeManyCount(bytes, offset + k, count - 1);
    }
  }
}
