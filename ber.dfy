/**
 * The BER tag-length-value codec of iec61850/ber.c.
 *
 * Lengths use the definite forms of ITU-T X.690 section 8.1.3: the short form
 * (section 8.1.3.4, one octet 0..127) and the long form (section 8.1.3.5, an
 * initial octet 0x80|n followed by n big-endian length octets). The encoder
 * always emits the fewest length octets, as DER requires (X.690 section 10.1).
 *
 * Pure functions give the meaning of each operation; the methods follow the C
 * code loop by loop and are proved against those functions. Where the C code
 * reads past its input buffer, the methods implement the corrected behaviour
 * (the C behaviour as written is in module BerAsWritten).
 */
module Ber {
  import opened Wrappers

  type Byte = b: int | 0 <= b < 256

  /** One past the largest value of a 64-bit size_t. */
  const SizeLimit: nat := 0x1_0000_0000_0000_0000

  /** parse_length accepts at most sizeof(uint32_t) long-form length octets. */
  const MaxLengthOctets: nat := 4

  /** The bit that selects the long form in the first length octet. */
  const LongFormBit: nat := 0x80

  /** The largest length the short form can carry. */
  const MaxShortLength: nat := 127

  /** A C byte buffer: its length is a size_t. */
  type Octets = s: seq<Byte> | |s| < SizeLimit

  /**
   * A `ber` element. The C struct keeps `length` beside `value`; here the
   * length is |value|, and the NULL value of a zero-length element is [].
   */
  datatype Element = Element(tag: Byte, value: Octets)

  /** A decoded length field: the length it denotes and how many octets it took. */
  datatype LengthField = LengthField(length: nat, width: nat)

  function Pow256(n: nat): (r: nat)
    ensures r >= 1
  {
    if n == 0 then 1 else 256 * Pow256(n - 1)
  }

  /** How many times the counting loop of encode_length shifts `l` right by 8 before it is 0. */
  function OctetCount(l: nat): nat
  {
    if l == 0 then 0 else 1 + OctetCount(l / 256)
  }

  /** The low n octets of l, most significant first. */
  function BigEndian(l: nat, n: nat): (r: seq<Byte>)
    ensures |r| == n
  {
    if n == 0 then [] else BigEndian(l / 256, n - 1) + [l % 256]
  }

  /** The unsigned number whose big-endian octets are s. */
  function ValueOf(s: seq<Byte>): nat
  {
    if s == [] then 0 else ValueOf(s[..|s| - 1]) * 256 + s[|s| - 1]
  }

  lemma {:induction false} OctetCountFits(l: nat, n: nat)
    requires l < Pow256(n)
    ensures OctetCount(l) <= n
  {
    if l != 0 {
      OctetCountFits(l / 256, n - 1);
    }
  }

  lemma SizeLimitOctets()
    ensures Pow256(8) == SizeLimit
  {
  }

  /** The length header encode_length emits for a length of l value octets. */
  function EncodeLengthSpec(l: nat): (r: seq<Byte>)
    requires l < SizeLimit
  {
    if l <= MaxShortLength then [l]
    else
      SizeLimitOctets();
      OctetCountFits(l, 8);
      [LongFormBit + OctetCount(l)] + BigEndian(l, OctetCount(l))
  }

  /**
   * The length field parse_length reads from `w`, a window that starts at the
   * tag octet, with the bounds check corrected: the long-form octets must lie
   * inside the window. None is parse_length's failure (it returns 0 and leaves
   * the width untouched).
   */
  function ParseLengthSpec(w: Octets): Option<LengthField>
  {
    if |w| < 2 then None
    else if w[1] < LongFormBit then Some(LengthField(w[1], 1))
    else
      var n := w[1] - LongFormBit;
      if n > MaxLengthOctets || n + 2 > |w| then None
      else Some(LengthField(ValueOf(w[2..2 + n]), 1 + n))
  }

  /** The wire form of one element: tag, length header, value. */
  function EncodeSpec(e: Element): (r: seq<Byte>)
  {
    [e.tag] + EncodeLengthSpec(|e.value|) + e.value
  }

  /**
   * The element at the head of `w` and the number of octets it spans
   * (1 + width + length); None if the length field is malformed or the value
   * does not fit in `w`. Octets after the element are left for the caller.
   */
  function DecodeHead(w: Octets): (r: Option<(Element, nat)>)
    ensures r.Some? ==> 0 < r.value.1 <= |w|
  {
    match ParseLengthSpec(w)
    case None => None
    case Some(f) =>
      var stop := 1 + f.width + f.length;
      if stop > |w| then None
      else Some((Element(w[0], w[1 + f.width .. stop]), stop))
  }

  /** ber_decode with the value taken right after the measured length field. */
  function DecodeSpec(bytes: Octets): Option<Element>
  {
    match DecodeHead(bytes)
    case None => None
    case Some((e, _)) => Some(e)
  }

  /** ber_decode_many from `offset` on: `count` consecutive elements, or None. */
  function DecodeManyFrom(bytes: Octets, offset: nat, count: nat): Option<seq<Element>>
    decreases count
  {
    if count == 0 then Some([])
    else if offset >= |bytes| then None
    else
      match DecodeHead(bytes[offset..])
      case None => None
      case Some((e, k)) =>
        match DecodeManyFrom(bytes, offset + k, count - 1)
        case None => None
        case Some(rest) => Some([e] + rest)
  }

  /** One step of ber_decode_many's cursor: the head element, then the rest from where it ends. */
  lemma DecodeManyStep(bytes: Octets, start: nat, n: nat)
    requires 0 < n && start < |bytes|
    ensures DecodeHead(bytes[start..]).None? ==> DecodeManyFrom(bytes, start, n).None?
    ensures DecodeHead(bytes[start..]).Some? ==>
              DecodeManyFrom(bytes, start, n) ==
                PrependAll([DecodeHead(bytes[start..]).value.0],
                           DecodeManyFrom(bytes, start + DecodeHead(bytes[start..]).value.1, n - 1))
  {
  }

  /** A stream whose head element is `e`, spanning k octets, decodes to e and what follows. */
  lemma DecodeManyCons(bytes: Octets, start: nat, n: nat, e: Element, k: nat)
    requires 0 < n && start < |bytes|
    requires DecodeHead(bytes[start..]) == Some((e, k))
    ensures DecodeManyFrom(bytes, start, n) == PrependAll([e], DecodeManyFrom(bytes, start + k, n - 1))
  {
    DecodeManyStep(bytes, start, n);
  }

  /** A stream decodes to es when its head is es[0] and what follows decodes to the rest of es. */
  lemma DecodeManyConsSome(bytes: Octets, start: nat, es: seq<Element>, k: nat)
    requires 0 < |es| && start < |bytes|
    ensures DecodeHead(bytes[start..]) == Some((es[0], k)) &&
            DecodeManyFrom(bytes, start + k, |es[1..]|) == Some(es[1..]) ==>
              DecodeManyFrom(bytes, start, |es|) == Some(es)
  {
    if DecodeHead(bytes[start..]) == Some((es[0], k)) {
      DecodeManyCons(bytes, start, |es|, es[0], k);
      assert [es[0]] + es[1..] == es;
    }
  }

  /** The head element is the one the measured length field delimits. */
  lemma HeadFromLengthField(w: Octets)
    requires ParseLengthSpec(w).Some?
    ensures var f := ParseLengthSpec(w).value;
            var stop := 1 + f.width + f.length;
            DecodeHead(w) == if stop > |w| then None else Some((Element(w[0], w[1 + f.width .. stop]), stop))
  {
  }

  /** The decoding cursor moves from `start` to `next` past element e, or fails. */
  lemma DecodeManyAdvance(bytes: Octets, start: nat, n: nat, before: seq<Element>, e: Element, next: nat)
    requires 0 < n && start < next <= |bytes|
    requires DecodeHead(bytes[start..]) == Some((e, next - start))
    ensures PrependAll(before, DecodeManyFrom(bytes, start, n)) ==
              PrependAll(before + [e], DecodeManyFrom(bytes, next, n - 1))
  {
    DecodeManyStep(bytes, start, n);
    PrependAllAssoc(before, e, DecodeManyFrom(bytes, next, n - 1));
  }

  lemma DecodeManyHalts(bytes: Octets, start: nat, n: nat, before: seq<Element>)
    requires 0 < n && start < |bytes|
    requires DecodeHead(bytes[start..]).None?
    ensures PrependAll(before, DecodeManyFrom(bytes, start, n)).None?
  {
    DecodeManyStep(bytes, start, n);
  }

  lemma PrependAllNil(r: Option<seq<Element>>)
    ensures PrependAll([], r) == r
  {
    if r.Some? {
      assert [] + r.value == r.value;
    }
  }

  lemma PrependAllAssoc(p: seq<Element>, e: Element, r: Option<seq<Element>>)
    ensures PrependAll(p, PrependAll([e], r)) == PrependAll(p + [e], r)
  {
    if r.Some? {
      assert p + ([e] + r.value) == (p + [e]) + r.value;
    }
  }

  /** ber_encode_many's output: the encodings of the elements, in order. */
  function EncodeManySpec(es: seq<Element>): seq<Byte>
  {
    if es == [] then [] else EncodeSpec(es[0]) + EncodeManySpec(es[1..])
  }

  /** Encoding a concatenation of element lists concatenates their encodings. */
  lemma {:induction false} EncodeManyConcat(front: seq<Element>, back: seq<Element>)
    ensures EncodeManySpec(front + back) == EncodeManySpec(front) + EncodeManySpec(back)
  {
    if front == [] {
      assert front + back == back;
    } else {
      assert (front + back)[1..] == front[1..] + back;
      EncodeManyConcat(front[1..], back);
    }
  }

  lemma EncodeManySingle(e: Element)
    ensures EncodeManySpec([e]) == EncodeSpec(e)
  {
    assert [e][1..] == [];
  }

  /** The encoding of the first i + 1 elements extends that of the first i, within the whole. */
  lemma EncodeManyPrefix(es: seq<Element>, i: nat)
    requires i < |es|
    ensures EncodeManySpec(es[..i + 1]) == EncodeManySpec(es[..i]) + EncodeSpec(es[i])
    ensures |EncodeManySpec(es[..i + 1])| <= |EncodeManySpec(es)|
  {
    var front, e := es[..i], es[i];
    assert front + [e] == es[..i + 1];
    EncodeManyExtend(front, e);
    EncodeManyPrefixBound(es, i + 1);
  }

  lemma EncodeManyPrefixBound(es: seq<Element>, k: nat)
    requires k <= |es|
    ensures |EncodeManySpec(es[..k])| <= |EncodeManySpec(es)|
  {
    var front, back := es[..k], es[k..];
    assert front + back == es;
    EncodeManyConcat(front, back);
  }

  lemma EncodeManyExtend(es: seq<Element>, e: Element)
    ensures EncodeManySpec(es + [e]) == EncodeManySpec(es) + EncodeSpec(e)
  {
    EncodeManyConcat(es, [e]);
    EncodeManySingle(e);
  }

  /** One octet of the back-to-front fill: the lowest octet of l moves into the written suffix. */
  lemma BigEndianStep(l: nat, m: nat, suffix: seq<Byte>)
    requires m > 0
    ensures BigEndian(l, m) + suffix == BigEndian(l / 256, m - 1) + ([l % 256] + suffix)
  {
  }

  /** Prefix `p` to a successful decoding; failure stays failure. */
  function PrependAll(p: seq<Element>, r: Option<seq<Element>>): Option<seq<Element>>
  {
    match r
    case None => None
    case Some(rest) => Some(p + rest)
  }

  /**
   * encode_length: the short form for 0..127, otherwise 0x80|n and the n
   * octets of the length filled back to front, n counted by a shifting loop.
   */
  method EncodeLength(len: nat) returns (out: array<Byte>, width: nat)
    requires len < SizeLimit
    ensures width == out.Length
    ensures out[..] == EncodeLengthSpec(len)
  {
    if len <= MaxShortLength {
      out := new Byte[1];
      out[0] := len;
      width := 1;
      return;
    }
    var numBytes := CountOctets(len);
    SizeLimitOctets();
    OctetCountFits(len, 8);
    out := new Byte[1 + numBytes];
    out[0] := LongFormBit + numBytes;
    FillBigEndian(out, len, numBytes);
    assert out[..] == [out[0]] + out[1..];
    width := 1 + numBytes;
  }

  /** The counting loop of encode_length: shift right by 8 until nothing is left. */
  method CountOctets(len: nat) returns (numBytes: nat)
    ensures numBytes == OctetCount(len)
  {
    numBytes := 0;
    var tmp: nat := len;
    while tmp > 0
      invariant numBytes + OctetCount(tmp) == OctetCount(len)
      decreases tmp
    {
      tmp := tmp / 256;
      numBytes := numBytes + 1;
    }
  }

  /** The fill loop of encode_length: out[1..1 + n] gets the low n octets of len, back to front. */
  method FillBigEndian(out: array<Byte>, len: nat, n: nat)
    requires out.Length == 1 + n
    modifies out
    ensures out[0] == old(out[0])
    ensures out[1..] == BigEndian(len, n)
  {
    var l: nat := len;
    var i: nat := 0;
    while i < n
      invariant i <= n
      invariant out[0] == old(out[0])
      invariant BigEndian(len, n) == BigEndian(l, n - i) + out[1 + n - i..]
    {
      ghost var suffix := out[1 + n - i..];
      BigEndianStep(l, n - i, suffix);
      out[n - i] := l % 256;
      assert out[n - i..] == [l % 256] + suffix;
      l := l / 256;
      i := i + 1;
    }
  }

  /**
   * parse_length on the window `w` that starts at the tag octet. `widthIn` is
   * what the caller's length_bytes_count held; on failure the length is 0 and
   * the width is returned unchanged.
   */
  method ParseLength(w: Octets, widthIn: nat) returns (length: nat, width: nat)
    ensures ParseLengthSpec(w).None? ==> length == 0 && width == widthIn
    ensures ParseLengthSpec(w).Some? ==>
              length == ParseLengthSpec(w).value.length && width == ParseLengthSpec(w).value.width
  {
    width := widthIn;
    if |w| < 2 {
      return 0, widthIn;
    }
    if w[1] >= LongFormBit {
      var numLengthBytes: nat := w[1] - LongFormBit;
      if numLengthBytes > MaxLengthOctets || numLengthBytes + 2 > |w| {
        return 0, widthIn;
      }
      length := 0;
      for i := 0 to numLengthBytes
        invariant length == ValueOf(w[2..2 + i])
      {
        assert w[2..2 + (i + 1)][..i] == w[2..2 + i];
        length := length * 256 + w[i + 2];
      }
      width := numLengthBytes + 1;
    } else {
      length := w[1];
      width := 1;
    }
  }

  /** memcpy(dst + at, src, |src|). */
  method Copy(dst: array<Byte>, at: nat, src: seq<Byte>)
    requires at + |src| <= dst.Length
    modifies dst
    ensures dst[..] == old(dst[..at]) + src + old(dst[at + |src|..])
  {
    forall k | 0 <= k < |src| {
      dst[at + k] := src[k];
    }
  }

  /** ber_encode: the tag, the length header, then the value. */
  method Encode(e: Element) returns (out: array<Byte>, total: nat)
    ensures total == out.Length == 1 + |EncodeLengthSpec(|e.value|)| + |e.value|
    ensures out[..] == EncodeSpec(e)
  {
    var lengthBytes, lengthBytesLen := EncodeLength(|e.value|);
    total := 1 + lengthBytesLen + |e.value|;
    out := new Byte[total];
    out[0] := e.tag;
    Copy(out, 1, lengthBytes[..]);
    Copy(out, 1 + lengthBytesLen, e.value);
    assert out[..] == [e.tag] + lengthBytes[..] + e.value;
  }

  /**
   * ber_decode, corrected: NULL for fewer than two octets or a malformed
   * length field, and the value copied from right after the length field.
   */
  method Decode(bytes: Octets) returns (r: Option<Element>)
    ensures r == DecodeSpec(bytes)
  {
    if |bytes| < 2 {
      return None;
    }
    var tag := bytes[0];
    var length, width := ParseLength(bytes, 0);
    if length == 0 && width == 0 {
      return None;
    }
    if 1 + width + length > |bytes| {
      return None;
    }
    r := Some(Element(tag, bytes[1 + width .. 1 + width + length]));
  }

  /**
   * The body of ber_decode_many's loop: read the tag at `offset`, parse the
   * length field that follows, and copy the value after it; the result holds
   * the element and the offset just past it.
   */
  method ReadElement(bytes: Octets, offset: nat) returns (r: Option<(Element, nat)>)
    requires offset < |bytes|
    ensures DecodeHead(bytes[offset..]).None? <==> r.None?
    ensures r.Some? ==>
              r.value == (DecodeHead(bytes[offset..]).value.0, offset + DecodeHead(bytes[offset..]).value.1)
  {
    var tag := bytes[offset];
    var cursor := offset + 1;
    var length, lengthBytesCount := ParseLength(bytes[cursor - 1..], 0);
    if length == 0 && lengthBytesCount == 0 {
      return None;
    }
    HeadFromLengthField(bytes[offset..]);
    cursor := cursor + lengthBytesCount;
    if cursor + length > |bytes| {
      return None;
    }
    var value := bytes[cursor..cursor + length];
    assert bytes[offset..][1 + lengthBytesCount .. 1 + lengthBytesCount + length] == value;
    r := Some((Element(tag, value), cursor + length));
  }

  /**
   * ber_decode_many: `count` elements read with a cursor that moves past the
   * tag, the measured length field and the value of each; null when the
   * stream ends early or an element is malformed.
   */
  method DecodeMany(bytes: Octets, count: nat) returns (elements: array?<Element>)
    ensures DecodeManyFrom(bytes, 0, count).None? <==> elements == null
    ensures elements != null ==> elements[..] == DecodeManyFrom(bytes, 0, count).value
  {
    var offset: nat := 0;
    var decoded := new Element[count](_ => Element(0, []));
    assert decoded[..0] == [];
    PrependAllNil(DecodeManyFrom(bytes, 0, count));
    for i := 0 to count
      invariant DecodeManyFrom(bytes, 0, count) ==
                  PrependAll(decoded[..i], DecodeManyFrom(bytes, offset, count - i))
    {
      if offset >= |bytes| {
        return null;
      }
      ghost var before := decoded[..i];
      var r := ReadElement(bytes, offset);
      if r.None? {
        DecodeManyHalts(bytes, offset, count - i, before);
        return null;
      }
      var (e, next) := r.value;
      DecodeManyAdvance(bytes, offset, count - i, before, e, next);
      decoded[i] := e;
      offset := next;
      assert decoded[..i + 1] == before + [e];
    }
    elements := decoded;
  }

  /**
   * ber_encode_many: a first pass sums the encoded sizes, a second pass
   * copies each encoding into the output at a moving offset.
   */
  method EncodeMany(es: seq<Element>) returns (out: array<Byte>, total: nat)
    ensures total == out.Length == |EncodeManySpec(es)|
    ensures out[..] == EncodeManySpec(es)
  {
    total := 0;
    for i := 0 to |es|
      invariant total == |EncodeManySpec(es[..i])|
    {
      var tempEncoded, tempLen := Encode(es[i]);
      EncodeManyPrefix(es, i);
      total := total + tempLen;
    }
    assert es[..|es|] == es;
    out := new Byte[total];
    var offset: nat := 0;
    for i := 0 to |es|
      invariant total == out.Length == |EncodeManySpec(es)|
      invariant offset == |EncodeManySpec(es[..i])| <= total
      invariant out[..offset] == EncodeManySpec(es[..i])
    {
      var tempEncoded, tempLen := Encode(es[i]);
      EncodeManyPrefix(es, i);
      Copy(out, offset, tempEncoded[..]);
      offset := offset + tempLen;
    }
    assert out[..] == out[..offset];
  }
}
