/**
 * The GOOSE frame handles of iec61850/goose.c and iec61850/goose.h: a static
 * pool of sixteen handles, goose_init that hands them out in order and fills
 * in a fresh frame's Ethernet-level header and PDU tags, the empty
 * goose_encode, and goose_free.
 *
 * The pool's counter is never decremented and goose_init refuses as soon as
 * it reaches MaxGooseFrames - 1, so at most fifteen handles are ever issued
 * and a freed handle is never issued again. Both are modelled as written.
 */
module Goose {
  import opened Wrappers
  import opened Ber

  /** Widths of the C integer fields the frame and the publisher keep. */
  const U8Limit: nat := 0x100
  const U16Limit: nat := 0x1_0000
  const U32Limit: nat := 0x1_0000_0000

  type U8 = x: int | 0 <= x < U8Limit
  type U16 = x: int | 0 <= x < U16Limit
  type U32 = x: int | 0 <= x < U32Limit

  const MaxGooseFrames: nat := 16
  const MacAddressSize: nat := 6
  const PduFieldCount: nat := 12

  /** A 6-octet MAC address and a 2-octet header field, as the fixed arrays of goose_frame. */
  type MacAddress = s: seq<Byte> | |s| == MacAddressSize witness [0, 0, 0, 0, 0, 0]
  type Pair = s: seq<Byte> | |s| == 2 witness [0, 0]

  /** The GOOSE EtherType 0x88B8 of IEC 61850-8-1, in wire order. */
  const GooseEthertype: Pair := [0x88, 0xB8]

  /** Positions of the twelve fields in pdu_fields. */
  const PduGocbRef: nat := 0x0
  const PduTimeAllowedToLive: nat := 0x1
  const PduDataset: nat := 0x2
  const PduGoId: nat := 0x3
  const PduT: nat := 0x4
  const PduStNum: nat := 0x5
  const PduSqNum: nat := 0x6
  const PduSimulation: nat := 0x7
  const PduConfRev: nat := 0x8
  const PduNdsCom: nat := 0x9
  const PduNumDatasetEntries: nat := 0xa
  const PduAllData: nat := 0xb

  /** Identifier octets of the goosePdu and of its fields. */
  const TagPdu: Byte := 0x61
  const TagGocbRef: Byte := 0x80
  const TagTimeAllowedToLive: Byte := 0x81
  const TagDataset: Byte := 0x82
  const TagGoId: Byte := 0x83
  const TagT: Byte := 0x84
  const TagStNum: Byte := 0x85
  const TagSqNum: Byte := 0x86
  const TagSimulation: Byte := 0x87
  const TagConfRev: Byte := 0x88
  const TagNdsCom: Byte := 0x89
  const TagNumDatasetEntries: Byte := 0x8a
  const TagAllData: Byte := 0xab

  /** The tag goose_init gives each PDU position, indexed by position. */
  const PduTags: seq<Byte> :=
    [TagGocbRef, TagTimeAllowedToLive, TagDataset, TagGoId, TagT, TagStNum,
     TagSqNum, TagSimulation, TagConfRev, TagNdsCom, TagNumDatasetEntries, TagAllData]

  /**
   * Identifier octets with a low tag number (ITU-T X.690 section 8.1.2.2):
   * bits 8-7 give the class, bit 6 says constructed, bits 5-1 the number.
   */
  const UniversalClass: nat := 0
  const ApplicationClass: nat := 1
  const ContextSpecificClass: nat := 2
  const PrivateClass: nat := 3

  function IdentifierOctet(tagClass: nat, constructed: bool, number: nat): Byte
    requires tagClass <= PrivateClass && number < 31
  {
    tagClass * 64 + (if constructed then 32 else 0) + number
  }

  function ClassOf(t: Byte): nat { t / 64 }
  predicate IsConstructed(t: Byte) { t % 64 >= 32 }
  function NumberOf(t: Byte): nat { t % 32 }

  /** Reading the fields back out of an identifier octet gives the class, form and number it was built from. */
  lemma IdentifierOctetFields(tagClass: nat, constructed: bool, number: nat)
    requires tagClass <= PrivateClass && number < 31
    ensures var t := IdentifierOctet(tagClass, constructed, number);
            ClassOf(t) == tagClass && IsConstructed(t) == constructed && NumberOf(t) == number
  {
    var low := (if constructed then 32 else 0) + number;
    assert IdentifierOctet(tagClass, constructed, number) == tagClass * 64 + low;
    assert low < 64;
  }

  /**
   * The PDU field at position k carries the context-specific tag [k]; only
   * allData is constructed. The goosePdu itself is [APPLICATION 1], constructed.
   */
  lemma PduTagsIdentify()
    ensures |PduTags| == PduFieldCount
    ensures forall k | 0 <= k < PduFieldCount ::
              PduTags[k] == IdentifierOctet(ContextSpecificClass, k == PduAllData, k)
    ensures TagPdu == IdentifierOctet(ApplicationClass, true, 1)
  {
  }

  /** Hence no two PDU fields share a tag, and none is the goosePdu's tag. */
  lemma PduTagsDistinct()
    ensures forall j, k | 0 <= j < k < PduFieldCount :: PduTags[j] != PduTags[k]
    ensures forall k | 0 <= k < PduFieldCount :: PduTags[k] != TagPdu
  {
    PduTagsIdentify();
    forall k | 0 <= k < PduFieldCount
      ensures NumberOf(PduTags[k]) == k && ClassOf(PduTags[k]) == ContextSpecificClass
    {
      IdentifierOctetFields(ContextSpecificClass, k == PduAllData, k);
    }
    IdentifierOctetFields(ApplicationClass, true, 1);
  }

  /** A goose_frame: the Ethernet-level header and the twelve PDU fields. */
  class GooseFrame {
    var source: MacAddress
    var destination: MacAddress
    var ethertype: Pair
    var appId: Pair
    var len: U16
    var reserved1: Pair
    var reserved2: Pair
    const pdu: array<Element>

    /** The frame goose_init leaves behind for these addresses. */
    predicate Initialised(src: MacAddress, dst: MacAddress)
      reads this, pdu
    {
      source == src && destination == dst && ethertype == GooseEthertype &&
      appId == [0, 0] && len == 0 && reserved1 == [0, 0] && reserved2 == [0, 0] &&
      pdu.Length == PduFieldCount &&
      forall k | 0 <= k < PduFieldCount :: pdu[k].tag == PduTags[k]
    }

    /**
     * The field-by-field initialisation of goose_init on fresh storage. The
     * C code assigns only the tags of the PDU fields; their values start empty.
     */
    constructor (src: MacAddress, dst: MacAddress)
      ensures Initialised(src, dst) && fresh(pdu)
    {
      source := src;
      destination := dst;
      ethertype := GooseEthertype;
      appId := [0, 0];
      len := 0;
      reserved1 := [0, 0];
      reserved2 := [0, 0];
      var fields := new Element[PduFieldCount];
      fields[PduGocbRef] := Element(TagGocbRef, []);
      fields[PduTimeAllowedToLive] := Element(TagTimeAllowedToLive, []);
      fields[PduDataset] := Element(TagDataset, []);
      fields[PduGoId] := Element(TagGoId, []);
      fields[PduT] := Element(TagT, []);
      fields[PduStNum] := Element(TagStNum, []);
      fields[PduSqNum] := Element(TagSqNum, []);
      fields[PduSimulation] := Element(TagSimulation, []);
      fields[PduConfRev] := Element(TagConfRev, []);
      fields[PduNdsCom] := Element(TagNdsCom, []);
      fields[PduNumDatasetEntries] := Element(TagNumDatasetEntries, []);
      fields[PduAllData] := Element(TagAllData, []);
      pdu := fields;
    }
  }

  /** A goose_handle: the frame, its encoded byte stream and that stream's length. */
  class GooseHandle {
    var frame: GooseFrame?
    var byteStream: array?<Byte>
    var length: nat

    /** A handle in zero-initialised static storage. */
    constructor ()
      ensures frame == null && byteStream == null && length == 0
    {
      frame := null;
      byteStream := null;
      length := 0;
    }

    /** goose_encode: the body is empty in this revision. */
    method Encode()
      ensures unchanged(this)
      ensures frame != null ==> unchanged(frame, frame.pdu)
    {
    }

    /**
     * goose_free: nothing happens to a handle without a frame; otherwise the
     * frame and the stream are released and the handle is emptied. The pool's
     * counter is not touched, so the handle is not issued again.
     */
    method Free()
      modifies this
      ensures old(frame) == null ==> unchanged(this)
      ensures old(frame) != null ==> byteStream == null && length == 0
      ensures frame == null
    {
      if frame == null {
        return;
      }
      frame := null;
      byteStream := null;
      length := 0;
    }
  }

  /** The slot goose_init issues from a pool with `inUse` handles taken, if any. */
  function InitSlot(inUse: nat, succeeded: bool): Option<nat>
  {
    if inUse == MaxGooseFrames - 1 then None
    else if !succeeded then None
    else Some(inUse)
  }

  /** The pool's counter after that goose_init: a failed allocation leaves it alone. */
  function InUseAfter(inUse: nat, succeeded: bool): nat
  {
    if InitSlot(inUse, succeeded).Some? then inUse + 1 else inUse
  }

  /** The static handle_list and handles_in_use of goose.c. */
  class GoosePool {
    const handleList: seq<GooseHandle>
    var handlesInUse: nat

    predicate Valid()
      reads this
    {
      |handleList| == MaxGooseFrames &&
      (forall i, j | 0 <= i < j < |handleList| :: handleList[i] != handleList[j]) &&
      handlesInUse < MaxGooseFrames
    }

    /** Static storage: sixteen empty handles, none in use. */
    constructor ()
      ensures Valid() && handlesInUse == 0
      ensures forall k | 0 <= k < |handleList| ::
                fresh(handleList[k]) && handleList[k].frame == null &&
                handleList[k].byteStream == null && handleList[k].length == 0
    {
      var hs: seq<GooseHandle> := [];
      while |hs| < MaxGooseFrames
        invariant |hs| <= MaxGooseFrames
        invariant forall i, j | 0 <= i < j < |hs| :: hs[i] != hs[j]
        invariant forall k | 0 <= k < |hs| ::
                    fresh(hs[k]) && hs[k].frame == null && hs[k].byteStream == null && hs[k].length == 0
      {
        var h := new GooseHandle();
        hs := hs + [h];
      }
      handleList := hs;
      handlesInUse := 0;
    }

    /**
     * goose_init: refuses once MaxGooseFrames - 1 handles are in use; otherwise
     * takes handle_list[handles_in_use], gives it a fresh frame (or NULL, when
     * the allocation fails, without counting the slot) and fills in the
     * frame's header and tags. The app_id argument is not used: the field
     * stays 00 00.
     */
    method Init(source: MacAddress, destination: MacAddress, appId: Pair, allocationSucceeds: bool)
      returns (h: GooseHandle?)
      requires Valid()
      modifies this, handleList
      ensures Valid()
      ensures handlesInUse == InUseAfter(old(handlesInUse), allocationSucceeds)
      ensures var slot := InitSlot(old(handlesInUse), allocationSucceeds);
              if slot.Some? then h == handleList[slot.value] else h == null
      ensures h != null ==>
                h.frame != null && fresh(h.frame) && fresh(h.frame.pdu) &&
                h.frame.Initialised(source, destination) &&
                h.byteStream == old(h.byteStream) && h.length == old(h.length)
      ensures old(handlesInUse) != MaxGooseFrames - 1 && !allocationSucceeds ==>
                var failed := handleList[old(handlesInUse)];
                failed.frame == null &&
                failed.byteStream == old(failed.byteStream) && failed.length == old(failed.length)
      ensures forall k | 0 <= k < |handleList| && k != old(handlesInUse) :: unchanged(handleList[k])
      ensures old(handlesInUse) == MaxGooseFrames - 1 ==> unchanged(handleList)
    {
      if handlesInUse == MaxGooseFrames - 1 {
        return null;
      }
      var handle := handleList[handlesInUse];
      if !allocationSucceeds {
        handle.frame := null;
        return null;
      }
      var frame := new GooseFrame(source, destination);
      handle.frame := frame;
      handlesInUse := handlesInUse + 1;
      h := handle;
    }
  }

  /** The slots a run of goose_init calls issues, one allocation outcome per call. */
  function IssueAll(inUse: nat, allocations: seq<bool>): seq<nat>
    decreases |allocations|
  {
    if |allocations| == 0 then []
    else
      var slot := InitSlot(inUse, allocations[0]);
      (if slot.Some? then [slot.value] else []) +
      IssueAll(InUseAfter(inUse, allocations[0]), allocations[1..])
  }

  /** How many of the allocations succeed. */
  function Successes(allocations: seq<bool>): nat
  {
    if |allocations| == 0 then 0
    else (if allocations[0] then 1 else 0) + Successes(allocations[1..])
  }

  function Min(a: nat, b: nat): nat { if a <= b then a else b }

  /**
   * From a pool with `inUse` handles taken, successive goose_init calls issue
   * the slots inUse, inUse + 1, ... in order, one per successful allocation,
   * and stop at slot MaxGooseFrames - 2: the last slot is never issued, and
   * no slot is issued twice.
   */
  lemma {:induction false} IssuedInOrder(inUse: nat, allocations: seq<bool>)
    requires inUse < MaxGooseFrames
    ensures var issued := IssueAll(inUse, allocations);
            |issued| == Min(MaxGooseFrames - 1 - inUse, Successes(allocations)) &&
            forall i | 0 <= i < |issued| :: issued[i] == inUse + i
    decreases |allocations|
  {
    if |allocations| > 0 {
      var rest := allocations[1..];
      var next := InUseAfter(inUse, allocations[0]);
      if inUse == MaxGooseFrames - 1 {
        NothingIssuedWhenFull(rest);
      } else {
        IssuedInOrder(next, rest);
      }
    }
  }

  /** A full pool issues nothing, however many calls are made. */
  lemma {:induction false} NothingIssuedWhenFull(allocations: seq<bool>)
    ensures IssueAll(MaxGooseFrames - 1, allocations) == []
    decreases |allocations|
  {
    if |allocations| > 0 {
      NothingIssuedWhenFull(allocations[1..]);
    }
  }

  /** From an empty pool, the issued slots are 0, 1, 2, ... and never the sixteenth. */
  lemma IssuedFromEmpty(allocations: seq<bool>)
    ensures var issued := IssueAll(0, allocations);
            |issued| <= MaxGooseFrames - 1 &&
            (forall i | 0 <= i < |issued| :: issued[i] == i) &&
            MaxGooseFrames - 1 !in issued
  {
    IssuedInOrder(0, allocations);
  }
}
