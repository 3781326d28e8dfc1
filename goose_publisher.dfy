/**
 * The GOOSE publisher of iec61850/goose_publisher.c: a registry of sixteen
 * message slots, and the per-tick retransmission state machine
 * goose_message_housekeeping that goose_publisher_process runs on every
 * registered slot.
 *
 * The output callback is modelled by a ghost log of the transmissions the
 * publisher makes, each recording the message and the time-allowed-to-live,
 * stNum and sqNum it was sent with. Semaphores are not modelled: each public
 * operation is atomic.
 */
module GoosePublisher {
  import opened Wrappers
  import opened Goose

  const MaxGooseMessages: nat := 16

  /** The time-allowed-to-live and burst length the update case restarts from. */
  const UpdateTtl: U16 := 3
  const BurstLength: nat := 6

  /** goose_message_params, copied by value into and out of the registry. */
  datatype MessageParams = MessageParams(
    name: Option<string>,
    handle: GooseHandle?,
    defaultTtl: U16,
    currentTtl: U16,
    timeSince: U16,
    stNum: U32,
    sqNum: U32,
    burstCount: nat,
    updated: U8)

  /** One call of the output callback, with the slot's ttl, stNum and sqNum at that call. */
  datatype Transmission = Transmission(name: Option<string>, ttl: U16, stNum: U32, sqNum: U32)

  /** One housekeeping tick of a slot: its new parameters and what it sent. */
  datatype Tick = Tick(next: MessageParams, sent: seq<Transmission>)

  function Sent(m: MessageParams): Transmission
  {
    Transmission(m.name, m.currentTtl, m.stNum, m.sqNum)
  }

  /** The C increments: unsigned wrap-around at the width of the field. */
  function IncU32(x: U32): U32 { (x + 1) % U32Limit }
  function DoubleU16(x: U16): U16 { (2 * x) % U16Limit }

  /**
   * goose_message_housekeeping, in its four prioritised cases: an update
   * restarts the burst and sends; a slot inside its time-allowed-to-live only
   * counts the tick; a slot in a burst doubles its time-allowed-to-live and
   * sends; a stable slot goes back to its default and sends.
   */
  function Housekeep(m: MessageParams): Tick
  {
    if m.updated != 0 then
      var n := m.(burstCount := BurstLength, currentTtl := UpdateTtl, timeSince := 0, updated := 0,
                  stNum := IncU32(m.stNum), sqNum := 0);
      Tick(n, [Sent(n)])
    else if m.timeSince < m.currentTtl then
      Tick(m.(timeSince := m.timeSince + 1), [])
    else if m.burstCount > 0 then
      var n := m.(burstCount := m.burstCount - 1, currentTtl := DoubleU16(m.currentTtl),
                  sqNum := IncU32(m.sqNum), timeSince := 0);
      Tick(n, [Sent(n)])
    else
      var n := m.(sqNum := IncU32(m.sqNum), currentTtl := m.defaultTtl, timeSince := 0);
      Tick(n, [Sent(n)])
  }

  /**
   * Every tick keeps the name, handle and default, clears the updated flag and
   * makes at most one transmission, with the counters the slot is left with.
   * A slot sends exactly when an update is pending or its time-allowed-to-live
   * has run out, and only an update touches stNum.
   */
  lemma HousekeepInvariants(m: MessageParams)
    ensures var r := Housekeep(m);
            r.next.name == m.name && r.next.handle == m.handle && r.next.defaultTtl == m.defaultTtl &&
            r.next.updated == 0 &&
            |r.sent| <= 1 &&
            (r.sent == [] <==> m.updated == 0 && m.timeSince < m.currentTtl) &&
            (r.sent != [] ==> r.sent == [Sent(r.next)] && r.next.timeSince == 0) &&
            r.next.stNum == if m.updated != 0 then IncU32(m.stNum) else m.stNum
  {
  }

  /** While waiting, only the time since the last transmission moves. */
  lemma HousekeepWaits(m: MessageParams)
    requires m.updated == 0 && m.timeSince < m.currentTtl
    ensures Housekeep(m) == Tick(m.(timeSince := m.timeSince + 1), [])
  {
  }

  /**
   * In a burst and in stable mode sqNum steps by one, modulo 2^32, and the
   * time-allowed-to-live doubles (modulo 2^16) or returns to the default.
   */
  lemma HousekeepSends(m: MessageParams)
    requires m.updated == 0 && m.timeSince >= m.currentTtl
    ensures var n := Housekeep(m).next;
            n.sqNum == IncU32(m.sqNum) && n.stNum == m.stNum && n.timeSince == 0 &&
            (m.burstCount > 0 ==> n.burstCount == m.burstCount - 1 && n.currentTtl == DoubleU16(m.currentTtl)) &&
            (m.burstCount == 0 ==> n.burstCount == 0 && n.currentTtl == m.defaultTtl)
  {
  }

  /** What goose_publisher_process does to one slot: housekeeping if it is named. */
  function ProcessSlot(m: MessageParams): Tick
  {
    if m.name.Some? then Housekeep(m) else Tick(m, [])
  }

  /** The transmissions of one process call over the first i slots, in index order. */
  function ProcessLog(ms: seq<MessageParams>, i: nat): seq<Transmission>
    requires i <= |ms|
  {
    if i == 0 then [] else ProcessLog(ms, i - 1) + ProcessSlot(ms[i - 1]).sent
  }

  /** The transmissions of a log made under one name, in the order they were made. */
  function SentAs(log: seq<Transmission>, name: Option<string>): seq<Transmission>
  {
    if |log| == 0 then []
    else SentAs(log[..|log| - 1], name) + (if log[|log| - 1].name == name then [log[|log| - 1]] else [])
  }

  lemma {:induction false} SentAsConcat(a: seq<Transmission>, b: seq<Transmission>, name: Option<string>)
    ensures SentAs(a + b, name) == SentAs(a, name) + SentAs(b, name)
    decreases |b|
  {
    if |b| > 0 {
      var ab := a + b;
      var front := b[..|b| - 1];
      assert ab[..|ab| - 1] == a + front;
      assert ab[|ab| - 1] == b[|b| - 1];
      SentAsConcat(a, front, name);
    } else {
      assert a + b == a;
    }
  }

  /** A slot whose name no other slot of the registry holds. */
  predicate OnlyAt(ms: seq<MessageParams>, j: nat)
  {
    j < |ms| && ms[j].name.Some? &&
    forall k | 0 <= k < |ms| && k != j :: ms[k].name != ms[j].name
  }

  /** What one slot sends in a process call is sent under that slot's own name. */
  lemma SlotSentAs(m: MessageParams, name: Option<string>)
    ensures SentAs(ProcessSlot(m).sent, name) == if m.name == name then ProcessSlot(m).sent else []
  {
    var s := ProcessSlot(m).sent;
    HousekeepInvariants(m);
    if s != [] {
      assert s[..0] == [];
    }
  }

  /**
   * Of the transmissions one process call makes over the first i slots, those
   * under the name only slot j holds are exactly what slot j's housekeeping
   * sends, once slot j is among them.
   */
  lemma {:induction false} ProcessLogOf(ms: seq<MessageParams>, i: nat, j: nat)
    requires OnlyAt(ms, j) && i <= |ms|
    ensures SentAs(ProcessLog(ms, i), ms[j].name) == if j < i then Housekeep(ms[j]).sent else []
    decreases i
  {
    if i > 0 {
      ProcessLogOf(ms, i - 1, j);
      if i - 1 == j {
        ProcessLogAt(ms, j);
      } else {
        ProcessLogPast(ms, i, j);
      }
    }
  }

  /** Slot j itself adds its housekeeping's transmissions under its name. */
  lemma ProcessLogAt(ms: seq<MessageParams>, j: nat)
    requires OnlyAt(ms, j) && SentAs(ProcessLog(ms, j), ms[j].name) == []
    ensures SentAs(ProcessLog(ms, j + 1), ms[j].name) == Housekeep(ms[j]).sent
  {
    var slot := ProcessSlot(ms[j]).sent;
    SentAsConcat(ProcessLog(ms, j), slot, ms[j].name);
    SlotSentAs(ms[j], ms[j].name);
    EmptyConcat([], slot);
  }

  /** Any other slot adds nothing under slot j's name. */
  lemma ProcessLogPast(ms: seq<MessageParams>, i: nat, j: nat)
    requires OnlyAt(ms, j) && 0 < i <= |ms| && i - 1 != j
    ensures SentAs(ProcessLog(ms, i), ms[j].name) == SentAs(ProcessLog(ms, i - 1), ms[j].name)
  {
    var front := ProcessLog(ms, i - 1);
    SentAsConcat(front, ProcessSlot(ms[i - 1]).sent, ms[j].name);
    assert ms[i - 1].name != ms[j].name;
    SlotSentAs(ms[i - 1], ms[j].name);
    EmptyConcat(SentAs(front, ms[j].name), []);
  }

  /** Appending or prepending nothing leaves a log as it is. */
  lemma EmptyConcat(a: seq<Transmission>, b: seq<Transmission>)
    ensures a == [] ==> a + b == b
    ensures b == [] ==> a + b == a
  {
  }

  /** The registry after one process call. */
  function ProcessAll(ms: seq<MessageParams>): (r: seq<MessageParams>)
    ensures |r| == |ms| && forall k | 0 <= k < |ms| :: r[k] == ProcessSlot(ms[k]).next
  {
    seq(|ms|, k requires 0 <= k < |ms| => ProcessSlot(ms[k]).next)
  }

  /** The slot goose_publisher_register fills: the first without a name. */
  function FirstFree(ms: seq<MessageParams>): (r: Option<nat>)
    ensures r.Some? ==> r.value < |ms| && ms[r.value].name.None? &&
                        forall j | 0 <= j < r.value :: ms[j].name.Some?
    ensures r.None? ==> forall j | 0 <= j < |ms| :: ms[j].name.Some?
  {
    if |ms| == 0 then None
    else if ms[0].name.None? then Some(0)
    else match FirstFree(ms[1..])
      case None => None
      case Some(i) => Some(i + 1)
  }

  /** The slot goose_publisher_deregister clears: the first with that name. */
  function FirstMatch(ms: seq<MessageParams>, name: string): (r: Option<nat>)
    ensures r.Some? ==> r.value < |ms| && ms[r.value].name == Some(name) &&
                        forall j | 0 <= j < r.value :: ms[j].name != Some(name)
    ensures r.None? ==> forall j | 0 <= j < |ms| :: ms[j].name != Some(name)
  {
    if |ms| == 0 then None
    else if ms[0].name == Some(name) then Some(0)
    else match FirstMatch(ms[1..], name)
      case None => None
      case Some(i) => Some(i + 1)
  }

  /** What init and deregister write into a slot; the other counters are left as they were. */
  function Cleared(m: MessageParams): MessageParams
  {
    m.(name := None, handle := null, defaultTtl := 0, burstCount := 0)
  }

  /** The registry after goose_publisher_register(params). */
  function RegisterSpec(ms: seq<MessageParams>, params: MessageParams): seq<MessageParams>
  {
    match FirstFree(ms)
    case None => ms
    case Some(i) => ms[i := params]
  }

  /** The registry after goose_publisher_deregister(name). */
  function DeregisterSpec(ms: seq<MessageParams>, name: string): seq<MessageParams>
  {
    match FirstMatch(ms, name)
    case None => ms
    case Some(i) => ms[i := Cleared(ms[i])]
  }

  /** The number of registered slots: those with a name. */
  function NamedCount(ms: seq<MessageParams>): (r: nat)
    ensures r <= |ms|
  {
    if |ms| == 0 then 0 else (if ms[0].name.Some? then 1 else 0) + NamedCount(ms[1..])
  }

  function Named(m: MessageParams): nat
  {
    if m.name.Some? then 1 else 0
  }

  /** Overwriting one slot changes the count by what that slot held and what replaces it. */
  lemma {:induction false} NamedCountUpdate(ms: seq<MessageParams>, i: nat, x: MessageParams)
    requires i < |ms|
    ensures NamedCount(ms[i := x]) + Named(ms[i]) == NamedCount(ms) + Named(x)
    decreases i
  {
    if i == 0 {
      assert ms[i := x][1..] == ms[1..];
    } else {
      assert ms[i := x][1..] == ms[1..][i - 1 := x];
      NamedCountUpdate(ms[1..], i - 1, x);
    }
  }

  /** There is a free slot exactly when fewer slots than the registry holds are named. */
  lemma {:induction false} FreeSlotExists(ms: seq<MessageParams>)
    ensures FirstFree(ms).Some? <==> NamedCount(ms) < |ms|
  {
    if |ms| > 0 && ms[0].name.Some? {
      FreeSlotExists(ms[1..]);
    }
  }

  /**
   * Registering a named message takes one more slot while one is free, and
   * leaves a full registry as it was.
   */
  lemma RegisterCount(ms: seq<MessageParams>, params: MessageParams)
    requires params.name.Some?
    ensures NamedCount(ms) < |ms| ==> NamedCount(RegisterSpec(ms, params)) == NamedCount(ms) + 1
    ensures NamedCount(ms) == |ms| ==> RegisterSpec(ms, params) == ms
  {
    FreeSlotExists(ms);
    if FirstFree(ms).Some? {
      NamedCountUpdate(ms, FirstFree(ms).value, params);
    }
  }

  /** Deregistering a name that is registered frees one slot; any other name changes nothing. */
  lemma DeregisterCount(ms: seq<MessageParams>, name: string)
    ensures (exists k | 0 <= k < |ms| :: ms[k].name == Some(name)) ==>
              NamedCount(DeregisterSpec(ms, name)) + 1 == NamedCount(ms)
    ensures (forall k | 0 <= k < |ms| :: ms[k].name != Some(name)) ==> DeregisterSpec(ms, name) == ms
  {
    match FirstMatch(ms, name)
    case None =>
    case Some(i) =>
      NamedCountUpdate(ms, i, Cleared(ms[i]));
  }

  /**
   * Deregistering a name that was just registered, and was not there before,
   * empties the slot it went into and restores every name in the registry.
   */
  lemma RegisterDeregister(ms: seq<MessageParams>, params: MessageParams, name: string)
    requires params.name == Some(name) && FirstFree(ms).Some?
    requires forall k | 0 <= k < |ms| :: ms[k].name != Some(name)
    ensures var r := DeregisterSpec(RegisterSpec(ms, params), name);
            var i := FirstFree(ms).value;
            |r| == |ms| && r[i] == Cleared(params) &&
            (forall k | 0 <= k < |ms| && k != i :: r[k] == ms[k]) &&
            (forall k | 0 <= k < |ms| :: r[k].name == ms[k].name)
  {
    var i := FirstFree(ms).value;
    var reg := ms[i := params];
    assert FirstMatch(reg, name) == Some(i);
  }

  /**
   * Names are not checked for duplicates: registering a name that an earlier
   * slot already holds adds a second entry, and deregistering that name then
   * clears the earlier entry and keeps the new one.
   */
  lemma DuplicateRegistration(ms: seq<MessageParams>, params: MessageParams, name: string, j: nat)
    requires params.name == Some(name) && j < |ms| && ms[j].name == Some(name)
    requires forall k | 0 <= k < j :: ms[k].name != Some(name)
    requires FirstFree(ms).Some? && j < FirstFree(ms).value
    ensures var i := FirstFree(ms).value;
            var reg := RegisterSpec(ms, params);
            var r := DeregisterSpec(reg, name);
            reg[i] == params && reg[j] == ms[j] &&
            r[j] == Cleared(ms[j]) && r[i] == params
  {
    var i := FirstFree(ms).value;
    var reg := ms[i := params];
    assert FirstMatch(reg, name) == Some(j);
  }

  /** A slot in zero-initialised static storage. */
  function ZeroSlot(): MessageParams
  {
    MessageParams(None, null, 0, 0, 0, 0, 0, 0, 0)
  }

  /** The static goose_publisher and time_elapsed_ms of goose_publisher.c. */
  class Publisher {
    const messages: array<MessageParams>
    var timeElapsedMs: U32
    ghost var sent: seq<Transmission>

    predicate Valid()
      reads this
    {
      messages.Length == MaxGooseMessages
    }

    /** Static storage: every slot zero, no time elapsed, nothing sent. */
    constructor ()
      ensures Valid() && fresh(messages)
      ensures forall k | 0 <= k < MaxGooseMessages :: messages[k] == ZeroSlot()
      ensures timeElapsedMs == 0 && sent == []
    {
      messages := new MessageParams[MaxGooseMessages](_ => ZeroSlot());
      timeElapsedMs := 0;
      sent := [];
    }

    /**
     * goose_publisher_init: clears the name, handle, default and burst count
     * of every slot. The output callback is the ghost log.
     */
    method Init()
      requires Valid()
      modifies messages
      ensures forall k | 0 <= k < MaxGooseMessages :: messages[k] == Cleared(old(messages[k]))
    {
      for i := 0 to MaxGooseMessages
        invariant forall k | 0 <= k < i :: messages[k] == Cleared(old(messages[k]))
        invariant forall k | i <= k < MaxGooseMessages :: messages[k] == old(messages[k])
      {
        messages[i] := Cleared(messages[i]);
      }
    }

    /**
     * goose_publisher_register: copies the parameters into the first slot
     * without a name; with no such slot nothing changes. Names are not checked
     * for duplicates.
     */
    method Register(params: MessageParams)
      requires Valid()
      modifies messages
      ensures messages[..] == RegisterSpec(old(messages[..]), params)
    {
      for i := 0 to MaxGooseMessages
        invariant forall j | 0 <= j < i :: messages[j].name.Some?
        invariant messages[..] == old(messages[..])
      {
        if messages[i].name.None? {
          messages[i] := params;
          assert FirstFree(old(messages[..])) == Some(i);
          return;
        }
      }
      assert FirstFree(old(messages[..])) == None;
    }

    /** goose_publisher_deregister: clears the first slot with that name, if any. */
    method Deregister(name: string)
      requires Valid()
      modifies messages
      ensures messages[..] == DeregisterSpec(old(messages[..]), name)
    {
      for i := 0 to MaxGooseMessages
        invariant forall j | 0 <= j < i :: messages[j].name != Some(name)
        invariant messages[..] == old(messages[..])
      {
        if messages[i].name.Some? && messages[i].name.value == name {
          messages[i] := Cleared(messages[i]);
          assert FirstMatch(old(messages[..]), name) == Some(i);
          return;
        }
      }
      assert FirstMatch(old(messages[..]), name) == None;
    }

    /**
     * goose_publisher_notify: the scan finds the named slots, but the body for
     * a match is empty in this revision, so nothing changes; in particular the
     * updated flag is not set.
     */
    method Notify(name: string)
      requires Valid()
      ensures messages[..] == old(messages[..]) && sent == old(sent)
    {
      for i := 0 to MaxGooseMessages
      {
        if messages[i].name.Some? && messages[i].name.value == name {
        }
      }
    }

    /** goose_message_housekeeping on slot i, in place. */
    method Housekeeping(i: nat)
      requires Valid() && i < MaxGooseMessages
      modifies this, messages
      ensures messages[i] == Housekeep(old(messages[i])).next
      ensures forall k | 0 <= k < MaxGooseMessages && k != i :: messages[k] == old(messages[k])
      ensures sent == old(sent) + Housekeep(old(messages[i])).sent
      ensures timeElapsedMs == old(timeElapsedMs)
    {
      var p := messages[i];
      if p.updated != 0 {
        p := p.(burstCount := BurstLength, currentTtl := UpdateTtl, timeSince := 0, updated := 0);
        p := p.(stNum := IncU32(p.stNum), sqNum := 0);
        messages[i] := p;
        sent := sent + [Sent(p)];
        return;
      }
      if p.timeSince < p.currentTtl {
        messages[i] := p.(timeSince := p.timeSince + 1);
        return;
      }
      if p.burstCount > 0 {
        p := p.(burstCount := p.burstCount - 1, currentTtl := DoubleU16(p.currentTtl));
        p := p.(sqNum := IncU32(p.sqNum));
        messages[i] := p;
        sent := sent + [Sent(p)];
        messages[i] := p.(timeSince := 0);
        return;
      }
      p := p.(sqNum := IncU32(p.sqNum));
      if p.currentTtl != p.defaultTtl {
        p := p.(currentTtl := p.defaultTtl);
      }
      messages[i] := p;
      sent := sent + [Sent(p)];
      messages[i] := p.(timeSince := 0);
    }

    /** One iteration of the goose_publisher_process loop: housekeeping if slot i is named. */
    method ProcessSlotAt(i: nat)
      requires Valid() && i < MaxGooseMessages
      modifies this, messages
      ensures messages[i] == ProcessSlot(old(messages[i])).next
      ensures forall k | 0 <= k < MaxGooseMessages && k != i :: messages[k] == old(messages[k])
      ensures sent == old(sent) + ProcessSlot(old(messages[i])).sent
      ensures timeElapsedMs == old(timeElapsedMs)
    {
      if messages[i].name.Some? {
        Housekeeping(i);
      }
    }

    /**
     * goose_publisher_process: housekeeping on every named slot in index order,
     * then one more millisecond on the 32-bit clock.
     */
    method Process()
      requires Valid()
      modifies this, messages
      ensures messages[..] == ProcessAll(old(messages[..]))
      ensures sent == old(sent) + ProcessLog(old(messages[..]), messages.Length)
      ensures timeElapsedMs == IncU32(old(timeElapsedMs))
    {
      ghost var before := messages[..];
      for i := 0 to MaxGooseMessages
        invariant forall k | 0 <= k < i :: messages[k] == ProcessSlot(before[k]).next
        invariant forall k | i <= k < MaxGooseMessages :: messages[k] == before[k]
        invariant sent == old(sent) + ProcessLog(before, i)
        invariant timeElapsedMs == old(timeElapsedMs)
      {
        ProcessSlotAt(i);
      }
      assert messages[..] == ProcessAll(before);
      timeElapsedMs := IncU32(timeElapsedMs);
    }
  }
}
