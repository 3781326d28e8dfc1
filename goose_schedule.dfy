/**
 * The retransmission schedule that follows from goose_message_housekeeping
 * when it runs once per tick on a slot: a slot inside its time-allowed-to-live
 * stays silent, an update sends at once and then six burst transmissions
 * follow with the time-allowed-to-live doubling from 3 to 192, and the slot
 * then settles at its default, sending every default + 1 ticks.
 */
module GooseSchedule {
  import opened Goose
  import opened GoosePublisher

  /** A transmission and the tick it is made on. */
  datatype Event = Event(tick: nat, tx: Transmission)

  /** A slot after some ticks, and what it sent on the way. */
  datatype Trace = Trace(final: MessageParams, events: seq<Event>)

  function Stamp(sent: seq<Transmission>, tick: nat): seq<Event>
  {
    if sent == [] then [] else [Event(tick, sent[0])]
  }

  /** n ticks of `step` on one slot; the first of them is tick t + 1. */
  function Run(step: MessageParams -> Tick, m: MessageParams, t: nat, n: nat): Trace
    decreases n
  {
    if n == 0 then Trace(m, [])
    else
      var h := step(m);
      var rest := Run(step, h.next, t + 1, n - 1);
      Trace(rest.final, Stamp(h.sent, t + 1) + rest.events)
  }

  /** Running a ticks then b ticks is running a + b ticks. */
  lemma {:induction false} RunAdd(step: MessageParams -> Tick, m: MessageParams, t: nat, a: nat, b: nat)
    ensures var first := Run(step, m, t, a);
            var second := Run(step, first.final, t + a, b);
            Run(step, m, t, a + b) == Trace(second.final, first.events + second.events)
    decreases a
  {
    if a > 0 {
      var h := step(m);
      var first := Run(step, h.next, t + 1, a - 1);
      var second := Run(step, first.final, t + a, b);
      var whole := Run(step, h.next, t + 1, a - 1 + b);
      RunAdd(step, h.next, t + 1, a - 1, b);
      assert whole == Trace(second.final, first.events + second.events);
      AppendAssoc(Stamp(h.sent, t + 1), first.events, second.events);
    }
  }

  lemma AppendAssoc(x: seq<Event>, y: seq<Event>, z: seq<Event>)
    ensures x + (y + z) == (x + y) + z
  {
  }

  /** Chaining two stretches of ticks with known outcomes. */
  lemma Extend(step: MessageParams -> Tick, m: MessageParams, t: nat, a: nat, b: nat,
               mid: MessageParams, e1: seq<Event>, e2: seq<Event>, f: MessageParams)
    requires Run(step, m, t, a) == Trace(mid, e1)
    requires Run(step, mid, t + a, b) == Trace(f, e2)
    ensures Run(step, m, t, a + b) == Trace(f, e1 + e2)
  {
    RunAdd(step, m, t, a, b);
  }

  /** One tick of `step` as a trace. */
  lemma RunOne(step: MessageParams -> Tick, m: MessageParams, t: nat)
    ensures Run(step, m, t, 1) == Trace(step(m).next, Stamp(step(m).sent, t + 1))
  {
    assert Run(step, step(m).next, t + 1, 0) == Trace(step(m).next, []);
    assert Stamp(step(m).sent, t + 1) + [] == Stamp(step(m).sent, t + 1);
  }

  /** The state a slot is in once it is due: the time since the last transmission has reached the time-allowed-to-live. */
  function Due(m: MessageParams): MessageParams
  {
    m.(timeSince := m.currentTtl)
  }

  /**
   * A slot with no update pending that is not past its time-allowed-to-live
   * sends nothing for currentTtl - timeSince ticks, then sends on the next
   * tick exactly what it would send if it were due now.
   */
  lemma {:induction false} WaitThenSend(m: MessageParams, t: nat)
    requires m.updated == 0 && m.timeSince <= m.currentTtl
    ensures var g := m.currentTtl - m.timeSince + 1;
            var h := Housekeep(Due(m));
            Run(Housekeep, m, t, g) == Trace(h.next, [Event(t + g, Sent(h.next))])
    decreases m.currentTtl - m.timeSince
  {
    var h := Housekeep(Due(m));
    if m.timeSince < m.currentTtl {
      var w := Housekeep(m).next;
      assert Housekeep(m).sent == [];
      assert w == m.(timeSince := m.timeSince + 1);
      assert Due(w) == Due(m);
      WaitThenSend(w, t + 1);
    } else {
      assert Due(m) == m;
      RunOne(Housekeep, m, t);
    }
  }

  /** A burst transmission: the burst count drops, the time-allowed-to-live doubles, sqNum steps. */
  function BurstNext(m: MessageParams): MessageParams
    requires m.burstCount > 0
  {
    m.(burstCount := m.burstCount - 1, currentTtl := DoubleU16(m.currentTtl), sqNum := IncU32(m.sqNum), timeSince := 0)
  }

  /** In a burst the next transmission comes currentTtl + 1 ticks after the last one. */
  lemma BurstSegment(m: MessageParams, t: nat)
    requires m.updated == 0 && m.timeSince == 0 && m.burstCount > 0
    ensures Run(Housekeep, m, t, m.currentTtl + 1) ==
              Trace(BurstNext(m), [Event(t + m.currentTtl + 1, Sent(BurstNext(m)))])
  {
    WaitThenSend(m, t);
    assert Housekeep(Due(m)).next == BurstNext(m);
  }

  /** A stable transmission: sqNum steps and the time-allowed-to-live goes back to the default. */
  function StableNext(m: MessageParams): MessageParams
  {
    m.(sqNum := IncU32(m.sqNum), currentTtl := m.defaultTtl, timeSince := 0)
  }

  /** Out of a burst, the next transmission comes currentTtl + 1 ticks on, at the default time-allowed-to-live. */
  lemma StableSegment(m: MessageParams, t: nat)
    requires m.updated == 0 && m.timeSince == 0 && m.burstCount == 0
    ensures Run(Housekeep, m, t, m.currentTtl + 1) ==
              Trace(StableNext(m), [Event(t + m.currentTtl + 1, Sent(StableNext(m)))])
  {
    WaitThenSend(m, t);
    assert Housekeep(Due(m)).next == StableNext(m);
  }

  /**
   * The i-th of a run of segments: `step`, started in states[i] on tick
   * t + starts[i], reaches states[i + 1] on tick t + starts[i + 1] and sends
   * exactly evs[i] on the way.
   */
  ghost predicate SegmentAt(step: MessageParams -> Tick, states: seq<MessageParams>, starts: seq<nat>,
                            evs: seq<Event>, t: nat, i: nat)
    requires i < |evs| && |states| == |starts| == |evs| + 1
  {
    starts[i] <= starts[i + 1] &&
    Run(step, states[i], t + starts[i], starts[i + 1] - starts[i]) == Trace(states[i + 1], [evs[i]])
  }

  ghost predicate Segments(step: MessageParams -> Tick, states: seq<MessageParams>, starts: seq<nat>,
                           evs: seq<Event>, t: nat)
  {
    |states| == |starts| == |evs| + 1 &&
    forall i | 0 <= i < |evs| :: SegmentAt(step, states, starts, evs, t, i)
  }

  /** Segments chained: the first n of them, run back to back. */
  lemma Chain(step: MessageParams -> Tick, states: seq<MessageParams>, starts: seq<nat>,
              evs: seq<Event>, t: nat, n: nat)
    requires Segments(step, states, starts, evs, t) && n <= |evs|
    ensures starts[0] <= starts[n]
    ensures Run(step, states[0], t + starts[0], starts[n] - starts[0]) == Trace(states[n], evs[..n])
  {
    ChainZero(step, states, starts, evs, t);
    ChainFrom(step, states, starts, evs, t, 0, n);
  }

  /** The run over the first i segments, beside what they add up to. */
  function Chained(step: MessageParams -> Tick, states: seq<MessageParams>, starts: seq<nat>,
                   evs: seq<Event>, t: nat, i: nat): (Trace, Trace)
    requires i <= |evs| && |states| == |starts| == |evs| + 1 && starts[0] <= starts[i]
  {
    (Run(step, states[0], t + starts[0], starts[i] - starts[0]), Trace(states[i], evs[..i]))
  }

  lemma ChainZero(step: MessageParams -> Tick, states: seq<MessageParams>, starts: seq<nat>,
                  evs: seq<Event>, t: nat)
    requires |states| == |starts| == |evs| + 1
    ensures Chained(step, states, starts, evs, t, 0).0 == Chained(step, states, starts, evs, t, 0).1
  {
    assert evs[..0] == [];
  }

  lemma {:induction false} ChainFrom(step: MessageParams -> Tick, states: seq<MessageParams>, starts: seq<nat>,
                                     evs: seq<Event>, t: nat, i: nat, n: nat)
    requires Segments(step, states, starts, evs, t) && i <= n <= |evs| && starts[0] <= starts[i]
    requires Chained(step, states, starts, evs, t, i).0 == Chained(step, states, starts, evs, t, i).1
    ensures starts[0] <= starts[n]
    ensures Chained(step, states, starts, evs, t, n).0 == Chained(step, states, starts, evs, t, n).1
    decreases n - i
  {
    if i < n {
      assert SegmentAt(step, states, starts, evs, t, i);
      ChainNext(step, states, starts, evs, t, i + 1);
      ChainFrom(step, states, starts, evs, t, i + 1, n);
    }
  }

  lemma ChainNext(step: MessageParams -> Tick, states: seq<MessageParams>, starts: seq<nat>,
                  evs: seq<Event>, t: nat, i: nat)
    requires 0 < i <= |evs| && |states| == |starts| == |evs| + 1 && starts[0] <= starts[i - 1]
    requires SegmentAt(step, states, starts, evs, t, i - 1)
    requires Chained(step, states, starts, evs, t, i - 1).0 == Chained(step, states, starts, evs, t, i - 1).1
    ensures starts[0] <= starts[i]
    ensures Chained(step, states, starts, evs, t, i).0 == Chained(step, states, starts, evs, t, i).1
  {
    TakeSnoc(evs, i - 1);
    ExtendBy(step, states[0], t + starts[0], starts[i - 1] - starts[0], t + starts[i - 1],
             starts[i] - starts[i - 1], starts[i] - starts[0], states[i - 1], evs[..i - 1], evs[i - 1],
             states[i], evs[..i]);
  }

  /** A stretch with a known outcome, followed by one that makes a single event. */
  lemma ExtendBy(step: MessageParams -> Tick, m: MessageParams, t: nat, a: nat, t2: nat, b: nat, c: nat,
                 mid: MessageParams, e1: seq<Event>, x: Event, f: MessageParams, e: seq<Event>)
    requires Run(step, m, t, a) == Trace(mid, e1)
    requires t2 == t + a && Run(step, mid, t2, b) == Trace(f, [x])
    requires c == a + b && e == e1 + [x]
    ensures Run(step, m, t, c) == Trace(f, e)
  {
    Extend(step, m, t, a, b, mid, e1, [x], f);
  }

  lemma TakeSnoc(evs: seq<Event>, n: nat)
    requires n < |evs|
    ensures evs[..n] + [evs[n]] == evs[..n + 1]
  {
  }

  /** An update is sent on the very next tick, whatever the timers say. */
  lemma UpdateSendsAtOnce(m: MessageParams, t: nat)
    requires m.updated != 0
    ensures Run(Housekeep, m, t, 1) == Trace(BurstState(m, 0), [Event(t + 1, BurstSent(m, 0))])
  {
    assert Housekeep(m).next == BurstState(m, 0);
    RunOne(Housekeep, m, t);
  }

  /** The time-allowed-to-live after the j-th transmission since an update: 3 doubled j times. */
  function BurstTtl(j: nat): U16
    requires j <= BurstLength
  {
    [3, 6, 12, 24, 48, 96, 192][j]
  }

  /** The tick of the j-th transmission after an update, counted from the update's own. */
  function BurstStart(j: nat): nat
    requires j <= BurstLength
  {
    [0, 4, 11, 24, 49, 98, 195][j]
  }

  /** The slot after the update and j bursts. */
  function BurstState(m: MessageParams, j: nat): MessageParams
    requires j <= BurstLength
  {
    m.(burstCount := BurstLength - j, currentTtl := BurstTtl(j), timeSince := 0, updated := 0,
       stNum := IncU32(m.stNum), sqNum := j)
  }

  function BurstSent(m: MessageParams, j: nat): Transmission
    requires j <= BurstLength
  {
    Transmission(m.name, BurstTtl(j), IncU32(m.stNum), j)
  }

  /** Each burst doubles the time-allowed-to-live and comes currentTtl + 1 ticks after the one before. */
  lemma BurstTables(j: nat)
    requires j < BurstLength
    ensures DoubleU16(BurstTtl(j)) == BurstTtl(j + 1)
    ensures BurstStart(j + 1) == BurstStart(j) + BurstTtl(j) + 1
  {
  }

  /** The burst after the j-th transmission since an update. */
  lemma BurstStep(m: MessageParams, t: nat, j: nat)
    requires j < BurstLength
    ensures BurstStart(j) <= BurstStart(j + 1)
    ensures Run(Housekeep, BurstState(m, j), t + BurstStart(j), BurstStart(j + 1) - BurstStart(j)) ==
              Trace(BurstState(m, j + 1), [Event(t + BurstStart(j + 1), BurstSent(m, j + 1))])
  {
    var s := BurstState(m, j);
    var t0 := t + BurstStart(j);
    BurstTables(j);
    BurstSegment(s, t0);
    BurstNextState(m, j);
    BurstSentState(m, j + 1);
    RunAs(Housekeep, s, t0, s.currentTtl + 1, BurstStart(j + 1) - BurstStart(j),
          BurstNext(s), [Event(t0 + s.currentTtl + 1, Sent(BurstNext(s)))],
          BurstState(m, j + 1), [Event(t + BurstStart(j + 1), BurstSent(m, j + 1))]);
  }

  /** The same run, with its length and outcome written another way. */
  lemma RunAs(step: MessageParams -> Tick, s: MessageParams, t: nat, n: nat, n2: nat,
              f: MessageParams, e: seq<Event>, f2: MessageParams, e2: seq<Event>)
    requires Run(step, s, t, n) == Trace(f, e) && n == n2 && f == f2 && e == e2
    ensures Run(step, s, t, n2) == Trace(f2, e2)
  {
  }

  lemma BurstSentState(m: MessageParams, j: nat)
    requires j <= BurstLength
    ensures Sent(BurstState(m, j)) == BurstSent(m, j)
  {
  }

  lemma BurstNextState(m: MessageParams, j: nat)
    requires j < BurstLength
    ensures BurstNext(BurstState(m, j)) == BurstState(m, j + 1)
  {
    BurstTables(j);
  }

  function At(m: MessageParams, tick: nat, ttl: U16, sq: U32): Event
  {
    Event(tick, Transmission(m.name, ttl, IncU32(m.stNum), sq))
  }

  /** The j-th burst transmission (from 1) after an update sent on tick t. */
  function BurstEvent(m: MessageParams, t: nat, j: nat): Event
    requires j <= BurstLength
  {
    Event(t + BurstStart(j), BurstSent(m, j))
  }

  function BurstStates(m: MessageParams): (r: seq<MessageParams>)
    ensures |r| == 7 && forall i | 0 <= i < 7 :: r[i] == BurstState(m, i)
  {
    seq(7, i requires 0 <= i < 7 => BurstState(m, i))
  }

  function BurstStarts(): (r: seq<nat>)
    ensures |r| == 7 && forall i | 0 <= i < 7 :: r[i] == BurstStart(i)
  {
    seq(7, i requires 0 <= i < 7 => BurstStart(i))
  }

  function BurstEvents(m: MessageParams, t: nat): (r: seq<Event>)
    ensures |r| == 6 && forall i | 0 <= i < 6 :: r[i] == BurstEvent(m, t, i + 1)
  {
    seq(6, i requires 0 <= i < 6 => BurstEvent(m, t, i + 1))
  }

  /** The six bursts, each one segment. */
  lemma BurstSegments(m: MessageParams, t: nat)
    ensures Segments(Housekeep, BurstStates(m), BurstStarts(), BurstEvents(m, t), t)
  {
    forall i | 0 <= i < 6
      ensures SegmentAt(Housekeep, BurstStates(m), BurstStarts(), BurstEvents(m, t), t, i)
    {
      BurstSegmentAt(m, t, i);
    }
  }

  lemma BurstSegmentAt(m: MessageParams, t: nat, i: nat)
    requires i < 6
    ensures SegmentAt(Housekeep, BurstStates(m), BurstStarts(), BurstEvents(m, t), t, i)
  {
    BurstStep(m, t, i);
  }

  /** The six bursts after an update sent on tick t, as chained segments. */
  lemma BurstRun(m: MessageParams, t: nat)
    ensures Run(Housekeep, BurstState(m, 0), t, 195) == Trace(BurstState(m, 6), BurstEvents(m, t))
  {
    var evs := BurstEvents(m, t);
    BurstSegments(m, t);
    Chain(Housekeep, BurstStates(m), BurstStarts(), evs, t, 6);
    assert evs[..6] == evs;
  }

  /** The six bursts after an update sent on tick t: 6, 12, 24, 48, 96 and 192, each currentTtl + 1 ticks on. */
  lemma BurstPhase(m: MessageParams, t: nat)
    ensures Run(Housekeep, BurstState(m, 0), t, 195) ==
              Trace(BurstState(m, 6),
                [At(m, t + 4, 6, 1), At(m, t + 11, 12, 2), At(m, t + 24, 24, 3),
                 At(m, t + 49, 48, 4), At(m, t + 98, 96, 5), At(m, t + 195, 192, 6)])
  {
    BurstRun(m, t);
    BurstEventsListed(m, t);
  }

  lemma BurstEventsListed(m: MessageParams, t: nat)
    ensures BurstEvents(m, t) ==
              [At(m, t + 4, 6, 1), At(m, t + 11, 12, 2), At(m, t + 24, 24, 3),
               At(m, t + 49, 48, 4), At(m, t + 98, 96, 5), At(m, t + 195, 192, 6)]
  {
    var evs := BurstEvents(m, t);
    var listed := [At(m, t + 4, 6, 1), At(m, t + 11, 12, 2), At(m, t + 24, 24, 3),
                   At(m, t + 49, 48, 4), At(m, t + 98, 96, 5), At(m, t + 195, 192, 6)];
    assert evs[0] == listed[0];
    assert evs[1] == listed[1];
    assert evs[2] == listed[2];
    assert evs[3] == listed[3];
    assert evs[4] == listed[4];
    assert evs[5] == listed[5];
  }

  /** The slot after an update, its six bursts and the first stable transmission. */
  function Settled(m: MessageParams): MessageParams
  {
    m.(burstCount := 0, currentTtl := m.defaultTtl, timeSince := 0, updated := 0,
       stNum := IncU32(m.stNum), sqNum := 7)
  }

  /**
   * The schedule after an update with no further update: transmissions on the
   * next tick with time-allowed-to-live 3, then six bursts with 6, 12, 24, 48,
   * 96 and 192, each currentTtl + 1 ticks after the one before, then a stable
   * transmission at the default; sqNum counts 0 to 7 under the new stNum.
   */
  lemma UpdateSchedule(m: MessageParams, t: nat)
    requires m.updated != 0
    ensures Run(Housekeep, m, t, 389) == Trace(Settled(m), UpdateEvents(m, t))
  {
    var first := [At(m, t + 1, 3, 0)];
    var bursts := [At(m, t + 5, 6, 1), At(m, t + 12, 12, 2), At(m, t + 25, 24, 3),
                   At(m, t + 50, 48, 4), At(m, t + 99, 96, 5), At(m, t + 196, 192, 6)];
    var stable := [At(m, t + 389, m.defaultTtl, 7)];
    UpdateSendsAtOnce(m, t);
    BurstPhase(m, t + 1);
    var last := BurstState(m, 6);
    StableSegment(last, t + 196);
    assert StableNext(last) == Settled(m);
    UpdateChain(m, t, last, first, bursts, stable);
    ConcatEight(first[0], bursts[0], bursts[1], bursts[2], bursts[3], bursts[4], bursts[5], stable[0]);
  }

  /** The eight transmissions that follow an update on tick t, with their ticks. */
  function UpdateEvents(m: MessageParams, t: nat): seq<Event>
  {
    [At(m, t + 1, 3, 0), At(m, t + 5, 6, 1), At(m, t + 12, 12, 2), At(m, t + 25, 24, 3),
     At(m, t + 50, 48, 4), At(m, t + 99, 96, 5), At(m, t + 196, 192, 6), At(m, t + 389, m.defaultTtl, 7)]
  }

  lemma ConcatEight(a: Event, b: Event, c: Event, d: Event, e: Event, f: Event, g: Event, h: Event)
    ensures [a] + [b, c, d, e, f, g] + [h] == [a, b, c, d, e, f, g, h]
  {
  }

  lemma UpdateChain(m: MessageParams, t: nat, last: MessageParams,
                    first: seq<Event>, bursts: seq<Event>, stable: seq<Event>)
    requires Run(Housekeep, m, t, 1) == Trace(BurstState(m, 0), first)
    requires Run(Housekeep, BurstState(m, 0), t + 1, 195) == Trace(last, bursts)
    requires Run(Housekeep, last, t + 196, 193) == Trace(Settled(m), stable)
    ensures Run(Housekeep, m, t, 389) == Trace(Settled(m), first + bursts + stable)
  {
    Extend(Housekeep, m, t, 1, 195, BurstState(m, 0), first, bursts, last);
    Extend(Housekeep, m, t, 196, 193, last, first + bursts, stable, Settled(m));
  }

  /** A stable slot after k more stable transmissions. */
  function StableState(m: MessageParams, k: nat): MessageParams
  {
    m.(sqNum := (m.sqNum + k) % U32Limit)
  }

  /** The i-th of them (from 0), one period of default + 1 ticks after the one before. */
  function StableEvent(m: MessageParams, t: nat, i: nat): Event
  {
    Event(t + (i + 1) * (m.defaultTtl + 1),
          Transmission(m.name, m.defaultTtl, m.stNum, (m.sqNum + i + 1) % U32Limit))
  }

  function StableEvents(m: MessageParams, t: nat, k: nat): (r: seq<Event>)
    ensures |r| == k && forall i | 0 <= i < k :: r[i] == StableEvent(m, t, i)
  {
    seq(k, i requires 0 <= i < k => StableEvent(m, t, i))
  }

  /** The period after the k-th stable transmission. */
  lemma StablePeriod(m: MessageParams, t: nat, k: nat)
    requires m.updated == 0 && m.timeSince == 0 && m.burstCount == 0 && m.currentTtl == m.defaultTtl
    ensures var p := m.defaultTtl + 1;
            k * p <= (k + 1) * p &&
            Run(Housekeep, StableState(m, k), t + k * p, (k + 1) * p - k * p) ==
              Trace(StableState(m, k + 1), [StableEvent(m, t, k)])
  {
    var p := m.defaultTtl + 1;
    var s := StableState(m, k);
    assert (k + 1) * p - k * p == p;
    StableSegment(s, t + k * p);
    WrapAdd(m.sqNum + k, 1);
    assert StableNext(s) == StableState(m, k + 1);
    assert t + k * p + p == t + (k + 1) * p;
  }

  function StableStates(m: MessageParams, k: nat): (r: seq<MessageParams>)
    ensures |r| == k + 1 && forall i | 0 <= i <= k :: r[i] == StableState(m, i)
  {
    seq(k + 1, i requires 0 <= i <= k => StableState(m, i))
  }

  function StableStarts(m: MessageParams, k: nat): (r: seq<nat>)
    ensures |r| == k + 1 && forall i | 0 <= i <= k :: r[i] == i * (m.defaultTtl + 1)
  {
    var p: nat := m.defaultTtl + 1;
    seq(k + 1, i requires 0 <= i <= k => i * p)
  }

  lemma StableSegmentAt(m: MessageParams, t: nat, k: nat, i: nat)
    requires m.updated == 0 && m.timeSince == 0 && m.burstCount == 0 && m.currentTtl == m.defaultTtl
    requires i < k
    ensures SegmentAt(Housekeep, StableStates(m, k), StableStarts(m, k), StableEvents(m, t, k), t, i)
  {
    StablePeriod(m, t, i);
  }

  lemma StableSegments(m: MessageParams, t: nat, k: nat)
    requires m.updated == 0 && m.timeSince == 0 && m.burstCount == 0 && m.currentTtl == m.defaultTtl
    ensures Segments(Housekeep, StableStates(m, k), StableStarts(m, k), StableEvents(m, t, k), t)
  {
    forall i | 0 <= i < k
      ensures SegmentAt(Housekeep, StableStates(m, k), StableStarts(m, k), StableEvents(m, t, k), t, i)
    {
      StableSegmentAt(m, t, k, i);
    }
  }

  /**
   * A stable slot sends every default + 1 ticks, at its default
   * time-allowed-to-live, with sqNum counting up (modulo 2^32) from where it was.
   */
  lemma StableSchedule(m: MessageParams, t: nat, k: nat)
    requires m.updated == 0 && m.timeSince == 0 && m.burstCount == 0 && m.currentTtl == m.defaultTtl
    ensures Run(Housekeep, m, t, k * (m.defaultTtl + 1)) == Trace(StableState(m, k), StableEvents(m, t, k))
  {
    var evs := StableEvents(m, t, k);
    StableSegments(m, t, k);
    Chain(Housekeep, StableStates(m, k), StableStarts(m, k), evs, t, k);
    assert StableState(m, 0) == m;
    assert evs[..k] == evs;
  }

  /** The registry after k calls of goose_publisher_process. */
  function ProcessTimes(ms: seq<MessageParams>, k: nat): (r: seq<MessageParams>)
    ensures |r| == |ms|
  {
    if k == 0 then ms else ProcessAll(ProcessTimes(ms, k - 1))
  }

  /** The last of n ticks: the step applied to where the first n - 1 left the slot. */
  lemma RunLast(step: MessageParams -> Tick, m: MessageParams, t: nat, n: nat)
    requires n > 0
    ensures var last := Run(step, m, t, n - 1).final;
            Run(step, m, t, n).final == step(last).next &&
            Run(step, m, t, n).events == Run(step, m, t, n - 1).events + Stamp(step(last).sent, t + n)
  {
    RunAdd(step, m, t, n - 1, 1);
    RunOne(step, Run(step, m, t, n - 1).final, t + n - 1);
  }

  /** After k process calls each slot is where k ticks of its own have taken it. */
  lemma {:induction false} ProcessRun(ms: seq<MessageParams>, k: nat, j: nat)
    requires j < |ms|
    ensures ProcessTimes(ms, k)[j] == Run(ProcessSlot, ms[j], 0, k).final
  {
    if k > 0 {
      ProcessRun(ms, k - 1, j);
      RunLast(ProcessSlot, ms[j], 0, k);
    }
  }

  /** On a registered slot process runs housekeeping on every tick; a free slot never changes or sends. */
  lemma {:induction false} ProcessSlotRun(m: MessageParams, t: nat, n: nat)
    ensures m.name.Some? ==> Run(ProcessSlot, m, t, n) == Run(Housekeep, m, t, n)
    ensures m.name.None? ==> Run(ProcessSlot, m, t, n) == Trace(m, [])
    decreases n
  {
    if n > 0 {
      HousekeepInvariants(m);
      ProcessSlotRun(ProcessSlot(m).next, t + 1, n - 1);
      if m.name.None? {
        assert Stamp(ProcessSlot(m).sent, t + 1) == [];
      }
    }
  }

  /**
   * In the registry: a registered slot with an update pending (as register
   * can copy in) has settled 389 process calls later, and a stable registered
   * slot is k stable periods on after k periods of default + 1 calls. What
   * these calls log is stated by ProcessUpdateSent and ProcessStableSent.
   */
  lemma ProcessSchedule(ms: seq<MessageParams>, j: nat, k: nat)
    requires j < |ms| && ms[j].name.Some?
    ensures ms[j].updated != 0 ==> ProcessTimes(ms, 389)[j] == Settled(ms[j])
    ensures var m := ms[j];
            m.updated == 0 && m.timeSince == 0 && m.burstCount == 0 && m.currentTtl == m.defaultTtl ==>
              ProcessTimes(ms, k * (m.defaultTtl + 1))[j] == StableState(m, k)
  {
    var m := ms[j];
    if m.updated != 0 {
      ProcessRun(ms, 389, j);
      ProcessSlotRun(m, 0, 389);
      UpdateSchedule(m, 0);
    }
    if m.updated == 0 && m.timeSince == 0 && m.burstCount == 0 && m.currentTtl == m.defaultTtl {
      ProcessRun(ms, k * (m.defaultTtl + 1), j);
      ProcessSlotRun(m, 0, k * (m.defaultTtl + 1));
      StableSchedule(m, 0, k);
    }
  }

  /** What k successive goose_publisher_process calls append to the log, by the ensures of Process. */
  function ProcessLogs(ms: seq<MessageParams>, k: nat): seq<Transmission>
  {
    if k == 0 then [] else ProcessLogs(ms, k - 1) + ProcessLog(ProcessTimes(ms, k - 1), |ms|)
  }

  /** The transmissions of a run of events, without their ticks. */
  function Txs(evs: seq<Event>): seq<Transmission>
  {
    if |evs| == 0 then [] else [evs[0].tx] + Txs(evs[1..])
  }

  lemma {:induction false} TxsConcat(a: seq<Event>, b: seq<Event>)
    ensures Txs(a + b) == Txs(a) + Txs(b)
    decreases |a|
  {
    if |a| == 0 {
      assert a + b == b;
    } else {
      assert (a + b)[1..] == a[1..] + b;
      TxsConcat(a[1..], b);
    }
  }

  lemma TxsStamp(sent: seq<Transmission>, tick: nat)
    requires |sent| <= 1
    ensures Txs(Stamp(sent, tick)) == sent
  {
    if sent != [] {
      assert Stamp(sent, tick)[1..] == [];
    }
  }

  /** Process calls never change a slot's name. */
  lemma {:induction false} ProcessTimesNames(ms: seq<MessageParams>, k: nat, i: nat)
    requires i < |ms|
    ensures ProcessTimes(ms, k)[i].name == ms[i].name
  {
    if k > 0 {
      ProcessTimesNames(ms, k - 1, i);
      HousekeepInvariants(ProcessTimes(ms, k - 1)[i]);
    }
  }

  lemma OnlyAtKept(ms: seq<MessageParams>, k: nat, j: nat)
    requires OnlyAt(ms, j)
    ensures OnlyAt(ProcessTimes(ms, k), j)
  {
    var p := ProcessTimes(ms, k);
    forall i | 0 <= i < |ms|
      ensures p[i].name == ms[i].name
    {
      ProcessTimesNames(ms, k, i);
    }
  }

  /**
   * Over k process calls, the log's transmissions under a name that only
   * slot j holds are exactly the transmissions of k ticks of housekeeping on
   * that slot, in order.
   */
  lemma ProcessLogsRun(ms: seq<MessageParams>, k: nat, j: nat)
    requires OnlyAt(ms, j)
    ensures SentAs(ProcessLogs(ms, k), ms[j].name) == Txs(Run(Housekeep, ms[j], 0, k).events)
  {
    ProcessLogsAgree(ms, k, j);
  }

  /** Slot j's share of the log after k process calls, beside what k ticks of housekeeping on it send. */
  function Shares(ms: seq<MessageParams>, k: nat, j: nat): (seq<Transmission>, seq<Transmission>)
    requires j < |ms|
  {
    (SentAs(ProcessLogs(ms, k), ms[j].name), Txs(Run(Housekeep, ms[j], 0, k).events))
  }

  lemma {:induction false} ProcessLogsAgree(ms: seq<MessageParams>, k: nat, j: nat)
    requires OnlyAt(ms, j)
    ensures Shares(ms, k, j).0 == Shares(ms, k, j).1
  {
    ProcessLogsZero(ms, j);
    ProcessLogsFrom(ms, 0, k, j);
  }

  lemma {:induction false} ProcessLogsFrom(ms: seq<MessageParams>, i: nat, k: nat, j: nat)
    requires OnlyAt(ms, j) && i <= k && Shares(ms, i, j).0 == Shares(ms, i, j).1
    ensures Shares(ms, k, j).0 == Shares(ms, k, j).1
    decreases k - i
  {
    if i < k {
      ProcessLogsNext(ms, i + 1, j);
      ProcessLogsFrom(ms, i + 1, k, j);
    }
  }

  lemma ProcessLogsNext(ms: seq<MessageParams>, k: nat, j: nat)
    requires OnlyAt(ms, j) && k > 0 && Shares(ms, k - 1, j).0 == Shares(ms, k - 1, j).1
    ensures Shares(ms, k, j).0 == Shares(ms, k, j).1
  {
    ProcessLogsStep(ms, k, j);
  }

  lemma ProcessLogsZero(ms: seq<MessageParams>, j: nat)
    requires j < |ms|
    ensures Shares(ms, 0, j).0 == Shares(ms, 0, j).1
  {
    assert Run(Housekeep, ms[j], 0, 0).events == [];
  }

  lemma ProcessLogsStep(ms: seq<MessageParams>, k: nat, j: nat)
    requires OnlyAt(ms, j) && k > 0
    ensures Shares(ms, k - 1, j).0 == Shares(ms, k - 1, j).1 ==> Shares(ms, k, j).0 == Shares(ms, k, j).1
  {
    var name := ms[j].name;
    var prev := ProcessLogs(ms, k - 1);
    var log := ProcessLog(ProcessTimes(ms, k - 1), |ms|);
    assert ProcessLogs(ms, k) == prev + log;
    SentAsConcat(prev, log, name);
    LastCallSent(ms, k, j);
    RunTxsLast(ms[j], k);
  }

  /** The k-th process call sends, under slot j's name, what the k-th tick of housekeeping on that slot sends. */
  lemma LastCallSent(ms: seq<MessageParams>, k: nat, j: nat)
    requires OnlyAt(ms, j) && k > 0
    ensures SentAs(ProcessLog(ProcessTimes(ms, k - 1), |ms|), ms[j].name) ==
              Housekeep(Run(Housekeep, ms[j], 0, k - 1).final).sent
  {
    OnlyAtKept(ms, k - 1, j);
    ProcessTimesNames(ms, k - 1, j);
    SlotAfter(ms, k - 1, j);
    CallSent(ProcessTimes(ms, k - 1), j, Run(Housekeep, ms[j], 0, k - 1).final);
  }

  /** A registered slot after k process calls is where k ticks of housekeeping take it. */
  lemma SlotAfter(ms: seq<MessageParams>, k: nat, j: nat)
    requires j < |ms| && ms[j].name.Some?
    ensures ProcessTimes(ms, k)[j] == Run(Housekeep, ms[j], 0, k).final
  {
    ProcessRun(ms, k, j);
    ProcessSlotRun(ms[j], 0, k);
  }

  /** One process call sends, under a name only slot j holds, what housekeeping of that slot sends. */
  lemma CallSent(p: seq<MessageParams>, j: nat, s: MessageParams)
    requires OnlyAt(p, j) && p[j] == s
    ensures SentAs(ProcessLog(p, |p|), p[j].name) == Housekeep(s).sent
  {
    ProcessLogOf(p, |p|, j);
  }

  lemma RunTxsLast(m: MessageParams, k: nat)
    requires k > 0
    ensures var last := Run(Housekeep, m, 0, k - 1).final;
            Txs(Run(Housekeep, m, 0, k).events) == Txs(Run(Housekeep, m, 0, k - 1).events) + Housekeep(last).sent
  {
    var last := Run(Housekeep, m, 0, k - 1).final;
    var sent := Housekeep(last).sent;
    RunLast(Housekeep, m, 0, k);
    HousekeepInvariants(last);
    TxsStamp(sent, k);
    TxsConcat(Run(Housekeep, m, 0, k - 1).events, Stamp(sent, k));
  }

  /**
   * The log of the same process calls: a slot with an update pending, whose
   * name no other slot holds, has under that name exactly the eight
   * transmissions of the update schedule.
   */
  lemma ProcessUpdateSent(ms: seq<MessageParams>, j: nat)
    requires OnlyAt(ms, j) && ms[j].updated != 0
    ensures SentAs(ProcessLogs(ms, 389), ms[j].name) == Txs(UpdateEvents(ms[j], 0))
  {
    UpdateSchedule(ms[j], 0);
    LogsOfRun(ms, j, 389, Trace(Settled(ms[j]), UpdateEvents(ms[j], 0)));
  }

  /** ... and a stable slot has, after k periods, the k transmissions of the stable schedule. */
  lemma ProcessStableSent(ms: seq<MessageParams>, j: nat, k: nat)
    requires OnlyAt(ms, j)
    requires var m := ms[j];
             m.updated == 0 && m.timeSince == 0 && m.burstCount == 0 && m.currentTtl == m.defaultTtl
    ensures SentAs(ProcessLogs(ms, k * (ms[j].defaultTtl + 1)), ms[j].name) == Txs(StableEvents(ms[j], 0, k))
  {
    StableSchedule(ms[j], 0, k);
    LogsOfRun(ms, j, k * (ms[j].defaultTtl + 1), Trace(StableState(ms[j], k), StableEvents(ms[j], 0, k)));
  }

  lemma LogsOfRun(ms: seq<MessageParams>, j: nat, n: nat, r: Trace)
    requires OnlyAt(ms, j) && Run(Housekeep, ms[j], 0, n) == r
    ensures SentAs(ProcessLogs(ms, n), ms[j].name) == Txs(r.events)
  {
    ProcessLogsRun(ms, n, j);
  }

  /**
   * k successive goose_publisher_process calls on a publisher: its registry
   * and log are those ProcessTimes and ProcessLogs describe, and the
   * millisecond clock has moved k steps on, modulo 2^32.
   */
  method ProcessCalls(p: Publisher, k: nat)
    requires p.Valid()
    modifies p, p.messages
    ensures p.messages[..] == ProcessTimes(old(p.messages[..]), k)
    ensures p.sent == old(p.sent) + ProcessLogs(old(p.messages[..]), k)
    ensures p.timeElapsedMs == (old(p.timeElapsedMs) + k) % U32Limit
  {
    ghost var ms, log0 := p.messages[..], p.sent;
    var start := p.timeElapsedMs;
    for i := 0 to k
      invariant p.Valid()
      invariant p.messages[..] == CallsAfter(ms, i).0
      invariant p.sent == log0 + CallsAfter(ms, i).1
      invariant p.timeElapsedMs == (start + i) % U32Limit
    {
      NextCall(p, ms, i, log0, start);
    }
  }

  /** The (i + 1)-th of those calls, from where the first i left the publisher. */
  method NextCall(p: Publisher, ghost ms: seq<MessageParams>, i: nat, ghost log0: seq<Transmission>, start: nat)
    requires p.Valid() && p.messages[..] == CallsAfter(ms, i).0 && p.sent == log0 + CallsAfter(ms, i).1
    requires p.timeElapsedMs == (start + i) % U32Limit
    modifies p, p.messages
    ensures p.Valid() && p.messages[..] == CallsAfter(ms, i + 1).0 && p.sent == log0 + CallsAfter(ms, i + 1).1
    ensures p.timeElapsedMs == (start + (i + 1)) % U32Limit
  {
    ghost var regs, log := p.messages[..], p.sent;
    var clock := p.timeElapsedMs;
    p.Process();
    ProcessCallsStep(ms, i, regs, log0, log, p.messages[..], p.sent);
    ClockStep(start, i, clock, p.timeElapsedMs);
  }

  /** The registry and the log of the first i process calls. */
  function CallsAfter(ms: seq<MessageParams>, i: nat): (seq<MessageParams>, seq<Transmission>)
  {
    (ProcessTimes(ms, i), ProcessLogs(ms, i))
  }

  /** One more process call extends ProcessTimes and ProcessLogs by one step. */
  lemma ProcessCallsStep(ms: seq<MessageParams>, i: nat, regs: seq<MessageParams>, log0: seq<Transmission>,
                         log: seq<Transmission>, regs2: seq<MessageParams>, log2: seq<Transmission>)
    requires regs == CallsAfter(ms, i).0 && log == log0 + CallsAfter(ms, i).1
    requires regs2 == ProcessAll(regs) && log2 == log + ProcessLog(regs, |regs|)
    ensures regs2 == CallsAfter(ms, i + 1).0 && log2 == log0 + CallsAfter(ms, i + 1).1
  {
    TimesStep(ms, i);
    LogsStep(ms, i);
    LogAssoc(log0, CallsAfter(ms, i).1, ProcessLog(regs, |regs|));
  }

  lemma TimesStep(ms: seq<MessageParams>, i: nat)
    ensures ProcessTimes(ms, i + 1) == ProcessAll(ProcessTimes(ms, i))
  {
  }

  lemma LogsStep(ms: seq<MessageParams>, i: nat)
    ensures ProcessLogs(ms, i + 1) == ProcessLogs(ms, i) + ProcessLog(ProcessTimes(ms, i), |ProcessTimes(ms, i)|)
  {
  }

  lemma LogAssoc(a: seq<Transmission>, b: seq<Transmission>, c: seq<Transmission>)
    ensures (a + b) + c == a + (b + c)
  {
  }

  /** One more millisecond on the 32-bit clock. */
  lemma ClockStep(start: nat, i: nat, clock: U32, clock2: U32)
    requires clock == (start + i) % U32Limit && clock2 == IncU32(clock)
    ensures clock2 == (start + (i + 1)) % U32Limit
  {
    WrapAdd(start + i, 1);
  }

  /** Adding after a wrap-around is adding before it. */
  lemma WrapAdd(a: nat, b: nat)
    ensures (a % U32Limit + b) % U32Limit == (a + b) % U32Limit
  {
    var q := a / U32Limit;
    assert a == q * U32Limit + a % U32Limit;
    assert a % U32Limit + b == (a + b) - q * U32Limit;
  }
}
