/** The click buffer: a bounded queue, two triggers that ask for a drain, drains one after another. */
module ClickBuffer {
  import opened Options
  import opened ClickFlush

  const FLUSH_EVENT_TRIGGER := 100
  const BUFFER_MAX_EVENTS := 10_000
  const BUFFER_MAX_BYTES := 4 * 1024 * 1024
  const EVENT_BASE_BYTES := 384
  const USER_AGENT_MAX_LENGTH := 512

  /** A request's `user-agent` header; a repeated one arrives as an array. */
  datatype Header = Absent | Single(value: string) | Repeated

  function UserAgentOf(header: Header): Option<string> {
    if !header.Single? || header.value == "" then None
    else if |header.value| <= USER_AGENT_MAX_LENGTH then Some(header.value)
    else Some(header.value[..USER_AGENT_MAX_LENGTH])
  }

  datatype ClickInput = ClickInput(linkId: string, domainId: string, tenantId: string, occurredAt: int, agent: Header)

  /** The id and the address hash drawn for an event. */
  datatype Minted = Minted(id: string, ipHash: string)

  function EventOf(input: ClickInput, minted: Minted): ClickEvent {
    ClickEvent(minted.id, input.linkId, input.domainId, input.tenantId, input.occurredAt, minted.ipHash,
               UserAgentOf(input.agent))
  }

  /** The agent is the header cut to 512 units, and none for a header that is absent, repeated or empty. */
  ghost predicate IsAgentOf(agent: Option<string>, header: Header) {
    && (agent.None? <==> !header.Single? || header.value == "")
    && (agent.Some? ==> agent.value <= header.value)
    && (agent.Some? ==> |agent.value| == if |header.value| <= 512 then |header.value| else 512)
  }

  /** The event tells of the request, under what was minted for it. */
  ghost predicate TellsOf(e: ClickEvent, input: ClickInput, minted: Minted) {
    && e.id == minted.id && e.ipHash == minted.ipHash
    && e.linkId == input.linkId && e.domainId == input.domainId && e.tenantId == input.tenantId
    && e.occurredAt == input.occurredAt && IsAgentOf(e.userAgent, input.agent)
  }

  function SizeOf(e: ClickEvent): nat {
    EVENT_BASE_BYTES + (if e.userAgent.None? then 0 else 2 * |e.userAgent.value|)
  }

  function Bytes(events: seq<ClickEvent>): nat {
    if events == [] then 0 else SizeOf(events[0]) + Bytes(events[1..])
  }

  /** The units of agent text the events hold. */
  function AgentUnits(events: seq<ClickEvent>): nat {
    if events == [] then 0
    else (if events[0].userAgent.Some? then |events[0].userAgent.value| else 0) + AgentUnits(events[1..])
  }

  /** The budget charges 384 bytes an event and two for each unit of its agent. */
  lemma {:induction false} BytesCharged(events: seq<ClickEvent>)
    ensures Bytes(events) == 384 * |events| + 2 * AgentUnits(events)
  {
    if events != [] {
      BytesCharged(events[1..]);
    }
  }

  predicate Over(events: seq<ClickEvent>, bytes: int) {
    |events| > BUFFER_MAX_EVENTS || (bytes > BUFFER_MAX_BYTES && |events| > 0)
  }

  /** How many of the oldest events eviction drops. */
  function Shed(events: seq<ClickEvent>, bytes: int): nat
    decreases |events|
  {
    if Over(events, bytes) then 1 + Shed(events[1..], bytes - SizeOf(events[0])) else 0
  }

  lemma {:induction false} ShedBound(events: seq<ClickEvent>, bytes: int)
    ensures Shed(events, bytes) <= |events|
    decreases |events|
  {
    if Over(events, bytes) {
      ShedBound(events[1..], bytes - SizeOf(events[0]));
    }
  }

  predicate Fits(events: seq<ClickEvent>) {
    |events| <= BUFFER_MAX_EVENTS && Bytes(events) <= BUFFER_MAX_BYTES
  }

  /** Eviction drops the shortest prefix that leaves the rest within both bounds. */
  lemma {:induction false} ShedIsLeast(events: seq<ClickEvent>)
    ensures Shed(events, Bytes(events)) <= |events|
    ensures Fits(events[Shed(events, Bytes(events))..])
    ensures forall k :: 0 <= k < Shed(events, Bytes(events)) ==> !Fits(events[k..])
  {
    if Over(events, Bytes(events)) {
      ShedIsLeast(events[1..]);
      var n := Shed(events[1..], Bytes(events[1..]));
      assert events[1..][n..] == events[n + 1..];
      forall k | 0 <= k < n + 1 ensures !Fits(events[k..]) {
        if k == 0 {
          assert events[0..] == events;
        } else {
          assert events[1..][k - 1..] == events[k..];
        }
      }
    } else {
      assert events[0..] == events;
    }
  }

  lemma {:induction false} BytesConcat(a: seq<ClickEvent>, b: seq<ClickEvent>)
    ensures Bytes(a + b) == Bytes(a) + Bytes(b)
  {
    if a == [] {
      assert a + b == b;
    } else {
      assert (a + b)[1..] == a[1..] + b;
      BytesConcat(a[1..], b);
    }
  }

  /** An event carries at most 512 units of agent, so it always fits an empty buffer. */
  lemma EventIsSmall(input: ClickInput, minted: Minted)
    ensures SizeOf(EventOf(input, minted)) <= EVENT_BASE_BYTES + 2 * USER_AGENT_MAX_LENGTH < BUFFER_MAX_BYTES
  {
  }

  // ---------------------------------------------------------------------------------------------
  // The buffer's state and its steps
  // ---------------------------------------------------------------------------------------------

  /**
   `window` and `immediate` are the two armed triggers, `queued` the drains asked for that have not
   begun, and `draining` the groups a drain in progress has still to settle.
   */
  datatype Buffer = Buffer(
    events: seq<ClickEvent>, bytes: int, dropped: nat, window: bool, immediate: bool, queued: nat,
    draining: seq<Group>)

  function Pushed(b: Buffer, e: ClickEvent): Buffer {
    var all := b.events + [e];
    var n := Shed(all, b.bytes + SizeOf(e));
    ShedBound(all, b.bytes + SizeOf(e));
    var kept := all[n..];
    b.(events := kept, bytes := b.bytes + SizeOf(e) - Bytes(all[..n]), dropped := b.dropped + n,
       immediate := b.immediate || |kept| >= FLUSH_EVENT_TRIGGER,
       window := b.window || |kept| < FLUSH_EVENT_TRIGGER)
  }

  /** A drain begins: it takes the whole buffer, or nothing at all when that is empty. */
  function Begun(b: Buffer): Buffer
    requires b.queued > 0
  {
    if b.events == [] then b.(queued := b.queued - 1)
    else b.(queued := b.queued - 1, events := [], bytes := 0, draining := Grouped(b.events))
  }

  class ClickEventBuffer {
    var events: seq<ClickEvent>
    var bufferedBytes: int
    var droppedTotal: nat
    var droppedSinceWarn: nat
    var warnedInThisWindow: bool
    /** The counts the warning lines carried. */
    var warnings: seq<nat>
    var window: bool
    var immediate: bool
    var queuedDrains: nat
    var draining: seq<Group>

    constructor ()
      ensures Value() == Buffer([], 0, 0, false, false, 0, []) && Warned()
    {
      events, bufferedBytes, droppedTotal := [], 0, 0;
      droppedSinceWarn, warnedInThisWindow, warnings := 0, false, [];
      window, immediate, queuedDrains, draining := false, false, 0, [];
    }

    ghost function Value(): Buffer
      reads this
    {
      Buffer(events, bufferedBytes, droppedTotal, window, immediate, queuedDrains, draining)
    }

    /** Every dropped event is on a warning line or waits for the next one. */
    ghost predicate Warned()
      reads this
    {
      droppedTotal == Total(warnings) + droppedSinceWarn
    }

    /** Builds and buffers an event; `None` is a header or a hash that threw, which loses the event. */
    method Enqueue(input: ClickInput, minted: Option<Minted>)
      requires Warned()
      modifies this
      ensures Warned()
      ensures Value() == (if minted.None? then old(Value()) else Pushed(old(Value()), EventOf(input, minted.value)))
      ensures minted.Some? && old(Bounded(Value())) ==>
                EndsTelling(events, input, minted.value)
      ensures minted.Some? ==>
                && (immediate <==> old(immediate) || |events| >= 100)
                && (window <==> old(window) || |events| < 100)
    {
      if minted.None? {
        return;
      }
      NewestTells(Value(), input, minted.value);
      var event := EventOf(input, minted.value);
      events := events + [event];
      bufferedBytes := bufferedBytes + SizeOf(event);
      EvictWhileOverCapacity();
      if |events| >= FLUSH_EVENT_TRIGGER {
        FlushOnTheNextTurn();
      } else {
        OpenWindow();
      }
    }

    method EvictWhileOverCapacity()
      requires Warned()
      modifies this`events, this`bufferedBytes, this`droppedTotal
      modifies this`droppedSinceWarn, this`warnedInThisWindow, this`warnings
      ensures Warned()
      ensures var n := Shed(old(events), old(bufferedBytes));
              && n <= |old(events)| && events == old(events)[n..]
              && bufferedBytes == old(bufferedBytes) - Bytes(old(events)[..n])
              && droppedTotal == old(droppedTotal) + n
    {
      ghost var n := Shed(events, bufferedBytes);
      ShedBound(events, bufferedBytes);
      ghost var k := 0;
      while |events| > BUFFER_MAX_EVENTS || (bufferedBytes > BUFFER_MAX_BYTES && |events| > 0)
        invariant 0 <= k <= n && events == old(events)[k..]
        invariant bufferedBytes == old(bufferedBytes) - Bytes(old(events)[..k])
        invariant droppedTotal == old(droppedTotal) + k && Warned()
        invariant Shed(events, bufferedBytes) == n - k
        decreases |events|
      {
        var oldest := events[0];
        assert old(events)[k..][1..] == old(events)[k + 1..];
        assert old(events)[..k + 1] == old(events)[..k] + [oldest];
        BytesSnoc(old(events)[..k], oldest);
        events := events[1..];
        bufferedBytes := bufferedBytes - SizeOf(oldest);
        droppedTotal := droppedTotal + 1;
        droppedSinceWarn := droppedSinceWarn + 1;
        k := k + 1;
      }
      WarnOncePerWindow();
    }

    /** One line for everything dropped since the last, unless this window has had its line. */
    method WarnOncePerWindow()
      requires Warned()
      modifies this`droppedSinceWarn, this`warnedInThisWindow, this`warnings
      ensures Warned()
      ensures if old(droppedSinceWarn) == 0 || old(warnedInThisWindow)
              then unchanged(this`droppedSinceWarn, this`warnedInThisWindow, this`warnings)
              else droppedSinceWarn == 0 && warnedInThisWindow && warnings == old(warnings) + [old(droppedSinceWarn)]
    {
      if droppedSinceWarn == 0 || warnedInThisWindow {
        return;
      }
      warnedInThisWindow := true;
      TotalSnoc(warnings, droppedSinceWarn);
      warnings := warnings + [droppedSinceWarn];
      droppedSinceWarn := 0;
    }

    /** A second after a warning the next one may come: sustained overload warns once a second. */
    method WarnWindowEnds()
      modifies this`warnedInThisWindow
      ensures !warnedInThisWindow && Value() == old(Value()) && Warned() == old(Warned())
    {
      warnedInThisWindow := false;
    }

    method FlushOnTheNextTurn()
      modifies this`immediate
      ensures immediate
    {
      if immediate {
        return;
      }
      immediate := true;
    }

    method OpenWindow()
      modifies this`window
      ensures window
    {
      if window {
        return;
      }
      window := true;
    }

    /** Chains one more drain behind whatever is already chained. */
    method Flush()
      modifies this`queuedDrains
      ensures Value() == old(Value()).(queued := old(queuedDrains) + 1)
    {
      queuedDrains := queuedDrains + 1;
    }

    method WindowFires()
      modifies this`window, this`queuedDrains
      ensures Value() == old(Value()).(window := false, queued := old(queuedDrains) + 1)
    {
      window := false;
      Flush();
    }

    method ImmediateFires()
      modifies this`immediate, this`queuedDrains
      ensures Value() == old(Value()).(immediate := false, queued := old(queuedDrains) + 1)
    {
      immediate := false;
      Flush();
    }

    /** The next chained drain, once the one before it has ended: the buffer is emptied first. */
    method BeginDrain()
      requires queuedDrains > 0 && draining == []
      modifies this
      ensures Value() == Begun(old(Value())) && Warned() == old(Warned())
      ensures forall g :: g in draining ==> Own(g)
    {
      queuedDrains := queuedDrains - 1;
      if |events| == 0 {
        return;
      }
      var batch := events;
      events := [];
      bufferedBytes := 0;
      draining := GroupByTenant(batch);
      GroupsAreOwn(batch);
    }

    /** The drain's next group: written or given up, and what arrived meanwhile stays where it is. */
    method SettleGroup(writer: ClickEventWriter, outcomes: (Outcome, Outcome)) returns (lost: bool)
      requires draining != [] && Own(draining[0])
      modifies this`draining, writer
      ensures Value() == old(Value()).(draining := old(draining)[1..])
      ensures lost <==> !outcomes.0.Returned? && !outcomes.1.Returned?
      ensures writer.table == (if Lands(outcomes) then Inserted(old(writer.table), old(draining)[0].events)
                               else old(writer.table))
    {
      var _, given := writer.WriteGroup(draining[0], outcomes);
      draining := draining[1..];
      lost := given;
    }
  }

  function Total(counts: seq<nat>): nat {
    if counts == [] then 0 else counts[0] + Total(counts[1..])
  }

  lemma {:induction false} TotalSnoc(counts: seq<nat>, n: nat)
    ensures Total(counts + [n]) == Total(counts) + n
  {
    if counts == [] {
      assert counts + [n] == [n];
    } else {
      assert (counts + [n])[1..] == counts[1..] + [n];
      TotalSnoc(counts[1..], n);
    }
  }

  // ---------------------------------------------------------------------------------------------
  // Every interleaving of requests, triggers and drains
  // ---------------------------------------------------------------------------------------------

  datatype Step =
    | Enqueues(input: ClickInput, minted: Option<Minted>)
    | WindowFires
    | ImmediateFires
    | Flushes
    | BeginsDrain
    | Settles(written: bool)

  /** The buffer, and every event that ever went in and where it is now. */
  datatype World = World(
    b: Buffer, enqueued: seq<ClickEvent>, sinceDrain: seq<ClickEvent>, evicted: seq<ClickEvent>,
    written: multiset<ClickEvent>, failed: multiset<ClickEvent>)

  predicate Enabled(w: World, step: Step) {
    match step
    case Enqueues(_, _) => true
    case WindowFires => w.b.window
    case ImmediateFires => w.b.immediate
    case Flushes => true
    case BeginsDrain => w.b.queued > 0 && w.b.draining == []
    case Settles(_) => w.b.draining != []
  }

  ghost function Next(w: World, step: Step): World
    requires Enabled(w, step)
  {
    match step
    case Enqueues(input, minted) =>
      if minted.None? then w
      else
        var e := EventOf(input, minted.value);
        var n := Shed(w.b.events + [e], w.b.bytes + SizeOf(e));
        ShedBound(w.b.events + [e], w.b.bytes + SizeOf(e));
        w.(b := Pushed(w.b, e), enqueued := w.enqueued + [e], sinceDrain := w.sinceDrain + [e],
           evicted := w.evicted + (w.b.events + [e])[..n])
    case WindowFires => w.(b := w.b.(window := false, queued := w.b.queued + 1))
    case ImmediateFires => w.(b := w.b.(immediate := false, queued := w.b.queued + 1))
    case Flushes => w.(b := w.b.(queued := w.b.queued + 1))
    case BeginsDrain => w.(b := Begun(w.b), sinceDrain := if w.b.events == [] then w.sinceDrain else [])
    case Settles(written) =>
      var group := multiset(w.b.draining[0].events);
      w.(b := w.b.(draining := w.b.draining[1..]),
         written := if written then w.written + group else w.written,
         failed := if written then w.failed else w.failed + group)
  }

  ghost predicate Leads(w: World, steps: seq<Step>, v: World)
    decreases |steps|
  {
    if steps == [] then w == v else Enabled(w, steps[0]) && Leads(Next(w, steps[0]), steps[1..], v)
  }

  const START := World(Buffer([], 0, 0, false, false, 0, []), [], [], [], multiset{}, multiset{})

  /** The byte count is the sum of the buffered sizes, and both bounds hold. */
  ghost predicate Bounded(b: Buffer) {
    b.bytes == Bytes(b.events) && Fits(b.events)
  }

  predicate IsSuffix(part: seq<ClickEvent>, whole: seq<ClickEvent>) {
    |part| <= |whole| && part == whole[|whole| - |part|..]
  }

  /** What is buffered is the newest part of what came in since the last drain. */
  ghost predicate Fifo(w: World) {
    IsSuffix(w.b.events, w.sinceDrain) && IsSuffix(w.sinceDrain, w.enqueued)
  }

  lemma SuffixGrows(part: seq<ClickEvent>, whole: seq<ClickEvent>, n: nat, e: ClickEvent)
    requires IsSuffix(part, whole) && n <= |part| + 1
    ensures IsSuffix((part + [e])[n..], whole + [e])
  {
    assert part + [e] == (whole + [e])[|whole| - |part|..];
  }

  /** Every event that came in is in exactly one place. */
  ghost predicate Conserved(w: World) {
    && multiset(w.enqueued) ==
       multiset(w.b.events) + multiset(w.evicted) + multiset(Flat(w.b.draining)) + w.written + w.failed
    && |w.evicted| == w.b.dropped
  }

  /** A buffered event has an armed trigger, or a drain still to take its batch. */
  predicate Attended(b: Buffer) {
    b.events != [] ==> b.window || b.immediate || b.queued > 0
  }

  lemma BytesSnoc(events: seq<ClickEvent>, e: ClickEvent)
    ensures Bytes(events + [e]) == Bytes(events) + SizeOf(e)
  {
    BytesConcat(events, [e]);
    assert [e][1..] == [];
  }

  /** Eviction stops before the newest event, which fits by itself. */
  lemma ShedSparesTheLast(events: seq<ClickEvent>, e: ClickEvent)
    requires SizeOf(e) <= BUFFER_MAX_BYTES
    ensures Shed(events + [e], Bytes(events + [e])) <= |events|
  {
    var all := events + [e];
    ShedIsLeast(all);
    assert all[|events|..] == [e] && [e][1..] == [];
    assert Fits(all[|events|..]);
  }

  lemma PushedShape(b: Buffer, e: ClickEvent) returns (n: nat)
    requires Bounded(b) && SizeOf(e) <= BUFFER_MAX_BYTES
    ensures n <= |b.events| && n == Shed(b.events + [e], Bytes(b.events + [e]))
    ensures Pushed(b, e).events == b.events[n..] + [e] && Pushed(b, e).dropped == b.dropped + n
    ensures Pushed(b, e).bytes == Bytes(b.events + [e]) - Bytes((b.events + [e])[..n])
  {
    BytesSnoc(b.events, e);
    ShedSparesTheLast(b.events, e);
    n := Shed(b.events + [e], Bytes(b.events + [e]));
    assert (b.events + [e])[n..] == b.events[n..] + [e];
  }

  lemma PushedKeepsBounds(b: Buffer, e: ClickEvent)
    requires Bounded(b) && SizeOf(e) <= BUFFER_MAX_BYTES
    ensures Bounded(Pushed(b, e))
    ensures Pushed(b, e).events != [] && Pushed(b, e).events[|Pushed(b, e).events| - 1] == e
  {
    var n := PushedShape(b, e);
    var all := b.events + [e];
    ShedIsLeast(all);
    assert all[n..] == b.events[n..] + [e];
    assert all[..n] + all[n..] == all;
    BytesConcat(all[..n], all[n..]);
  }

  lemma StepKeepsBounds(w: World, step: Step)
    requires Bounded(w.b) && Enabled(w, step)
    ensures Bounded(Next(w, step).b)
  {
    if step.Enqueues? && step.minted.Some? {
      EventIsSmall(step.input, step.minted.value);
      PushedKeepsBounds(w.b, EventOf(step.input, step.minted.value));
    }
  }

  lemma StepKeepsFifo(w: World, step: Step)
    requires Fifo(w) && Enabled(w, step)
    ensures Fifo(Next(w, step))
  {
    if step.Enqueues? && step.minted.Some? {
      var e := EventOf(step.input, step.minted.value);
      ShedBound(w.b.events + [e], w.b.bytes + SizeOf(e));
      SuffixGrows(w.b.events, w.sinceDrain, Shed(w.b.events + [e], w.b.bytes + SizeOf(e)), e);
      SuffixGrows(w.sinceDrain, w.enqueued, 0, e);
    }
  }

  lemma Concatenated(a: seq<ClickEvent>, b: seq<ClickEvent>)
    ensures multiset(a + b) == multiset(a) + multiset(b)
  {
  }

  /** Taking a prefix off a queue that just grew moves events and makes none. */
  lemma MovedPrefix(queue: seq<ClickEvent>, e: ClickEvent, n: nat, gone: seq<ClickEvent>)
    requires n <= |queue| + 1
    ensures multiset((queue + [e])[n..]) + multiset(gone + (queue + [e])[..n]) ==
            multiset(queue) + multiset(gone) + multiset{e}
  {
    var a, b := (queue + [e])[..n], (queue + [e])[n..];
    assert a + b == queue + [e];
    Concatenated(a, b);
    Concatenated(queue, [e]);
    Concatenated(gone, a);
    assert multiset(a) + multiset(b) == multiset(queue) + multiset{e};
    assert multiset(b) + multiset(gone + a) == (multiset(a) + multiset(b)) + multiset(gone);
  }

  lemma Rebalanced(
      enqueued: multiset<ClickEvent>, e: ClickEvent, kept: multiset<ClickEvent>, gone: multiset<ClickEvent>,
      kept': multiset<ClickEvent>, gone': multiset<ClickEvent>, rest: multiset<ClickEvent>)
    requires enqueued == kept + gone + rest && kept' + gone' == kept + gone + multiset{e}
    ensures enqueued + multiset{e} == kept' + gone' + rest
  {
  }

  lemma EnqueueMoves(w: World, step: Step) returns (e: ClickEvent, n: nat)
    requires step.Enqueues? && step.minted.Some?
    ensures n <= |w.b.events| + 1
    ensures var v := Next(w, step);
            && v.b.events == (w.b.events + [e])[n..] && v.evicted == w.evicted + (w.b.events + [e])[..n]
            && v.b.dropped == w.b.dropped + n && v.enqueued == w.enqueued + [e]
            && v.b.draining == w.b.draining && v.written == w.written && v.failed == w.failed
  {
    e := EventOf(step.input, step.minted.value);
    n := Shed(w.b.events + [e], w.b.bytes + SizeOf(e));
    ShedBound(w.b.events + [e], w.b.bytes + SizeOf(e));
  }

  lemma EnqueueConserves(w: World, v: World, e: ClickEvent, n: nat)
    requires Conserved(w) && n <= |w.b.events| + 1
    requires v.b.events == (w.b.events + [e])[n..] && v.evicted == w.evicted + (w.b.events + [e])[..n]
    requires v.b.dropped == w.b.dropped + n && v.enqueued == w.enqueued + [e]
    requires v.b.draining == w.b.draining && v.written == w.written && v.failed == w.failed
    ensures Conserved(v)
  {
    MovedPrefix(w.b.events, e, n, w.evicted);
    Concatenated(w.enqueued, [e]);
    var rest := multiset(Flat(w.b.draining)) + w.written + w.failed;
    assert multiset(w.enqueued) == multiset(w.b.events) + multiset(w.evicted) + rest;
    Rebalanced(multiset(w.enqueued), e, multiset(w.b.events), multiset(w.evicted),
               multiset(v.b.events), multiset(v.evicted), rest);
  }

  lemma StepConserves(w: World, step: Step)
    requires Conserved(w) && Enabled(w, step)
    ensures Conserved(Next(w, step))
  {
    if step.Enqueues? {
      if step.minted.Some? {
        var e, n := EnqueueMoves(w, step);
        EnqueueConserves(w, Next(w, step), e, n);
      }
    } else if step.BeginsDrain? {
      if w.b.events != [] {
        GroupsPartitionTheBatch(w.b.events, w.b.events[0].tenantId);
      }
    } else if step.Settles? {
      assert Flat(w.b.draining) == w.b.draining[0].events + Flat(w.b.draining[1..]);
    }
  }

  lemma StepKeepsAttended(w: World, step: Step)
    requires Attended(w.b) && Enabled(w, step)
    ensures Attended(Next(w, step).b)
  {
  }

  /**
   THE BUFFER'S INVARIANTS, over every interleaving: the byte count is exact and both bounds hold, the
   buffer is the newest part of what came in since the last drain, every event is in one place, and a
   buffered event is never left without a trigger or a drain to take it.
   */
  lemma {:induction false} Reachable(w: World, steps: seq<Step>, v: World)
    requires Bounded(w.b) && Fifo(w) && Conserved(w) && Attended(w.b) && Leads(w, steps, v)
    ensures Bounded(v.b) && Fifo(v) && Conserved(v) && Attended(v.b)
    decreases |steps|
  {
    if steps != [] {
      StepKeepsBounds(w, steps[0]);
      StepKeepsFifo(w, steps[0]);
      StepConserves(w, steps[0]);
      StepKeepsAttended(w, steps[0]);
      Reachable(Next(w, steps[0]), steps[1..], v);
    }
  }

  lemma FromTheStart(steps: seq<Step>, v: World)
    requires Leads(START, steps, v)
    ensures v.b.bytes == Bytes(v.b.events) && |v.b.events| <= 10_000 && v.b.bytes <= 4_194_304
    ensures IsSuffix(v.b.events, v.sinceDrain) && IsSuffix(v.sinceDrain, v.enqueued)
    ensures multiset(v.b.events) ==
            multiset(v.enqueued) - multiset(v.evicted) - multiset(Flat(v.b.draining)) - v.written - v.failed
    ensures |v.evicted| == v.b.dropped
    ensures v.b.events != [] ==> v.b.window || v.b.immediate || v.b.queued > 0
  {
    Reachable(START, steps, v);
  }

  /** The event a request just buffered is the newest in the buffer: eviction never reaches it. */
  lemma OwnEventStays(steps: seq<Step>, v: World, input: ClickInput, minted: Minted)
    requires Leads(START, steps, v)
    ensures EndsTelling(Next(v, Enqueues(input, Some(minted))).b.events, input, minted)
  {
    Reachable(START, steps, v);
    NewestTells(v.b, input, minted);
  }

  /** The requests of a run that were not lost to a header or a hash that threw. */
  function Requests(steps: seq<Step>): seq<(ClickInput, Minted)> {
    if steps == [] then [] else RequestOf(steps[0]) + Requests(steps[1..])
  }

  function RequestOf(step: Step): seq<(ClickInput, Minted)> {
    if step.Enqueues? && step.minted.Some? then [(step.input, step.minted.value)] else []
  }

  ghost predicate AllTell(events: seq<ClickEvent>, requests: seq<(ClickInput, Minted)>) {
    |events| == |requests| && forall i :: 0 <= i < |events| ==> TellsOf(events[i], requests[i].0, requests[i].1)
  }

  lemma AllTellConcat(
      a: seq<ClickEvent>, b: seq<ClickEvent>, r: seq<(ClickInput, Minted)>, s: seq<(ClickInput, Minted)>)
    requires AllTell(a, r) && AllTell(b, s)
    ensures AllTell(a + b, r + s)
  {
  }

  lemma Regrouped(a: seq<ClickEvent>, b: seq<ClickEvent>, c: seq<ClickEvent>)
    ensures a + (b + c) == (a + b) + c
  {
  }

  /** What a step adds to what came in: the event of its request, if it is one. */
  lemma StepEnqueues(w: World, step: Step) returns (added: seq<ClickEvent>)
    requires Enabled(w, step)
    ensures Next(w, step).enqueued == w.enqueued + added && AllTell(added, RequestOf(step))
  {
    added := [];
    if step.Enqueues? && step.minted.Some? {
      EventTells(step.input, step.minted.value);
      added := [EventOf(step.input, step.minted.value)];
    }
  }

  /** What came in is what was requested: an event for each request, telling of it, in their order. */
  lemma {:induction false} EnqueuedTellOfRequests(w: World, steps: seq<Step>, v: World)
      returns (added: seq<ClickEvent>)
    requires Leads(w, steps, v)
    ensures v.enqueued == w.enqueued + added && AllTell(added, Requests(steps))
    decreases |steps|
  {
    if steps == [] {
      added := [];
      assert w.enqueued + [] == w.enqueued;
    } else {
      var first := StepEnqueues(w, steps[0]);
      var u := Next(w, steps[0]);
      var rest := EnqueuedTellOfRequests(u, steps[1..], v);
      Regrouped(w.enqueued, first, rest);
      AllTellConcat(first, rest, RequestOf(steps[0]), Requests(steps[1..]));
      added := first + rest;
    }
  }

  lemma EventTells(input: ClickInput, minted: Minted)
    ensures TellsOf(EventOf(input, minted), input, minted)
  {
  }

  ghost predicate EndsTelling(events: seq<ClickEvent>, input: ClickInput, minted: Minted) {
    exists front, e :: events == front + [e] && TellsOf(e, input, minted)
  }

  lemma NewestTells(b: Buffer, input: ClickInput, minted: Minted)
    ensures Bounded(b) ==> EndsTelling(Pushed(b, EventOf(input, minted)).events, input, minted)
  {
    EventTells(input, minted);
    if Bounded(b) {
      NewestStays(b, EventOf(input, minted), input, minted);
      var events := Pushed(b, EventOf(input, minted)).events;
      assert events == events[..|events| - 1] + [events[|events| - 1]];
    }
  }

  lemma NewestStays(b: Buffer, e: ClickEvent, input: ClickInput, minted: Minted)
    requires Bounded(b) && e == EventOf(input, minted)
    ensures Pushed(b, e).events != [] && Pushed(b, e).events[|Pushed(b, e).events| - 1] == e
  {
    EventIsSmall(input, minted);
    PushedKeepsBounds(b, e);
  }

  // ---------------------------------------------------------------------------------------------
  // The window
  // ---------------------------------------------------------------------------------------------

  /** Nothing but its own firing disarms the window: no flush, no drain, no enqueue. */
  lemma {:induction false} WindowStaysArmed(w: World, steps: seq<Step>, v: World)
    requires Leads(w, steps, v) && w.b.window && WindowFires !in steps
    ensures v.b.window
    decreases |steps|
  {
    if steps != [] {
      assert steps[0] in steps && forall s :: s in steps[1..] ==> s in steps;
      WindowStaysArmed(Next(w, steps[0]), steps[1..], v);
    }
  }

  /**
   So a flush leaves it armed over an empty buffer: from any reachable state with nothing buffered,
   queued or in flight, the start among them, by one click, a flush and the flush's drain.
   */
  lemma WindowOutlivesTheFlush(start: seq<Step>, w: World, input: ClickInput, minted: Minted)
      returns (steps: seq<Step>, v: World)
    requires Leads(START, start, w) && w.b.events == [] && w.b.queued == 0 && w.b.draining == []
    ensures steps == [Enqueues(input, Some(minted)), Flushes, BeginsDrain]
    ensures Leads(w, steps, v) && v.enqueued == w.enqueued + [EventOf(input, minted)]
    ensures v.b.window && v.b.events == [] && v.b.queued == 0
  {
    Reachable(START, start, w);
    var u := FirstClick(w, input, minted);
    var t := Next(u, Flushes);
    v := Next(t, BeginsDrain);
    steps := [Enqueues(input, Some(minted)), Flushes, BeginsDrain];
    assert steps[1..] == [Flushes, BeginsDrain] && steps[1..][1..] == [BeginsDrain] && steps[1..][1..][1..] == [];
    assert Leads(t, [BeginsDrain], v);
    assert Leads(u, [Flushes, BeginsDrain], v);
  }

  lemma FirstClick(w: World, input: ClickInput, minted: Minted) returns (v: World)
    requires Bounded(w.b) && w.b.events == []
    ensures v == Next(w, Enqueues(input, Some(minted))) && v.enqueued == w.enqueued + [EventOf(input, minted)]
    ensures v.b.events == [EventOf(input, minted)] && v.b.window
    ensures v.b.queued == w.b.queued && v.b.draining == w.b.draining
  {
    var e := EventOf(input, minted);
    v := Next(w, Enqueues(input, Some(minted)));
    EventIsSmall(input, minted);
    var n := PushedShape(w.b, e);
    assert [] + [e] == [e];
  }

  // ---------------------------------------------------------------------------------------------
  // Progress
  // ---------------------------------------------------------------------------------------------

  lemma {:induction false} DrainEnds(w: World) returns (steps: seq<Step>, v: World)
    ensures Leads(w, steps, v) && v.b == w.b.(draining := [])
    ensures forall s :: s in steps ==> s.Settles?
    decreases |w.b.draining|
  {
    if w.b.draining == [] {
      steps, v := [], w;
    } else {
      var rest;
      rest, v := DrainEnds(Next(w, Settles(true)));
      steps := [Settles(true)] + rest;
      assert steps[1..] == rest;
    }
  }

  lemma {:induction false} LeadsThen(w: World, p: seq<Step>, v: World, q: seq<Step>, u: World)
    requires Leads(w, p, v) && Leads(v, q, u)
    ensures Leads(w, p + q, u)
    decreases |p|
  {
    if p == [] {
      assert p + q == q;
    } else {
      assert (p + q)[1..] == p[1..] + q;
      LeadsThen(Next(w, p[0]), p[1..], v, q, u);
    }
  }

  lemma Then(w: World, p: seq<Step>, v: World, step: Step) returns (q: seq<Step>, u: World)
    requires Leads(w, p, v) && Enabled(v, step)
    ensures q == p + [step] && u == Next(v, step) && Leads(w, q, u)
  {
    q, u := p + [step], Next(v, step);
    assert [step][1..] == [];
    LeadsThen(w, p, v, [step], u);
  }

  /**
   NO STRANDED CLICK. In every reachable state the buffer can be drained by what is already under way:
   the armed triggers, the chained drains and the writes in progress, with no further request or call.
   */
  lemma NoStrandedClick(start: seq<Step>, w: World) returns (steps: seq<Step>, v: World)
    requires Leads(START, start, w)
    ensures Leads(w, steps, v) && v.b.events == []
    ensures forall s :: s in steps ==> !s.Enqueues? && !s.Flushes?
  {
    Reachable(START, start, w);
    steps, v := Drained(w);
  }

  lemma Drained(w: World) returns (steps: seq<Step>, v: World)
    requires Attended(w.b)
    ensures Leads(w, steps, v) && v.b.events == []
    ensures forall s :: s in steps ==> !s.Enqueues? && !s.Flushes?
  {
    if w.b.events == [] {
      return [], w;
    }
    steps, v := DrainEnds(w);
    if v.b.queued == 0 {
      steps, v := Then(w, steps, v, if v.b.window then WindowFires else ImmediateFires);
    }
    steps, v := Then(w, steps, v, BeginsDrain);
  }
}
