/**
 Writing a drained batch: one transaction a tenant, statements of at most a thousand rows, one retry,
 and an insert that ignores ids the table holds.
 */
module ClickFlush {
  import opened Options

  datatype ClickEvent = ClickEvent(
    id: string, linkId: string, domainId: string, tenantId: string, occurredAt: int, ipHash: string,
    userAgent: Option<string>)

  const ROW_BIND_PARAMETERS := 7
  const MAX_BIND_PARAMETERS := 65_535
  const INSERT_CHUNK_ROWS := 1000

  // ---------------------------------------------------------------------------------------------
  // Grouping
  // ---------------------------------------------------------------------------------------------

  datatype Group = Group(tenantId: string, events: seq<ClickEvent>)

  function AddTo(groups: seq<Group>, e: ClickEvent): seq<Group> {
    if groups == [] then [Group(e.tenantId, [e])]
    else if groups[0].tenantId == e.tenantId then [Group(e.tenantId, groups[0].events + [e])] + groups[1..]
    else [groups[0]] + AddTo(groups[1..], e)
  }

  function Grouped(batch: seq<ClickEvent>): seq<Group> {
    if batch == [] then [] else AddTo(Grouped(batch[..|batch| - 1]), batch[|batch| - 1])
  }

  method GroupByTenant(batch: seq<ClickEvent>) returns (groups: seq<Group>)
    ensures groups == Grouped(batch)
  {
    groups := [];
    for i := 0 to |batch|
      invariant groups == Grouped(batch[..i])
    {
      assert batch[..i + 1][..i] == batch[..i];
      groups := AppendToGroup(groups, batch[i]);
    }
    assert batch[..|batch|] == batch;
  }

  /** `Map.get` and then `push` or `set`: a new key goes last, an old one keeps its place. */
  method AppendToGroup(groups: seq<Group>, e: ClickEvent) returns (after: seq<Group>)
    ensures after == AddTo(groups, e)
  {
    var k := 0;
    while k < |groups| && groups[k].tenantId != e.tenantId
      invariant 0 <= k <= |groups|
      invariant AddTo(groups, e) == groups[..k] + AddTo(groups[k..], e)
    {
      AddToPast(groups, k, e);
      k := k + 1;
    }
    if k == |groups| {
      after := groups + [Group(e.tenantId, [e])];
    } else {
      after := groups[k := Group(e.tenantId, groups[k].events + [e])];
    }
  }

  lemma AddToPast(groups: seq<Group>, k: nat, e: ClickEvent)
    requires k < |groups| && groups[k].tenantId != e.tenantId
    ensures groups[..k] + AddTo(groups[k..], e) == groups[..k + 1] + AddTo(groups[k + 1..], e)
  {
    assert groups[k..][1..] == groups[k + 1..];
    assert groups[..k + 1] == groups[..k] + [groups[k]];
  }

  /** The events of one tenant, in the order they were buffered. */
  function OfTenant(batch: seq<ClickEvent>, tenantId: string): seq<ClickEvent> {
    if batch == [] then []
    else OfTenant(batch[..|batch| - 1], tenantId)
         + (if batch[|batch| - 1].tenantId == tenantId then [batch[|batch| - 1]] else [])
  }

  ghost predicate OneGroupATenant(groups: seq<Group>) {
    forall i, j :: 0 <= i < j < |groups| ==> groups[i].tenantId != groups[j].tenantId
  }

  function Flat(groups: seq<Group>): seq<ClickEvent> {
    if groups == [] then [] else groups[0].events + Flat(groups[1..])
  }

  ghost predicate HasGroup(groups: seq<Group>, tenantId: string) {
    exists i :: 0 <= i < |groups| && groups[i].tenantId == tenantId
  }

  /** An event joins its tenant's group in place, or opens a new group at the end. */
  lemma {:induction false} AddToShape(groups: seq<Group>, e: ClickEvent)
    ensures !HasGroup(groups, e.tenantId) ==> AddTo(groups, e) == groups + [Group(e.tenantId, [e])]
    ensures HasGroup(groups, e.tenantId) ==>
              |AddTo(groups, e)| == |groups|
              && forall i :: 0 <= i < |groups| ==> AddTo(groups, e)[i].tenantId == groups[i].tenantId
  {
    if groups != [] {
      AddToShape(groups[1..], e);
      assert groups == [groups[0]] + groups[1..];
      HasGroupCons(groups[0], groups[1..], e.tenantId);
    }
  }

  lemma AddToGroups(groups: seq<Group>, e: ClickEvent, tenantId: string)
    requires OneGroupATenant(groups)
    ensures OneGroupATenant(AddTo(groups, e))
    ensures HasGroup(AddTo(groups, e), tenantId) <==> HasGroup(groups, tenantId) || tenantId == e.tenantId
  {
    AddToShape(groups, e);
    var r := AddTo(groups, e);
    if HasGroup(groups, e.tenantId) {
      HasGroupByTenants(r, groups, tenantId);
      HasGroupByTenants(groups, r, tenantId);
    } else {
      assert r[|groups|].tenantId == e.tenantId && forall i :: 0 <= i < |groups| ==> r[i] == groups[i];
    }
  }

  lemma HasGroupByTenants(a: seq<Group>, b: seq<Group>, tenantId: string)
    requires |a| == |b| && forall i :: 0 <= i < |a| ==> a[i].tenantId == b[i].tenantId
    ensures HasGroup(a, tenantId) <==> HasGroup(b, tenantId)
  {
    if HasGroup(a, tenantId) {
      var i :| 0 <= i < |a| && a[i].tenantId == tenantId;
      assert b[i].tenantId == tenantId;
    }
  }

  lemma HasGroupCons(g: Group, rest: seq<Group>, tenantId: string)
    ensures HasGroup([g] + rest, tenantId) <==> g.tenantId == tenantId || HasGroup(rest, tenantId)
  {
    var all := [g] + rest;
    assert all[0] == g && forall i :: 0 <= i < |rest| ==> all[i + 1] == rest[i];
  }

  function EventsOf(groups: seq<Group>, tenantId: string): seq<ClickEvent> {
    if groups == [] then []
    else if groups[0].tenantId == tenantId then groups[0].events else EventsOf(groups[1..], tenantId)
  }

  lemma {:induction false} EventsOfAt(groups: seq<Group>, i: nat)
    requires OneGroupATenant(groups) && i < |groups|
    ensures EventsOf(groups, groups[i].tenantId) == groups[i].events
  {
    if i > 0 {
      assert forall j :: 0 <= j < |groups| - 1 ==> groups[1..][j] == groups[j + 1];
      EventsOfAt(groups[1..], i - 1);
    }
  }

  lemma {:induction false} EventsOfAddTo(groups: seq<Group>, e: ClickEvent, tenantId: string)
    ensures EventsOf(AddTo(groups, e), tenantId) ==
            EventsOf(groups, tenantId) + (if e.tenantId == tenantId then [e] else [])
  {
    if groups != [] && groups[0].tenantId != e.tenantId {
      EventsOfAddTo(groups[1..], e, tenantId);
      assert AddTo(groups, e)[1..] == AddTo(groups[1..], e);
    }
  }

  lemma {:induction false} FlatAddTo(groups: seq<Group>, e: ClickEvent)
    ensures multiset(Flat(AddTo(groups, e))) == multiset(Flat(groups)) + multiset{e}
  {
    if groups == [] {
      assert AddTo(groups, e)[1..] == [];
    } else if groups[0].tenantId == e.tenantId {
      assert AddTo(groups, e)[1..] == groups[1..];
    } else {
      FlatAddTo(groups[1..], e);
      assert AddTo(groups, e)[1..] == AddTo(groups[1..], e);
    }
  }

  /** A STABLE PARTITION: one group for each tenant of the batch, holding its events in their order. */
  lemma {:induction false} GroupsPartitionTheBatch(batch: seq<ClickEvent>, tenantId: string)
    ensures OneGroupATenant(Grouped(batch))
    ensures HasGroup(Grouped(batch), tenantId) <==> exists e :: e in batch && e.tenantId == tenantId
    ensures EventsOf(Grouped(batch), tenantId) == OfTenant(batch, tenantId)
    ensures multiset(Flat(Grouped(batch))) == multiset(batch)
  {
    if batch != [] {
      var front, last := batch[..|batch| - 1], batch[|batch| - 1];
      assert batch == front + [last];
      GroupsPartitionTheBatch(front, tenantId);
      AddToGroups(Grouped(front), last, tenantId);
      EventsOfAddTo(Grouped(front), last, tenantId);
      FlatAddTo(Grouped(front), last);
    }
  }

  lemma {:induction false} OfTenantIsOwn(batch: seq<ClickEvent>, tenantId: string)
    ensures forall e :: e in OfTenant(batch, tenantId) ==> e in batch && e.tenantId == tenantId
  {
    if batch != [] {
      OfTenantIsOwn(batch[..|batch| - 1], tenantId);
    }
  }

  /** Every group holds only its own tenant's events. */
  lemma GroupsAreOwn(batch: seq<ClickEvent>)
    ensures forall i :: 0 <= i < |Grouped(batch)| ==> Own(Grouped(batch)[i])
  {
    forall i | 0 <= i < |Grouped(batch)| ensures Own(Grouped(batch)[i]) {
      var g := Grouped(batch)[i];
      GroupsPartitionTheBatch(batch, g.tenantId);
      EventsOfAt(Grouped(batch), i);
      OfTenantIsOwn(batch, g.tenantId);
    }
  }

  ghost predicate Own(g: Group) {
    forall e :: e in g.events ==> e.tenantId == g.tenantId
  }

  // ---------------------------------------------------------------------------------------------
  // The table
  // ---------------------------------------------------------------------------------------------

  predicate Holds(table: seq<ClickEvent>, id: string) {
    exists i :: 0 <= i < |table| && table[i].id == id
  }

  /** `ON CONFLICT (id) DO NOTHING`, row by row. */
  function Inserted(table: seq<ClickEvent>, events: seq<ClickEvent>): seq<ClickEvent>
    decreases |events|
  {
    if events == [] then table
    else Inserted(if Holds(table, events[0].id) then table else table + [events[0]], events[1..])
  }

  ghost predicate UniqueIds(table: seq<ClickEvent>) {
    forall i, j :: 0 <= i < j < |table| ==> table[i].id != table[j].id
  }

  lemma {:induction false} InsertedConcat(table: seq<ClickEvent>, a: seq<ClickEvent>, b: seq<ClickEvent>)
    ensures Inserted(table, a + b) == Inserted(Inserted(table, a), b)
    decreases |a|
  {
    if a == [] {
      assert a + b == b;
    } else {
      assert (a + b)[1..] == a[1..] + b;
      InsertedConcat(if Holds(table, a[0].id) then table else table + [a[0]], a[1..], b);
    }
  }

  lemma {:induction false} InsertedHolds(table: seq<ClickEvent>, events: seq<ClickEvent>, id: string)
    ensures table <= Inserted(table, events)
    ensures Holds(Inserted(table, events), id) <==> Holds(table, id) || Holds(events, id)
    ensures UniqueIds(table) ==> UniqueIds(Inserted(table, events))
    decreases |events|
  {
    if events != [] {
      var next := if Holds(table, events[0].id) then table else table + [events[0]];
      InsertedHolds(next, events[1..], id);
      HoldsConcat(table, [events[0]], id);
      HoldsConcat([events[0]], events[1..], id);
      assert events == [events[0]] + events[1..];
      HoldsSingle(events[0], id);
    }
  }

  lemma HoldsSingle(e: ClickEvent, id: string)
    ensures Holds([e], id) <==> e.id == id
  {
    assert [e][0] == e;
  }

  lemma HoldsConcat(a: seq<ClickEvent>, b: seq<ClickEvent>, id: string)
    ensures Holds(a + b, id) <==> Holds(a, id) || Holds(b, id)
  {
    var c := a + b;
    assert forall i :: 0 <= i < |a| ==> c[i] == a[i];
    assert forall i :: 0 <= i < |b| ==> c[|a| + i] == b[i];
  }

  /** A row already there is never written again. */
  lemma {:induction false} InsertingHeldRows(table: seq<ClickEvent>, events: seq<ClickEvent>)
    requires forall e :: e in events ==> Holds(table, e.id)
    ensures Inserted(table, events) == table
    decreases |events|
  {
    if events != [] {
      InsertingHeldRows(table, events[1..]);
    }
  }

  /** Inserting the same rows again changes nothing. */
  lemma InsertIsIdempotent(table: seq<ClickEvent>, events: seq<ClickEvent>)
    ensures Inserted(Inserted(table, events), events) == Inserted(table, events)
  {
    forall e | e in events ensures Holds(Inserted(table, events), e.id) {
      var i :| 0 <= i < |events| && events[i] == e;
      assert events[i].id == e.id;
      InsertedHolds(table, events, e.id);
    }
    InsertingHeldRows(Inserted(table, events), events);
  }

  // ---------------------------------------------------------------------------------------------
  // Writing
  // ---------------------------------------------------------------------------------------------

  /** How an attempt's transaction ends; a lost reply is a commit reported as a failure. */
  datatype Outcome = Returned | LostReply | RolledBack

  predicate Foreign(events: seq<ClickEvent>, tenantId: string) {
    exists i :: 0 <= i < |events| && events[i].tenantId != tenantId
  }

  lemma OwnChunk(g: Group, start: nat, end: nat)
    requires Own(g) && start <= end <= |g.events|
    ensures !Foreign(g.events[start..end], g.tenantId)
  {
    forall i | 0 <= i < end - start ensures g.events[start..end][i].tenantId == g.tenantId {
      assert g.events[start + i] in g.events;
    }
  }

  lemma ChunkExtends(base: seq<ClickEvent>, events: seq<ClickEvent>, start: nat, end: nat)
    requires start <= end <= |events|
    ensures Inserted(Inserted(base, events[..start]), events[start..end]) == Inserted(base, events[..end])
  {
    assert events[..end] == events[..start] + events[start..end];
    InsertedConcat(base, events[..start], events[start..end]);
  }

  class ClickEventWriter {
    var table: seq<ClickEvent>

    constructor (table: seq<ClickEvent>)
      ensures this.table == table
    {
      this.table := table;
    }

    /** One statement: refused past the wire's parameter count, or on a row of another tenant. */
    method Append(staged: seq<ClickEvent>, tenantId: string, events: seq<ClickEvent>)
        returns (refused: bool, after: seq<ClickEvent>)
      ensures refused <==> 7 * |events| > 65_535 || exists e :: e in events && e.tenantId != tenantId
      ensures after == (if refused then staged else Inserted(staged, events))
    {
      refused := ROW_BIND_PARAMETERS * |events| > MAX_BIND_PARAMETERS
                 || Foreign(events, tenantId);
      after := if refused then staged else Inserted(staged, events);
    }

    /** A chunk of the group, appended to what its transaction has staged. */
    method AppendChunk(staged: seq<ClickEvent>, g: Group, start: nat, ghost base: seq<ClickEvent>)
        returns (refused: bool, after: seq<ClickEvent>)
      requires Own(g) && start < |g.events| && staged == Inserted(base, g.events[..start])
      ensures !refused && after == Inserted(base, g.events[..Least(start + INSERT_CHUNK_ROWS, |g.events|)])
    {
      var end := Least(start + INSERT_CHUNK_ROWS, |g.events|);
      var chunk := g.events[start..end];
      OwnChunk(g, start, end);
      ChunkExtends(base, g.events, start, end);
      refused, after := Append(staged, g.tenantId, chunk);
    }

    /** One transaction over a group: its chunks, in order, and then how the commit went. */
    method Attempt(g: Group, outcome: Outcome) returns (failed: bool, statements: nat)
      requires Own(g)
      modifies this
      ensures failed <==> !outcome.Returned?
      ensures table == (if outcome.RolledBack? then old(table) else Inserted(old(table), g.events))
      ensures 1000 * statements >= |g.events| > 1000 * (statements - 1)
    {
      var staged := table;
      statements := 0;
      var start := 0;
      while start < |g.events|
        invariant 0 <= start && start == INSERT_CHUNK_ROWS * statements
        invariant start - INSERT_CHUNK_ROWS < |g.events|
        invariant staged == Inserted(old(table), g.events[..Least(start, |g.events|)])
        invariant table == old(table)
      {
        var refused, after := AppendChunk(staged, g, start, table);
        staged := after;
        statements := statements + 1;
        start := start + INSERT_CHUNK_ROWS;
      }
      assert g.events[..|g.events|] == g.events;
      if !outcome.RolledBack? {
        table := staged;
      }
      failed := !outcome.Returned?;
    }

    /**
     Two attempts at most, over the same rows. The group's rows are all in the table, once, if either
     attempt that was made committed, whatever it reported; otherwise none was added.
     */
    method WriteGroup(g: Group, outcomes: (Outcome, Outcome)) returns (attempts: nat, dropped: bool)
      requires Own(g)
      modifies this
      ensures attempts == (if outcomes.0.Returned? then 1 else 2)
      ensures dropped <==> !outcomes.0.Returned? && !outcomes.1.Returned?
      ensures table == (if Lands(outcomes) then Inserted(old(table), g.events) else old(table))
    {
      attempts := 0;
      dropped := false;
      while attempts < 2
        invariant 0 <= attempts <= 2 && dropped == (attempts == 2 && !outcomes.0.Returned? && !outcomes.1.Returned?)
        invariant attempts > 0 ==> !outcomes.0.Returned?
        invariant attempts > 1 ==> !outcomes.1.Returned?
        invariant table == (if (attempts > 0 && !outcomes.0.RolledBack?) || (attempts > 1 && !outcomes.1.RolledBack?)
                            then Inserted(old(table), g.events) else old(table))
      {
        InsertIsIdempotent(old(table), g.events);
        var failed, _ := Attempt(g, if attempts == 0 then outcomes.0 else outcomes.1);
        attempts := attempts + 1;
        if !failed {
          return;
        }
        if attempts == 2 {
          dropped := true;
        }
      }
    }

    /** A drained batch, group after group. */
    method Drain(batch: seq<ClickEvent>, outcomes: string -> (Outcome, Outcome))
      modifies this
      ensures table == Landed(old(table), Grouped(batch), outcomes)
    {
      var groups := GroupByTenant(batch);
      GroupsAreOwn(batch);
      for i := 0 to |groups|
        invariant table == Landed(old(table), groups[..i], outcomes)
      {
        LandedSnoc(old(table), groups[..i], groups[i], outcomes);
        assert groups[..i + 1] == groups[..i] + [groups[i]];
        var _, _ := WriteGroup(groups[i], outcomes(groups[i].tenantId));
      }
      assert groups[..|groups|] == groups;
    }
  }

  function Least(a: nat, b: nat): nat { if a < b then a else b }

  predicate Lands(outcomes: (Outcome, Outcome)) {
    !outcomes.0.RolledBack? || !outcomes.1.RolledBack?
  }

  function Landed(table: seq<ClickEvent>, groups: seq<Group>, outcomes: string -> (Outcome, Outcome)): seq<ClickEvent>
    decreases |groups|
  {
    if groups == [] then table
    else Landed(if Lands(outcomes(groups[0].tenantId)) then Inserted(table, groups[0].events) else table,
                groups[1..], outcomes)
  }

  lemma {:induction false} LandedSnoc(
      table: seq<ClickEvent>, groups: seq<Group>, g: Group, outcomes: string -> (Outcome, Outcome))
    ensures Landed(table, groups + [g], outcomes) ==
            (if Lands(outcomes(g.tenantId)) then Inserted(Landed(table, groups, outcomes), g.events)
             else Landed(table, groups, outcomes))
    decreases |groups|
  {
    if groups == [] {
      assert groups + [g] == [g] && [g][1..] == [];
    } else {
      assert (groups + [g])[1..] == groups[1..] + [g];
      LandedSnoc(if Lands(outcomes(groups[0].tenantId)) then Inserted(table, groups[0].events) else table,
                 groups[1..], g, outcomes);
    }
  }

  ghost predicate HeldByLanded(groups: seq<Group>, outcomes: string -> (Outcome, Outcome), id: string) {
    exists i :: 0 <= i < |groups| && Lands(outcomes(groups[i].tenantId)) && Holds(groups[i].events, id)
  }

  lemma {:induction false} LandedHolds(
      table: seq<ClickEvent>, groups: seq<Group>, outcomes: string -> (Outcome, Outcome), id: string)
    ensures table <= Landed(table, groups, outcomes)
    ensures Holds(Landed(table, groups, outcomes), id) <==> Holds(table, id) || HeldByLanded(groups, outcomes, id)
    ensures UniqueIds(table) ==> UniqueIds(Landed(table, groups, outcomes))
    decreases |groups|
  {
    if groups != [] {
      var lands := Lands(outcomes(groups[0].tenantId));
      var next := if lands then Inserted(table, groups[0].events) else table;
      InsertedHolds(table, groups[0].events, id);
      LandedHolds(next, groups[1..], outcomes, id);
      if HeldByLanded(groups, outcomes, id) {
        var i :| 0 <= i < |groups| && Lands(outcomes(groups[i].tenantId)) && Holds(groups[i].events, id);
        assert i > 0 ==> groups[1..][i - 1] == groups[i];
      }
      if HeldByLanded(groups[1..], outcomes, id) {
        var i :| 0 <= i < |groups| - 1 && Lands(outcomes(groups[1..][i].tenantId)) && Holds(groups[1..][i].events, id);
        assert groups[i + 1] == groups[1..][i];
      }
    }
  }

  lemma {:induction false} FlatHolds(groups: seq<Group>, e: ClickEvent)
    ensures e in Flat(groups) <==> exists i :: 0 <= i < |groups| && e in groups[i].events
  {
    if groups != [] {
      FlatHolds(groups[1..], e);
      assert forall i :: 1 <= i < |groups| ==> groups[i] == groups[1..][i - 1];
      assert forall i :: 0 <= i < |groups| - 1 ==> groups[1..][i] == groups[i + 1];
    }
  }

  /** An event's group: the one under its own tenant, and no other. */
  lemma GroupOf(batch: seq<ClickEvent>, e: ClickEvent) returns (i: nat)
    requires e in batch
    ensures i < |Grouped(batch)| && e in Grouped(batch)[i].events && Grouped(batch)[i].tenantId == e.tenantId
  {
    GroupsPartitionTheBatch(batch, e.tenantId);
    GroupsAreOwn(batch);
    assert e in multiset(batch);
    assert e in Flat(Grouped(batch)) by {
      assert e in multiset(Flat(Grouped(batch)));
    }
    FlatHolds(Grouped(batch), e);
    i :| 0 <= i < |Grouped(batch)| && e in Grouped(batch)[i].events;
    assert Own(Grouped(batch)[i]);
  }

  lemma GroupedIsFromBatch(batch: seq<ClickEvent>, i: nat, e: ClickEvent)
    requires i < |Grouped(batch)| && e in Grouped(batch)[i].events
    ensures e in batch && e.tenantId == Grouped(batch)[i].tenantId
  {
    GroupsPartitionTheBatch(batch, e.tenantId);
    GroupsAreOwn(batch);
    assert Own(Grouped(batch)[i]);
    FlatHolds(Grouped(batch), e);
    assert e in multiset(Flat(Grouped(batch)));
  }

  lemma {:induction false} InsertedFrom(table: seq<ClickEvent>, events: seq<ClickEvent>, x: ClickEvent)
    requires x in Inserted(table, events)
    ensures x in table || x in events
    decreases |events|
  {
    if events != [] {
      InsertedFrom(if Holds(table, events[0].id) then table else table + [events[0]], events[1..], x);
    }
  }

  /** Every row was there before or is an event of a group that landed. */
  lemma {:induction false} LandedFrom(
      table: seq<ClickEvent>, groups: seq<Group>, outcomes: string -> (Outcome, Outcome), x: ClickEvent)
    requires x in Landed(table, groups, outcomes)
    ensures x in table || exists i :: 0 <= i < |groups| && Lands(outcomes(groups[i].tenantId)) && x in groups[i].events
    decreases |groups|
  {
    if groups != [] {
      var lands := Lands(outcomes(groups[0].tenantId));
      var next := if lands then Inserted(table, groups[0].events) else table;
      LandedFrom(next, groups[1..], outcomes, x);
      if x !in next {
        var i :| 0 <= i < |groups| - 1 && Lands(outcomes(groups[1..][i].tenantId)) && x in groups[1..][i].events;
        assert groups[i + 1] == groups[1..][i];
      } else if lands {
        InsertedFrom(table, groups[0].events, x);
      }
    }
  }

  /** A row that was not there before is an event of the batch whose tenant's group landed. */
  lemma NewRowsAreTheBatchs(
      table: seq<ClickEvent>, batch: seq<ClickEvent>, outcomes: string -> (Outcome, Outcome), x: ClickEvent)
    requires x in Landed(table, Grouped(batch), outcomes)
    ensures x in table || (x in batch && Lands(outcomes(x.tenantId)))
  {
    LandedFrom(table, Grouped(batch), outcomes, x);
    if x !in table {
      var i :| 0 <= i < |Grouped(batch)| && Lands(outcomes(Grouped(batch)[i].tenantId))
               && x in Grouped(batch)[i].events;
      GroupedIsFromBatch(batch, i, x);
    }
  }

  lemma HoldsMember(table: seq<ClickEvent>, x: ClickEvent)
    ensures x in table ==> Holds(table, x.id)
  {
  }

  lemma SameIdSameEvent(batch: seq<ClickEvent>, x: ClickEvent, e: ClickEvent)
    requires UniqueIds(batch) && x in batch && e in batch && x.id == e.id
    ensures x == e
  {
    var p :| 0 <= p < |batch| && batch[p] == x;
    var q :| 0 <= q < |batch| && batch[q] == e;
    assert p == q;
  }

  /**
   EXACTLY ONCE OR NOT AT ALL. After a drain of events with fresh ids, an event is in the table, itself
   and once, if its tenant's group committed on either attempt, and no row has its id if it did not;
   every other row is as it was.
   */
  lemma EachEventOnceIffItsGroupLanded(
      table: seq<ClickEvent>, batch: seq<ClickEvent>, outcomes: string -> (Outcome, Outcome), e: ClickEvent)
    requires UniqueIds(table) && UniqueIds(batch) && e in batch
    requires forall x :: x in batch ==> !Holds(table, x.id)
    ensures UniqueIds(Landed(table, Grouped(batch), outcomes)) && table <= Landed(table, Grouped(batch), outcomes)
    ensures e in Landed(table, Grouped(batch), outcomes) <==> Lands(outcomes(e.tenantId))
    ensures Holds(Landed(table, Grouped(batch), outcomes), e.id) <==> e in Landed(table, Grouped(batch), outcomes)
  {
    var end := Landed(table, Grouped(batch), outcomes);
    LandedHolds(table, Grouped(batch), outcomes, e.id);
    if Lands(outcomes(e.tenantId)) {
      var i := GroupOf(batch, e);
      var k :| 0 <= k < |Grouped(batch)[i].events| && Grouped(batch)[i].events[k] == e;
      assert Holds(Grouped(batch)[i].events, e.id);
    }
    if Holds(end, e.id) {
      var r :| 0 <= r < |end| && end[r].id == e.id;
      NewRowsAreTheBatchs(table, batch, outcomes, end[r]);
      HoldsMember(table, end[r]);
      SameIdSameEvent(batch, end[r], e);
    }
    HoldsMember(end, e);
  }
}
