/** The process-local revocation store: one insertion-ordered map, pruned and bounded. */
module RevocationStore {
  /*
   Session ids with their expiry, pruned by prefix on a write, dropped lazily on a read and cut to a
   ceiling from the front. The specification functions are what the class computes; the lemmas say what
   any history of calls answers.
   */

  import opened Options
  import opened OrderedMaps

  const TTL_MS := 300_000
  const MAX_ENTRIES := 10_000

  type Entries = seq<Entry<string, int>>

  /** Distinct ids, and insertion order is expiry order. */
  ghost predicate InOrder(es: Entries) {
    forall i, j :: 0 <= i < j < |es| ==> es[i].key != es[j].key && es[i].value <= es[j].value
  }

  /** The newest entry was written by `now`: what a clock that never goes back guarantees. */
  ghost predicate WrittenBy(es: Entries, now: int) {
    es != [] ==> es[|es| - 1].value <= now + TTL_MS
  }

  /** The full scan: every entry that has not expired, in order. */
  function Live(es: Entries, now: int): Entries {
    if es == [] then [] else (if es[0].value > now then [es[0]] else []) + Live(es[1..], now)
  }

  function Newest(es: Entries): Entries {
    if |es| <= MAX_ENTRIES then es else es[|es| - MAX_ENTRIES..]
  }

  function Inserted(es: Entries, e: Entry<string, int>): Entries {
    Without(es, e.key) + [e]
  }

  /** One `revoke`, whose two clock reads are the prune's and the new expiry's. */
  function Revoked(es: Entries, id: string, pruneAt: int, setAt: int): Entries {
    if id == "" then es else Newest(Inserted(Live(es, pruneAt), Entry(id, setAt + TTL_MS)))
  }

  /** One `isRevoked`: the answer, and the map it leaves. */
  predicate Answer(es: Entries, id: string, now: int) {
    Find(es, id).Some? && Find(es, id).value > now
  }

  function Queried(es: Entries, id: string, now: int): Entries {
    if Find(es, id).Some? && Find(es, id).value <= now then Without(es, id) else es
  }

  class InMemoryRevocationStore {
    var entries: Entries

    ghost predicate Valid()
      reads this
    {
      InOrder(entries) && |entries| <= MAX_ENTRIES
    }

    constructor ()
      ensures Valid() && entries == []
    {
      entries := [];
    }

    method Revoke(sessionId: string, pruneAt: int, setAt: int)
      requires Valid() && WrittenBy(entries, pruneAt) && pruneAt <= setAt
      modifies this
      ensures Valid() && WrittenBy(entries, setAt)
      ensures entries == Revoked(old(entries), sessionId, pruneAt, setAt)
      ensures sessionId != "" ==> EndsWith(entries, sessionId, pruneAt, setAt, old(entries))
    {
      if sessionId == "" {
        return;
      }
      RevokedHolds(entries, sessionId, pruneAt, setAt);
      InsertedInOrder(entries, sessionId, pruneAt, setAt);
      PruneExpired(pruneAt);
      entries := Without(entries, sessionId);
      entries := entries + [Entry(sessionId, setAt + TTL_MS)];
      EvictToCeiling();
    }

    method IsRevoked(sessionId: string, now: int) returns (revoked: bool)
      requires Valid()
      modifies this
      ensures Valid()
      ensures revoked == Answer(old(entries), sessionId, now)
      ensures entries == Queried(old(entries), sessionId, now)
      ensures forall e :: e in entries <==> e in old(entries) && (e.key == sessionId ==> e.value > now)
    {
      QueriedHolds(entries, sessionId, now);
      var expiresAt := Find(entries, sessionId);
      if expiresAt.None? {
        return false;
      }
      if expiresAt.value <= now {
        WithoutInOrder(entries, sessionId);
        entries := Without(entries, sessionId);
        return false;
      }
      return true;
    }

    /** The walk stops at the first live entry, and still removes exactly what a full scan would. */
    method PruneExpired(now: int)
      requires Valid()
      modifies this
      ensures Valid() && entries == Live(old(entries), now)
    {
      while entries != []
        invariant Valid() && Live(entries, now) == Live(old(entries), now)
      {
        if entries[0].value > now {
          LiveSuffix(entries, now);
          return;
        }
        WithoutAt(entries, 0);
        assert Without(entries, entries[0].key) == entries[1..];
        assert Live(entries, now) == Live(entries[1..], now);
        entries := Without(entries, entries[0].key);
      }
    }

    method EvictToCeiling()
      requires InOrder(entries)
      modifies this
      ensures Valid() && entries == Newest(old(entries))
    {
      while |entries| > MAX_ENTRIES
        invariant InOrder(entries) && Newest(entries) == Newest(old(entries))
      {
        WithoutAt(entries, 0);
        entries := Without(entries, entries[0].key);
      }
    }
  }

  // ---------------------------------------------------------------------------------------------
  // The full scan
  // ---------------------------------------------------------------------------------------------

  lemma {:induction false} LiveAppend(a: Entries, b: Entries, now: int)
    ensures Live(a + b, now) == Live(a, now) + Live(b, now)
  {
    if a == [] {
      assert a + b == b;
    } else {
      assert (a + b)[1..] == a[1..] + b;
      LiveAppend(a[1..], b, now);
    }
  }

  lemma {:induction false} LiveMember(es: Entries, now: int, e: Entry<string, int>)
    ensures e in Live(es, now) <==> e in es && e.value > now
  {
    if es != [] {
      LiveMember(es[1..], now, e);
      assert e in es <==> e == es[0] || e in es[1..];
    }
  }

  /** In expiry order, everything behind a live entry is live. */
  lemma {:induction false} LiveSuffix(es: Entries, now: int)
    requires InOrder(es) && (es != [] ==> es[0].value > now)
    ensures Live(es, now) == es
  {
    if es != [] {
      LiveSuffix(es[1..], now);
    }
  }

  /** The scan is a cut: a dead prefix goes, the rest stays. */
  lemma {:induction false} LiveCut(es: Entries, now: int) returns (cut: nat)
    requires InOrder(es)
    ensures cut <= |es| && Live(es, now) == es[cut..]
    ensures cut > 0 ==> es[0].value <= now
  {
    if es == [] {
      cut := 0;
    } else if es[0].value > now {
      LiveSuffix(es, now);
      cut := 0;
    } else {
      var rest := LiveCut(es[1..], now);
      cut := rest + 1;
      assert es[1..][rest..] == es[cut..];
    }
  }

  lemma {:induction false} WithoutMember(es: Entries, id: string, e: Entry<string, int>)
    ensures e in Without(es, id) <==> e in es && e.key != id
  {
    if es != [] {
      WithoutMember(es[1..], id, e);
      assert e in es <==> e == es[0] || e in es[1..];
    }
  }

  /** A revocation leaves the new entry last, and of the others live ones only. */
  ghost predicate EndsWith(left: Entries, id: string, pruneAt: int, setAt: int, es: Entries) {
    && left != [] && left[|left| - 1] == Entry(id, setAt + 300_000)
    && forall e :: e in left[..|left| - 1] ==> e in es && e.value > pruneAt && e.key != id
  }

  lemma RevokedHolds(es: Entries, id: string, pruneAt: int, setAt: int)
    requires id != ""
    ensures EndsWith(Revoked(es, id, pruneAt, setAt), id, pruneAt, setAt, es)
  {
    var all, left := Inserted(Live(es, pruneAt), Entry(id, setAt + TTL_MS)), Revoked(es, id, pruneAt, setAt);
    var rest := Without(Live(es, pruneAt), id);
    assert left == all[|all| - |left|..] && all[..|all| - 1] == rest;
    assert left[..|left| - 1] == rest[|rest| - (|left| - 1)..];
    forall e | e in rest ensures e in es && e.value > pruneAt && e.key != id {
      WithoutMember(Live(es, pruneAt), id, e);
      LiveMember(es, pruneAt, e);
    }
  }

  /** A query drops the session's own entry when it has expired, and nothing else. */
  lemma QueriedHolds(es: Entries, id: string, now: int)
    requires InOrder(es)
    ensures forall e :: e in Queried(es, id, now) <==> e in es && (e.key == id ==> e.value > now)
  {
    FindHas(es, id);
    forall e ensures e in Queried(es, id, now) <==> e in es && (e.key == id ==> e.value > now) {
      WithoutMember(es, id, e);
      if e in es && e.key == id {
        var i :| 0 <= i < |es| && es[i] == e;
        FindAt(es, i);
      }
    }
  }

  lemma {:induction false} LiveTwice(es: Entries, earlier: int, later: int)
    requires earlier <= later
    ensures Live(Live(es, earlier), later) == Live(es, later)
  {
    if es != [] {
      LiveTwice(es[1..], earlier, later);
      LiveAppend(if es[0].value > earlier then [es[0]] else [], Live(es[1..], earlier), later);
    }
  }

  lemma {:induction false} LiveWithout(es: Entries, id: string, now: int)
    ensures Live(Without(es, id), now) == Without(Live(es, now), id)
  {
    if es != [] {
      LiveWithout(es[1..], id, now);
      LiveAppend(if es[0].key == id then [] else [es[0]], Without(es[1..], id), now);
      WithoutAppend(if es[0].value > now then [es[0]] else [], Live(es[1..], now), id);
    }
  }

  lemma LiveInserted(es: Entries, e: Entry<string, int>, now: int)
    ensures Live(Inserted(es, e), now) == Without(Live(es, now), e.key) + Live([e], now)
  {
    LiveAppend(Without(es, e.key), [e], now);
    LiveWithout(es, e.key, now);
  }

  // ---------------------------------------------------------------------------------------------
  // The order is kept
  // ---------------------------------------------------------------------------------------------

  lemma WithoutInOrder(es: Entries, id: string)
    requires InOrder(es)
    ensures InOrder(Without(es, id)) && !Has(Without(es, id), id)
    ensures |Without(es, id)| <= |es|
    ensures forall now :: WrittenBy(es, now) ==> WrittenBy(Without(es, id), now)
  {
    var cut, skip := WithoutSplit(es, id);
  }

  lemma LiveInOrder(es: Entries, now: int)
    requires InOrder(es)
    ensures InOrder(Live(es, now)) && |Live(es, now)| <= |es|
    ensures forall t :: WrittenBy(es, t) ==> WrittenBy(Live(es, now), t)
  {
    var cut := LiveCut(es, now);
  }

  lemma AppendInOrder(es: Entries, e: Entry<string, int>, now: int)
    requires InOrder(es) && WrittenBy(es, now) && !Has(es, e.key) && e.value >= now + TTL_MS
    ensures InOrder(es + [e])
  {
    assert forall i :: 0 <= i < |es| ==> es[i].value <= e.value;
  }

  lemma InsertedInOrder(es: Entries, id: string, pruneAt: int, setAt: int)
    requires InOrder(es) && WrittenBy(es, pruneAt) && pruneAt <= setAt
    ensures InOrder(Inserted(Live(es, pruneAt), Entry(id, setAt + TTL_MS)))
    ensures InOrder(Inserted(es, Entry(id, setAt + TTL_MS)))
  {
    LiveInOrder(es, pruneAt);
    WithoutInOrder(es, id);
    WithoutInOrder(Live(es, pruneAt), id);
    AppendInOrder(Without(es, id), Entry(id, setAt + TTL_MS), pruneAt);
    AppendInOrder(Without(Live(es, pruneAt), id), Entry(id, setAt + TTL_MS), pruneAt);
  }

  // ---------------------------------------------------------------------------------------------
  // Histories
  // ---------------------------------------------------------------------------------------------

  datatype Event =
    | Revoke(id: string, pruneAt: int, setAt: int)
    | Query(id: string, at: int)
  {
    function Start(): int { if Revoke? then pruneAt else at }
    function End(): int { if Revoke? then setAt else at }
    predicate Records() { Revoke? && id != "" }
  }

  /** The clock never goes back, neither inside a call nor between two, and stands at `now`. */
  ghost predicate Timed(h: seq<Event>, now: int) {
    h == [] || (var last := h[|h| - 1];
                last.Start() <= last.End() <= now && Timed(h[..|h| - 1], last.Start()))
  }

  function Step(es: Entries, e: Event): Entries {
    if e.Revoke? then Revoked(es, e.id, e.pruneAt, e.setAt) else Queried(es, e.id, e.at)
  }

  /** What the store holds after a history of calls. */
  function Run(h: seq<Event>): Entries {
    if h == [] then [] else Step(Run(h[..|h| - 1]), h[|h| - 1])
  }

  /** When `id` was last revoked. The empty id is never recorded. */
  function LastRevoke(h: seq<Event>, id: string): Option<int> {
    if h == [] then None
    else if h[|h| - 1].Records() && h[|h| - 1].id == id then Some(h[|h| - 1].setAt)
    else LastRevoke(h[..|h| - 1], id)
  }

  /** The other non-empty ids revoked since then. */
  function OthersSince(h: seq<Event>, id: string): set<string> {
    if h == [] then {}
    else if !h[|h| - 1].Records() then OthersSince(h[..|h| - 1], id)
    else if h[|h| - 1].id == id then {}
    else OthersSince(h[..|h| - 1], id) + {h[|h| - 1].id}
  }

  /** Every id ever revoked, by last revocation: the map with no ceiling and no expiry. */
  function Recency(h: seq<Event>): Entries {
    if h == [] then [] else Recorded(Recency(h[..|h| - 1]), h[|h| - 1])
  }

  function Recorded(all: Entries, e: Event): Entries {
    if e.Records() then Inserted(all, Entry(e.id, e.setAt + TTL_MS)) else all
  }

  lemma {:induction false} RecencyInOrder(h: seq<Event>, now: int)
    requires Timed(h, now)
    ensures InOrder(Recency(h)) && WrittenBy(Recency(h), now)
  {
    if h != [] {
      var last := h[|h| - 1];
      RecencyInOrder(h[..|h| - 1], last.Start());
      if last.Records() {
        InsertedInOrder(Recency(h[..|h| - 1]), last.id, last.pruneAt, last.setAt);
      }
    }
  }

  /** `id` stands at `i` in `es` with exactly `others` behind it. */
  ghost predicate Stands(es: Entries, i: int, id: string, revokedAt: int, others: set<string>) {
    0 <= i < |es| && es[i] == Entry(id, revokedAt + TTL_MS) && Keys(es[i + 1..]) == others
  }

  /** Revoking another id leaves an entry in place and adds that id to those behind it. */
  lemma StandsStep(es: Entries, i: int, id: string, at: int, others: set<string>, e: Entry<string, int>)
      returns (j: int)
    requires Stands(es, i, id, at, others) && e.key != id
    ensures Stands(Inserted(es, e), j, id, at, others + {e.key})
  {
    var front, back := es[..i], es[i + 1..];
    assert es == front + ([es[i]] + back);
    WithoutAppend(front, [es[i]] + back, e.key);
    WithoutAppend([es[i]], back, e.key);
    j := |Without(front, e.key)|;
    assert Inserted(es, e) == Without(front, e.key) + ([es[i]] + (Without(back, e.key) + [e]));
    assert Inserted(es, e)[j + 1..] == Without(back, e.key) + [e];
    KeysAppend(Without(back, e.key), [e]);
    KeysWithout(back, e.key);
  }

  /** Where an id stands in `Recency`: at its last revocation, with exactly the later ids behind. */
  lemma {:induction false} RecencyMeaning(h: seq<Event>, id: string) returns (i: int)
    ensures LastRevoke(h, id).None? ==> id !in Keys(Recency(h))
    ensures LastRevoke(h, id).Some? ==>
              Stands(Recency(h), i, id, LastRevoke(h, id).value, OthersSince(h, id))
  {
    i := 0;
    if h != [] {
      var before, last := h[..|h| - 1], h[|h| - 1];
      i := RecencyMeaning(before, id);
      if last.Records() {
        var e := Entry(last.id, last.setAt + TTL_MS);
        if last.id == id {
          i := StandsLast(Recency(before), e);
        } else if LastRevoke(before, id).Some? {
          i := StandsStep(Recency(before), i, id, LastRevoke(before, id).value, OthersSince(before, id), e);
        } else {
          InsertedKeys(Recency(before), e);
        }
      }
    }
  }

  /** Revoking an id puts it last, with nothing behind it. */
  lemma StandsLast(es: Entries, e: Entry<string, int>) returns (i: int)
    ensures Stands(Inserted(es, e), i, e.key, e.value - TTL_MS, {})
  {
    i := |Without(es, e.key)|;
    assert Inserted(es, e)[i + 1..] == [];
  }

  lemma InsertedKeys(es: Entries, e: Entry<string, int>)
    ensures Keys(Inserted(es, e)) == Keys(es) + {e.key}
  {
    KeysAppend(Without(es, e.key), [e]);
    KeysWithout(es, e.key);
    assert [e][1..] == [];
  }

  /** What ties the bounded map to the unbounded one: they agree on what has not expired. */
  ghost predicate Agrees(es: Entries, all: Entries, now: int) {
    Live(es, now) == Live(Newest(all), now)
  }

  /** Cutting to the ceiling before a re-insertion as well as after it changes nothing. */
  lemma NewestOfInserted(all: Entries, e: Entry<string, int>)
    requires InOrder(all)
    ensures Newest(Inserted(all, e)) == Newest(Inserted(Newest(all), e))
  {
    if |all| > MAX_ENTRIES {
      var cut := |all| - MAX_ENTRIES;
      assert all == all[..cut] + all[cut..];
      WithoutAppend(all[..cut], all[cut..], e.key);
      NewestOfAppend(all[..cut], all[cut..], e);
    }
  }

  lemma NewestOfAppend(front: Entries, back: Entries, e: Entry<string, int>)
    requires InOrder(front + back) && |back| == MAX_ENTRIES
    ensures Newest(Without(front, e.key) + Without(back, e.key) + [e]) == Newest(Inserted(back, e))
  {
    assert forall i :: 0 <= i < |front| ==> (front + back)[i] == front[i];
    assert forall i :: 0 <= i < |back| ==> (front + back)[|front| + i] == back[i];
    assert InOrder(back);
    var i, j := WithoutSplit(back, e.key);
    var f, b := Without(front, e.key), Inserted(back, e);
    assert f + Without(back, e.key) + [e] == f + b;
    if Has(back, e.key) {
      assert forall k :: 0 <= k < |front| ==> front[k].key != back[i].key;
      WithoutAbsent(front, e.key);
      assert |b| == MAX_ENTRIES;
    }
    assert |f + b| - MAX_ENTRIES >= |f| ==> (f + b)[|f + b| - MAX_ENTRIES..] == b[|b| - MAX_ENTRIES..];
  }

  /** A full map without the id, whose oldest entry has expired: the insertion drops only that. */
  lemma DroppedHadExpired(w: Entries, e: Entry<string, int>, now: int)
    requires InOrder(w) && |w| == MAX_ENTRIES == |Without(w, e.key)| && w[0].value <= now
    ensures Live(Newest(Inserted(w, e)), now) == Live(Inserted(w, e), now)
  {
    var _, _ := WithoutSplit(w, e.key);
    WithoutAbsent(w, e.key);
    assert Inserted(w, e) == [w[0]] + (w[1..] + [e]);
    assert Newest(Inserted(w, e)) == w[1..] + [e];
    LiveAppend([w[0]], w[1..] + [e], now);
    assert [w[0]][1..] == [];
  }

  /** Pruning first costs nothing: what the ceiling then drops had expired anyway. */
  lemma PruningIsFree(w: Entries, e: Entry<string, int>, now: int)
    requires InOrder(w) && |w| <= MAX_ENTRIES
    ensures Live(Newest(Inserted(Live(w, now), e)), now) == Live(Newest(Inserted(w, e)), now)
  {
    var cut := LiveCut(w, now);
    if cut == 0 {
      assert w[0..] == w;
    } else {
      PrunedFits(w, e, now, cut);
      PrunedInsertLive(w, e, now);
      var _, _ := WithoutSplit(w, e.key);
      if |Without(w, e.key)| == MAX_ENTRIES {
        DroppedHadExpired(w, e, now);
      } else {
        assert Newest(Inserted(w, e)) == Inserted(w, e);
      }
    }
  }

  /** A map the prune shortened takes one more entry without being cut. */
  lemma PrunedFits(w: Entries, e: Entry<string, int>, now: int, cut: nat)
    requires InOrder(w) && 0 < cut <= |w| <= MAX_ENTRIES && Live(w, now) == w[cut..]
    ensures Newest(Inserted(Live(w, now), e)) == Inserted(Live(w, now), e)
  {
    assert InOrder(w[cut..]);
    var _, _ := WithoutSplit(w[cut..], e.key);
  }

  lemma PrunedInsertLive(w: Entries, e: Entry<string, int>, now: int)
    ensures Live(Inserted(Live(w, now), e), now) == Live(Inserted(w, e), now)
  {
    LiveTwice(w, now, now);
    LiveInserted(w, e, now);
    LiveInserted(Live(w, now), e, now);
  }

  lemma LiveLater(a: Entries, b: Entries, earlier: int, later: int)
    requires Live(a, earlier) == Live(b, earlier) && earlier <= later
    ensures Live(a, later) == Live(b, later)
  {
    LiveTwice(a, earlier, later);
    LiveTwice(b, earlier, later);
  }

  lemma RevokedAgrees(es: Entries, all: Entries, id: string, pruneAt: int, setAt: int, now: int)
    requires id != "" && pruneAt <= now && Agrees(es, all, pruneAt) && InOrder(all)
    ensures Agrees(Revoked(es, id, pruneAt, setAt), Inserted(all, Entry(id, setAt + TTL_MS)), now)
  {
    var e := Entry(id, setAt + TTL_MS);
    var kept := Newest(Inserted(Live(es, pruneAt), e));
    NewestOfInserted(all, e);
    PruningIsFree(Newest(all), e, pruneAt);
    LiveLater(kept, Newest(Inserted(all, e)), pruneAt, now);
  }

  /** A read drops only what has expired. */
  lemma QueriedAgrees(es: Entries, id: string, now: int)
    requires InOrder(es)
    ensures Live(Queried(es, id, now), now) == Live(es, now)
  {
    if Find(es, id).Some? && Find(es, id).value <= now {
      LiveWithout(es, id, now);
      AnswerIsLive(es, id, now);
      WithoutAbsent(Live(es, now), id);
    }
  }

  lemma AnswerIsLive(es: Entries, id: string, now: int)
    requires InOrder(es)
    ensures Answer(es, id, now) <==> Has(Live(es, now), id)
  {
    FindHas(es, id);
    if Answer(es, id, now) {
      LiveMember(es, now, Entry(id, Find(es, id).value));
    }
    if Has(Live(es, now), id) {
      var e :| e in Live(es, now) && e.key == id;
      LiveMember(es, now, e);
      var i :| 0 <= i < |es| && es[i] == e;
      FindAt(es, i);
    }
  }

  lemma StepInOrder(es: Entries, e: Event)
    requires InOrder(es) && |es| <= MAX_ENTRIES && WrittenBy(es, e.Start()) && e.Start() <= e.End()
    ensures InOrder(Step(es, e)) && |Step(es, e)| <= MAX_ENTRIES && WrittenBy(Step(es, e), e.End())
  {
    if e.Revoke? {
      RevokedInOrder(es, e.id, e.pruneAt, e.setAt);
    } else {
      WithoutInOrder(es, e.id);
    }
  }

  lemma RevokedInOrder(es: Entries, id: string, pruneAt: int, setAt: int)
    requires InOrder(es) && |es| <= MAX_ENTRIES && WrittenBy(es, pruneAt) && pruneAt <= setAt
    ensures InOrder(Revoked(es, id, pruneAt, setAt)) && |Revoked(es, id, pruneAt, setAt)| <= MAX_ENTRIES
    ensures WrittenBy(Revoked(es, id, pruneAt, setAt), setAt)
  {
    if id != "" {
      InsertedInOrder(es, id, pruneAt, setAt);
      var all := Inserted(Live(es, pruneAt), Entry(id, setAt + TTL_MS));
      assert all[|all| - 1].value == setAt + TTL_MS;
      NewestInOrder(all);
    }
  }

  lemma NewestInOrder(es: Entries)
    requires InOrder(es)
    ensures InOrder(Newest(es)) && |Newest(es)| <= MAX_ENTRIES
    ensures es != [] ==> Newest(es) != [] && Newest(es)[|Newest(es)| - 1] == es[|es| - 1]
  {
  }

  lemma AgreesLater(es: Entries, all: Entries, earlier: int, later: int)
    requires Agrees(es, all, earlier) && earlier <= later
    ensures Agrees(es, all, later)
  {
    LiveLater(es, Newest(all), earlier, later);
  }

  lemma QueryStepAgrees(es: Entries, all: Entries, id: string, at: int, now: int)
    requires InOrder(es) && Agrees(es, all, at) && at <= now
    ensures Agrees(Step(es, Query(id, at)), Recorded(all, Query(id, at)), now)
  {
    QueriedAgrees(es, id, at);
    AgreesLater(Queried(es, id, at), all, at, now);
  }

  lemma RevokeStepAgrees(es: Entries, all: Entries, id: string, pruneAt: int, setAt: int, now: int)
    requires InOrder(all) && Agrees(es, all, pruneAt) && pruneAt <= now
    ensures Agrees(Step(es, Revoke(id, pruneAt, setAt)), Recorded(all, Revoke(id, pruneAt, setAt)), now)
  {
    var e := Revoke(id, pruneAt, setAt);
    if id == "" {
      assert Step(es, e) == es && Recorded(all, e) == all;
      AgreesLater(es, all, pruneAt, now);
    } else {
      assert Step(es, e) == Revoked(es, id, pruneAt, setAt);
      assert Recorded(all, e) == Inserted(all, Entry(id, setAt + TTL_MS));
      RevokedAgrees(es, all, id, pruneAt, setAt, now);
    }
  }

  /** One call keeps the agreement, and time passing keeps it too. */
  lemma StepAgrees(es: Entries, all: Entries, e: Event, now: int)
    requires InOrder(es) && InOrder(all) && Agrees(es, all, e.Start()) && e.Start() <= e.End() <= now
    ensures Agrees(Step(es, e), Recorded(all, e), now)
  {
    match e
    case Query(id, at) => QueryStepAgrees(es, all, id, at, now);
    case Revoke(id, pruneAt, setAt) => RevokeStepAgrees(es, all, id, pruneAt, setAt, now);
  }

  /** Every history keeps the order and the ceiling. */
  lemma {:induction false} RunInOrder(h: seq<Event>, now: int)
    requires Timed(h, now)
    ensures InOrder(Run(h)) && |Run(h)| <= MAX_ENTRIES && WrittenBy(Run(h), now)
  {
    if h != [] {
      RunInOrder(h[..|h| - 1], h[|h| - 1].Start());
      StepInOrder(Run(h[..|h| - 1]), h[|h| - 1]);
    }
  }

  /** ...and agrees with the unbounded map on everything that has not expired. */
  lemma {:induction false} RunAgrees(h: seq<Event>, now: int)
    requires Timed(h, now)
    ensures Agrees(Run(h), Recency(h), now)
  {
    if h != [] {
      var start := h[|h| - 1].Start();
      RunAgrees(h[..|h| - 1], start);
      RunInOrder(h[..|h| - 1], start);
      RecencyInOrder(h[..|h| - 1], start);
      StepAgrees(Run(h[..|h| - 1]), Recency(h[..|h| - 1]), h[|h| - 1], now);
    }
  }

  /**
   THE EXACT SPECIFICATION. After any history, a session is reported revoked at `now` exactly when
   its last revocation is less than five minutes old and fewer than ten thousand distinct other
   sessions have been revoked since.
   */
  lemma RevokedExactly(h: seq<Event>, id: string, now: int)
    requires Timed(h, now)
    ensures Answer(Run(h), id, now) <==>
            && LastRevoke(h, id).Some?
            && now < LastRevoke(h, id).value + 300_000
            && |OthersSince(h, id)| < 10_000
  {
    RunInOrder(h, now);
    RunAgrees(h, now);
    RecencyInOrder(h, now);
    var i := RecencyMeaning(h, id);
    AnswerIsLive(Run(h), id, now);
    AnswerIsLive(Newest(Recency(h)), id, now);
    FindHas(Newest(Recency(h)), id);
    if LastRevoke(h, id).None? {
      KeysHas(Recency(h), id);
    } else {
      NewestHolds(Recency(h), i, id);
    }
  }

  /** The ceiling keeps an entry exactly when fewer than `MAX_ENTRIES` distinct ids stand behind it. */
  lemma NewestHolds(all: Entries, i: int, id: string)
    requires InOrder(all) && 0 <= i < |all| && all[i].key == id
    ensures |Keys(all[i + 1..])| < MAX_ENTRIES <==> Has(Newest(all), id)
    ensures Has(Newest(all), id) ==> Find(Newest(all), id) == Some(all[i].value)
  {
    KeysSize(all[i + 1..]);
    if |all| - i <= MAX_ENTRIES {
      FindAt(Newest(all), |Newest(all)| - (|all| - i));
    }
  }
}
