/**
 The process-local fixed-window limiter: per bucket, one insertion-ordered map kept in last-check
 order by deleting and re-inserting, bounded by limit-aware eviction, with refunds in place.
 */
module RateLimiter {
  import opened Options
  import opened OrderedMaps
  import opened Texts

  const MAX_PRINCIPALS := 10_000
  const MS_PER_SECOND := 1000

  datatype Rule = Rule(limit: int, windowSeconds: int) {
    predicate Valid() { limit >= 1 && windowSeconds >= 1 }
    function WindowMs(): int { windowSeconds * MS_PER_SECOND }
  }

  datatype Bucket = SignInPerIp | SignInPerEmail | SignUpPerIp | OtherPerIp

  function RuleOf(bucket: Bucket): (r: Rule)
    ensures r.Valid()
  {
    match bucket
    case SignInPerIp => Rule(10, 300)
    case SignInPerEmail => Rule(5, 900)
    case SignUpPerIp => Rule(3, 3600)
    case OtherPerIp => Rule(60, 60)
  }

  datatype Slot = Slot(windowStart: int, count: int)

  type Slots = seq<Entry<string, Slot>>

  datatype Verdict = Admitted(windowStart: int) | Refused(retryAfterSeconds: int)

  // ---------------------------------------------------------------------------------------------
  // Specification of the four operations on one bucket
  // ---------------------------------------------------------------------------------------------

  function WindowStart(rule: Rule, now: int): int
    requires rule.Valid()
  {
    now / rule.WindowMs() * rule.WindowMs()
  }

  /** `Math.max(1, Math.ceil(...))` of what is left of the window, in seconds. */
  function RetryAfter(rule: Rule, now: int): int
    requires rule.Valid()
  {
    var left := CeilDiv(WindowStart(rule, now) + rule.WindowMs() - now, MS_PER_SECOND);
    if left < 1 then 1 else left
  }

  /** What a key has been charged in one window. */
  function CountIn(slots: Slots, key: string, window: int): int {
    match Find(slots, key)
    case Some(slot) => if slot.windowStart == window then slot.count else 0
    case None => 0
  }

  /** The least recently checked entry under its limit, or the least recently checked of all. */
  function Victim(slots: Slots, rule: Rule, from: nat): nat
    requires from <= |slots|
    decreases |slots| - from
  {
    if from == |slots| then 0
    else if slots[from].value.count < rule.limit then from
    else Victim(slots, rule, from + 1)
  }

  lemma {:induction false} VictimFound(slots: Slots, rule: Rule, from: nat)
    requires from <= |slots|
    requires forall i :: 0 <= i < from ==> slots[i].value.count >= rule.limit
    ensures var v := Victim(slots, rule, from);
            if v < |slots| && slots[v].value.count < rule.limit
            then forall i :: 0 <= i < v ==> slots[i].value.count >= rule.limit
            else v == 0 && forall i :: 0 <= i < |slots| ==> slots[i].value.count >= rule.limit
    decreases |slots| - from
  {
    if from < |slots| && slots[from].value.count >= rule.limit {
      VictimFound(slots, rule, from + 1);
    }
  }

  /** The entry a check of a new key removes to stay under the cap. */
  function Casualty(rest: Slots, rule: Rule): Option<Entry<string, Slot>> {
    if |rest| < MAX_PRINCIPALS then None
    else
      var v := Victim(rest, rule, 0);
      if v < |rest| then Some(rest[v]) else None
  }

  function Evicted(rest: Slots, rule: Rule): Slots {
    match Casualty(rest, rule)
    case Some(e) => Without(rest, e.key)
    case None => rest
  }

  function Charged(slots: Slots, rule: Rule, key: string, window: int): Slots {
    var rest := Without(slots, key);
    if CountIn(slots, key, window) > 0 then
      rest + [Entry(key, Slot(window, CountIn(slots, key, window) + 1))]
    else
      Evicted(rest, rule) + [Entry(key, Slot(window, 1))]
  }

  function VerdictOf(count: int, rule: Rule, now: int): Verdict
    requires rule.Valid()
  {
    if count > rule.limit then Refused(RetryAfter(rule, now)) else Admitted(WindowStart(rule, now))
  }

  function Replaced(slots: Slots, key: string, slot: Slot): Slots {
    if slots == [] then []
    else [if slots[0].key == key then Entry(key, slot) else slots[0]] + Replaced(slots[1..], key, slot)
  }

  function Released(slots: Slots, key: string, window: int): Slots {
    var count := CountIn(slots, key, window);
    if count == 0 then slots
    else if count == 1 then Without(slots, key)
    else Replaced(slots, key, Slot(window, count - 1))
  }

  /** Every entry whose window has not elapsed, in order. */
  function Unelapsed(slots: Slots, windowMs: int, now: int): Slots {
    if slots == [] then []
    else (if slots[0].value.windowStart + windowMs > now then [slots[0]] else [])
         + Unelapsed(slots[1..], windowMs, now)
  }

  /** What every reachable map satisfies. */
  ghost predicate WellFormed(slots: Slots) {
    && Distinct(slots)
    && |slots| <= MAX_PRINCIPALS
    && forall i :: 0 <= i < |slots| ==> slots[i].value.count >= 1
  }

  // ---------------------------------------------------------------------------------------------
  // The class
  // ---------------------------------------------------------------------------------------------

  class LocalAuthRateLimiter {
    var buckets: map<Bucket, Slots>

    ghost predicate Valid()
      reads this
    {
      forall b :: b in buckets ==> WellFormed(buckets[b])
    }

    /** A bucket that was never charged holds nothing. */
    function Entries(bucket: Bucket): Slots
      reads this
    {
      if bucket in buckets then buckets[bucket] else []
    }

    constructor ()
      ensures Valid() && buckets == map[]
    {
      buckets := map[];
    }

    method Check(bucket: Bucket, key: string, now: int) returns (verdict: Verdict)
      requires Valid()
      modifies this
      ensures Valid()
      ensures var window := WindowStart(RuleOf(bucket), now);
              && buckets == old(buckets)[bucket := Charged(old(Entries(bucket)), RuleOf(bucket), key, window)]
              && verdict == VerdictOf(old(CountIn(Entries(bucket), key, window)) + 1, RuleOf(bucket), now)
    {
      var rule := RuleOf(bucket);
      var entries := Entries(bucket);
      var windowMs := rule.windowSeconds * MS_PER_SECOND;
      var windowStart := now / windowMs * windowMs;
      ChargedWellFormed(entries, rule, key, windowStart);
      WithoutWellFormed(entries, key);
      FindHas(entries, key);

      var entry := Find(entries, key);
      if entry.Some? {
        entries := Without(entries, key);
        if entry.value.windowStart != windowStart {
          entry := None;
        }
      }
      if entry.None? {
        if |entries| >= MAX_PRINCIPALS {
          entries := EvictOne(entries, rule);
        }
        entry := Some(Slot(windowStart, 0));
      }
      entry := Some(entry.value.(count := entry.value.count + 1));
      entries := entries + [Entry(key, entry.value)];
      buckets := buckets[bucket := entries];

      if entry.value.count > rule.limit {
        var retry := CeilDiv(windowStart + windowMs - now, MS_PER_SECOND);
        return Refused(if retry < 1 then 1 else retry);
      }
      return Admitted(windowStart);
    }

    /** One charge back, in the charge's own window and only there. */
    method Release(bucket: Bucket, key: string, chargeWindow: int)
      requires Valid()
      modifies this
      ensures Valid()
      ensures buckets == old(buckets)[bucket := Released(old(Entries(bucket)), key, chargeWindow)]
    {
      var entries := Entries(bucket);
      ReleasedWellFormed(entries, key, chargeWindow);
      CountPositive(entries, key, chargeWindow);
      var entry := Find(entries, key);
      if entry.None? || entry.value.windowStart != chargeWindow {
        buckets := buckets[bucket := entries];
        return;
      }
      if entry.value.count <= 1 {
        buckets := buckets[bucket := Without(entries, key)];
        return;
      }
      buckets := buckets[bucket := Replaced(entries, key, entry.value.(count := entry.value.count - 1))];
    }

    method SweepExpired(now: int)
      requires Valid()
      modifies this
      ensures Valid() && buckets.Keys == old(buckets).Keys
      ensures forall b :: b in buckets ==>
                buckets[b] == Unelapsed(old(buckets)[b], RuleOf(b).WindowMs(), now)
    {
      ghost var before := buckets;
      var todo := buckets.Keys;
      while todo != {}
        invariant Valid() && buckets.Keys == before.Keys && todo <= before.Keys
        invariant forall b :: b in todo ==> buckets[b] == before[b]
        invariant forall b :: b in before.Keys - todo ==> buckets[b] == Unelapsed(before[b], RuleOf(b).WindowMs(), now)
        decreases todo
      {
        var bucket :| bucket in todo;
        var kept := SweepOne(buckets[bucket], RuleOf(bucket).windowSeconds * MS_PER_SECOND, now);
        buckets := buckets[bucket := kept];
        todo := todo - {bucket};
      }
    }
  }

  /** Walks a full map for an entry under its limit, and takes the oldest when there is none. */
  method EvictOne(entries: Slots, rule: Rule) returns (rest: Slots)
    requires |entries| >= MAX_PRINCIPALS && Distinct(entries)
    ensures rest == Evicted(entries, rule)
  {
    var i := 0;
    while i < |entries|
      invariant 0 <= i <= |entries| && Victim(entries, rule, i) == Victim(entries, rule, 0)
    {
      if entries[i].value.count < rule.limit {
        return Without(entries, entries[i].key);
      }
      i := i + 1;
    }
    rest := Without(entries, entries[0].key);
  }

  /** Deletes while iterating, as a `for of` over a `Map` may. */
  method SweepOne(entries: Slots, windowMs: int, now: int) returns (kept: Slots)
    requires WellFormed(entries)
    ensures kept == Unelapsed(entries, windowMs, now) && WellFormed(kept)
  {
    kept := entries;
    for i := 0 to |entries|
      invariant kept == Unelapsed(entries[..i], windowMs, now) + entries[i..]
    {
      SweepStep(entries, i, windowMs, now);
      if entries[i].value.windowStart + windowMs <= now {
        kept := Without(kept, entries[i].key);
      }
    }
    assert entries[..|entries|] == entries;
    UnelapsedWellFormed(entries, windowMs, now);
  }

  lemma SweepStep(entries: Slots, i: nat, windowMs: int, now: int)
    requires WellFormed(entries) && i < |entries|
    ensures var kept := Unelapsed(entries[..i], windowMs, now) + entries[i..];
            Unelapsed(entries[..i + 1], windowMs, now) + entries[i + 1..] ==
            if entries[i].value.windowStart + windowMs <= now then Without(kept, entries[i].key) else kept
  {
    var done := Unelapsed(entries[..i], windowMs, now);
    UnelapsedSnoc(entries[..i], entries[i], windowMs, now);
    assert entries[..i + 1] == entries[..i] + [entries[i]];
    assert entries[i..] == [entries[i]] + entries[i + 1..];
    if entries[i].value.windowStart + windowMs <= now {
      UnelapsedKeys(entries[..i], entries[i].key, windowMs, now);
      WithoutAppend(done, entries[i..], entries[i].key);
      WithoutAt(entries[i..], 0);
      WithoutAbsent(done, entries[i].key);
    }
  }

  // ---------------------------------------------------------------------------------------------
  // Shape
  // ---------------------------------------------------------------------------------------------

  lemma {:induction false} UnelapsedSnoc(slots: Slots, e: Entry<string, Slot>, windowMs: int, now: int)
    ensures Unelapsed(slots + [e], windowMs, now) == Unelapsed(slots, windowMs, now) + Unelapsed([e], windowMs, now)
  {
    if slots == [] {
      assert slots + [e] == [e];
    } else {
      assert (slots + [e])[1..] == slots[1..] + [e];
      UnelapsedSnoc(slots[1..], e, windowMs, now);
    }
  }

  lemma {:induction false} UnelapsedMember(slots: Slots, e: Entry<string, Slot>, windowMs: int, now: int)
    ensures e in Unelapsed(slots, windowMs, now) <==> e in slots && e.value.windowStart + windowMs > now
  {
    if slots != [] {
      UnelapsedMember(slots[1..], e, windowMs, now);
      assert e in slots <==> e == slots[0] || e in slots[1..];
    }
  }

  lemma UnelapsedKeys(slots: Slots, key: string, windowMs: int, now: int)
    requires !Has(slots, key)
    ensures !Has(Unelapsed(slots, windowMs, now), key)
  {
    if Has(Unelapsed(slots, windowMs, now), key) {
      var e :| e in Unelapsed(slots, windowMs, now) && e.key == key;
      UnelapsedMember(slots, e, windowMs, now);
      assert false;
    }
  }

  lemma {:induction false} UnelapsedWellFormed(slots: Slots, windowMs: int, now: int)
    requires WellFormed(slots)
    ensures WellFormed(Unelapsed(slots, windowMs, now)) && |Unelapsed(slots, windowMs, now)| <= |slots|
  {
    if slots != [] {
      UnelapsedWellFormed(slots[1..], windowMs, now);
      UnelapsedKeys(slots[1..], slots[0].key, windowMs, now);
    }
  }

  lemma CountPositive(slots: Slots, key: string, window: int)
    requires WellFormed(slots)
    ensures CountIn(slots, key, window) >= 0
    ensures CountIn(slots, key, window) > 0 <==>
            Find(slots, key).Some? && Find(slots, key).value.windowStart == window
  {
    FindHas(slots, key);
  }

  lemma WithoutWellFormed(slots: Slots, key: string)
    requires WellFormed(slots)
    ensures WellFormed(Without(slots, key)) && !Has(Without(slots, key), key)
    ensures Has(slots, key) ==> |Without(slots, key)| == |slots| - 1
    ensures !Has(slots, key) ==> Without(slots, key) == slots
  {
    var cut, skip := WithoutSplit(slots, key);
  }

  lemma EvictedWellFormed(rest: Slots, rule: Rule)
    requires WellFormed(rest)
    ensures WellFormed(Evicted(rest, rule)) && |Evicted(rest, rule)| < MAX_PRINCIPALS
    ensures forall k :: !Has(rest, k) ==> !Has(Evicted(rest, rule), k)
  {
    if |rest| >= MAX_PRINCIPALS {
      VictimFound(rest, rule, 0);
      var v := Victim(rest, rule, 0);
      WithoutAt(rest, v);
      WithoutWellFormed(rest, rest[v].key);
    }
  }

  lemma ChargedWellFormed(slots: Slots, rule: Rule, key: string, window: int)
    requires WellFormed(slots)
    ensures WellFormed(Charged(slots, rule, key, window))
  {
    WithoutWellFormed(slots, key);
    CountPositive(slots, key, window);
    FindHas(slots, key);
    EvictedWellFormed(Without(slots, key), rule);
  }

  lemma {:induction false} ReplacedKeys(slots: Slots, key: string, slot: Slot)
    ensures |Replaced(slots, key, slot)| == |slots|
    ensures forall i :: 0 <= i < |slots| ==>
              Replaced(slots, key, slot)[i] == (if slots[i].key == key then Entry(key, slot) else slots[i])
  {
    if slots != [] {
      ReplacedKeys(slots[1..], key, slot);
    }
  }

  lemma ReplacedWellFormed(slots: Slots, key: string, slot: Slot)
    requires WellFormed(slots) && slot.count >= 1
    ensures WellFormed(Replaced(slots, key, slot))
  {
    ReplacedKeys(slots, key, slot);
    var r := Replaced(slots, key, slot);
    assert forall i :: 0 <= i < |slots| ==> r[i].key == slots[i].key;
  }

  lemma ReleasedWellFormed(slots: Slots, key: string, window: int)
    requires WellFormed(slots)
    ensures WellFormed(Released(slots, key, window))
  {
    CountPositive(slots, key, window);
    var count := CountIn(slots, key, window);
    if count == 1 {
      WithoutWellFormed(slots, key);
    } else if count > 1 {
      ReplacedWellFormed(slots, key, Slot(window, count - 1));
    }
  }
}
