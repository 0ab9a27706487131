/** What one bucket of the limiter answers over any history. */
module RateLimiterHistory {
  /*
   The stored count is attempts minus refunds, the map order is last-check order, and below the cap the
   store cannot be told from one unbounded counter per key and window.
   */

  import opened Options
  import opened OrderedMaps
  import opened RateLimiter
  import opened Texts

  datatype Op =
    | Check(key: string, now: int)
    | Release(key: string, window: int)
    | Sweep(now: int)

  function Step(rule: Rule, slots: Slots, op: Op): Slots
    requires rule.Valid()
  {
    match op
    case Check(key, now) => Charged(slots, rule, key, WindowStart(rule, now))
    case Release(key, window) => Released(slots, key, window)
    case Sweep(now) => Unelapsed(slots, rule.WindowMs(), now)
  }

  function Run(rule: Rule, h: seq<Op>): Slots
    requires rule.Valid()
  {
    if h == [] then [] else Step(rule, Run(rule, h[..|h| - 1]), h[|h| - 1])
  }

  /** The clock never goes back, and stands at `now`. */
  ghost predicate Timed(h: seq<Op>, now: int) {
    h == [] ||
    match h[|h| - 1]
    case Release(_, _) => Timed(h[..|h| - 1], now)
    case Check(_, t) => t <= now && Timed(h[..|h| - 1], t)
    case Sweep(t) => t <= now && Timed(h[..|h| - 1], t)
  }

  // ---------------------------------------------------------------------------------------------
  // The reference: one unbounded counter per key and window
  // ---------------------------------------------------------------------------------------------

  predicate Attempts(rule: Rule, op: Op, key: string, window: int)
    requires rule.Valid()
  {
    op.Check? && op.key == key && WindowStart(rule, op.now) == window
  }

  function Tally(rule: Rule, h: seq<Op>, key: string, window: int): nat
    requires rule.Valid()
  {
    if h == [] then 0
    else
      var before := Tally(rule, h[..|h| - 1], key, window);
      if Attempts(rule, h[|h| - 1], key, window) then before + 1
      else if h[|h| - 1] == Release(key, window) && before > 0 then before - 1
      else before
  }

  function AttemptCount(rule: Rule, h: seq<Op>, key: string, window: int): nat
    requires rule.Valid()
  {
    if h == [] then 0
    else AttemptCount(rule, h[..|h| - 1], key, window)
         + if Attempts(rule, h[|h| - 1], key, window) then 1 else 0
  }

  function ReleaseCount(h: seq<Op>, key: string, window: int): nat {
    if h == [] then 0
    else ReleaseCount(h[..|h| - 1], key, window) + if h[|h| - 1] == Release(key, window) then 1 else 0
  }

  /** How many of the attempts were let through. */
  function AdmittedCount(rule: Rule, h: seq<Op>, key: string, window: int): nat
    requires rule.Valid()
  {
    if h == [] then 0
    else AdmittedCount(rule, h[..|h| - 1], key, window)
         + if Attempts(rule, h[|h| - 1], key, window)
           && CountIn(Run(rule, h[..|h| - 1]), key, window) + 1 <= rule.limit then 1 else 0
  }

  // ---------------------------------------------------------------------------------------------
  // Windows
  // ---------------------------------------------------------------------------------------------

  lemma WindowHolds(rule: Rule, now: int)
    requires rule.Valid()
    ensures WindowStart(rule, now) <= now < WindowStart(rule, now) + rule.WindowMs()
  {
    var ms := rule.WindowMs();
    assert now == now / ms * ms + now % ms;
  }

  lemma WindowMonotone(rule: Rule, earlier: int, later: int)
    requires rule.Valid() && earlier <= later
    ensures WindowStart(rule, earlier) <= WindowStart(rule, later)
  {
    var ms := rule.WindowMs();
    WindowHolds(rule, earlier);
    WindowHolds(rule, later);
    var a, b := earlier / ms, later / ms;
    if a > b {
      MultiplesApart(a, b, ms);
    }
  }

  lemma {:induction false} MultiplesApart(a: int, b: int, ms: int)
    requires a > b && ms > 0
    ensures a * ms >= b * ms + ms
    decreases a - b
  {
    assert a * ms == (a - 1) * ms + ms;
    if a - 1 > b {
      MultiplesApart(a - 1, b, ms);
    }
  }

  lemma NextWindow(rule: Rule, now: int)
    requires rule.Valid()
    ensures var next := WindowStart(rule, now) + rule.WindowMs(); WindowStart(rule, next) == next
  {
    var ms := rule.WindowMs();
    var n := now / ms;
    assert n * ms + ms == (n + 1) * ms;
    MultipleDivides(n + 1, ms);
  }

  lemma MultipleDivides(n: int, ms: int)
    requires ms > 0
    ensures n * ms / ms == n
  {
    var q, r := n * ms / ms, n * ms % ms;
    assert n * ms == q * ms + r;
    if q < n {
      MultiplesApart(n, q, ms);
    } else if q > n {
      MultiplesApart(q, n, ms);
    }
  }

  lemma CeilDivBounds(a: int, b: int)
    requires b > 0
    ensures a <= CeilDiv(a, b) * b < a + b
  {
    assert -a == (-a) / b * b + (-a) % b;
  }

  /**
   The refusal's delay is at least a second, at most a window, and the least whole number of seconds
   such that waiting it out suffices.
   */
  lemma RetryLandsLater(rule: Rule, now: int)
    requires rule.Valid()
    ensures 1 <= RetryAfter(rule, now) <= rule.windowSeconds
    ensures WindowStart(rule, now + RetryAfter(rule, now) * MS_PER_SECOND) > WindowStart(rule, now)
    ensures now + (RetryAfter(rule, now) - 1) * MS_PER_SECOND < WindowStart(rule, now) + rule.WindowMs()
  {
    var next := WindowStart(rule, now) + rule.WindowMs();
    WindowHolds(rule, now);
    CeilDivBounds(next - now, MS_PER_SECOND);
    NextWindow(rule, now);
    WindowMonotone(rule, next, now + RetryAfter(rule, now) * MS_PER_SECOND);
  }

  // ---------------------------------------------------------------------------------------------
  // What each operation does to each count
  // ---------------------------------------------------------------------------------------------

  /** What an eviction leaves of a key whose entry it does not take. */
  lemma FindAfterEviction(rest: Slots, rule: Rule, k: string)
    requires WellFormed(rest)
    requires Casualty(rest, rule).Some? ==> Casualty(rest, rule).value.key != k
    ensures Find(Evicted(rest, rule), k) == Find(rest, k)
  {
    if Casualty(rest, rule).Some? {
      FindWithout(rest, Casualty(rest, rule).value.key, k);
    }
  }

  /** A casualty of another window than `w` held nothing of `w`. */
  lemma CasualtyCount(rest: Slots, rule: Rule, w: int)
    requires WellFormed(rest) && Casualty(rest, rule).Some? && Casualty(rest, rule).value.value.windowStart != w
    ensures CountIn(rest, Casualty(rest, rule).value.key, w) == 0
    ensures CountIn(Evicted(rest, rule), Casualty(rest, rule).value.key, w) == 0
  {
    VictimFound(rest, rule, 0);
    FindAt(rest, Victim(rest, rule, 0));
    FindWithout(rest, Casualty(rest, rule).value.key, Casualty(rest, rule).value.key);
  }

  /** What a charge keeps of the other entries. */
  function Spared(slots: Slots, rule: Rule, key: string, window: int): Slots {
    if CountIn(slots, key, window) > 0 then Without(slots, key) else Evicted(Without(slots, key), rule)
  }

  lemma ChargedIs(slots: Slots, rule: Rule, key: string, window: int)
    requires WellFormed(slots)
    ensures Charged(slots, rule, key, window) ==
            Spared(slots, rule, key, window) + [Entry(key, Slot(window, CountIn(slots, key, window) + 1))]
    ensures Find(Spared(slots, rule, key, window), key).None?
  {
    CountPositive(slots, key, window);
    WithoutWellFormed(slots, key);
    EvictedWellFormed(Without(slots, key), rule);
    FindHas(Spared(slots, rule, key, window), key);
  }

  lemma SparedCount(slots: Slots, rule: Rule, key: string, window: int, k: string, w: int)
    requires WellFormed(slots) && k != key && !Evicts(slots, rule, key, window, k, w)
    ensures CountIn(Spared(slots, rule, key, window), k, w) == CountIn(slots, k, w)
  {
    var rest := Without(slots, key);
    WithoutWellFormed(slots, key);
    FindWithout(slots, key, k);
    if CountIn(slots, key, window) <= 0 {
      if Casualty(rest, rule).Some? && Casualty(rest, rule).value.key == k {
        CasualtyCount(rest, rule, w);
      } else {
        FindAfterEviction(rest, rule, k);
      }
    }
  }

  lemma CountAfterCharge(slots: Slots, rule: Rule, key: string, window: int, k: string, w: int)
    requires WellFormed(slots)
    requires !Evicts(slots, rule, key, window, k, w)
    ensures CountIn(Charged(slots, rule, key, window), k, w) ==
            if k != key then CountIn(slots, k, w)
            else if w == window then CountIn(slots, k, w) + 1 else 0
  {
    ChargedIs(slots, rule, key, window);
    FindAppend(Spared(slots, rule, key, window), [Entry(key, Slot(window, CountIn(slots, key, window) + 1))], k);
    if k != key {
      SparedCount(slots, rule, key, window, k, w);
    }
  }

  /** Whether charging `key` evicts the entry of `k` in window `w`. */
  ghost predicate Evicts(slots: Slots, rule: Rule, key: string, window: int, k: string, w: int) {
    && CountIn(slots, key, window) <= 0
    && Casualty(Without(slots, key), rule).Some?
    && Casualty(Without(slots, key), rule).value.key == k
    && Casualty(Without(slots, key), rule).value.value.windowStart == w
  }

  lemma {:induction false} FindReplaced(slots: Slots, key: string, slot: Slot, k: string)
    ensures Find(Replaced(slots, key, slot), k) ==
            if k == key && Find(slots, k).Some? then Some(slot) else Find(slots, k)
  {
    if slots != [] {
      FindReplaced(slots[1..], key, slot, k);
    }
  }

  /** A release gives back one charge of its own key and window, and touches nothing else. */
  lemma CountAfterRelease(slots: Slots, key: string, window: int, k: string, w: int)
    requires WellFormed(slots)
    ensures CountIn(Released(slots, key, window), k, w) ==
            if k == key && w == window && CountIn(slots, k, w) > 0 then CountIn(slots, k, w) - 1
            else CountIn(slots, k, w)
  {
    CountPositive(slots, key, window);
    FindWithout(slots, key, k);
    FindReplaced(slots, key, Slot(window, CountIn(slots, key, window) - 1), k);
  }

  lemma {:induction false} CountAfterSweep(slots: Slots, windowMs: int, now: int, k: string, w: int)
    requires WellFormed(slots) && w + windowMs > now
    ensures CountIn(Unelapsed(slots, windowMs, now), k, w) == CountIn(slots, k, w)
  {
    if slots != [] {
      CountAfterSweep(slots[1..], windowMs, now, k, w);
      FindAppend(if slots[0].value.windowStart + windowMs > now then [slots[0]] else [],
                 Unelapsed(slots[1..], windowMs, now), k);
      if slots[0].key == k && slots[0].value.windowStart != w {
        assert !Has(slots[1..], k);
        FindHas(slots[1..], k);
        FindHas(Unelapsed(slots[1..], windowMs, now), k);
        UnelapsedKeys(slots[1..], k, windowMs, now);
      }
    }
  }

  // ---------------------------------------------------------------------------------------------
  // Every reachable map
  // ---------------------------------------------------------------------------------------------

  lemma {:induction false} RunWellFormed(rule: Rule, h: seq<Op>)
    requires rule.Valid()
    ensures WellFormed(Run(rule, h))
  {
    if h != [] {
      var slots := Run(rule, h[..|h| - 1]);
      RunWellFormed(rule, h[..|h| - 1]);
      match h[|h| - 1]
      case Check(key, now) => ChargedWellFormed(slots, rule, key, WindowStart(rule, now));
      case Release(key, window) => ReleasedWellFormed(slots, key, window);
      case Sweep(now) => UnelapsedWellFormed(slots, rule.WindowMs(), now);
    }
  }

  /** No operation of the history evicted the entry of `key` in `window`. */
  ghost predicate Undisturbed(rule: Rule, h: seq<Op>, key: string, window: int)
    requires rule.Valid()
  {
    h == [] ||
    (Undisturbed(rule, h[..|h| - 1], key, window) &&
     (h[|h| - 1].Check? ==>
        !Evicts(Run(rule, h[..|h| - 1]), rule, h[|h| - 1].key, WindowStart(rule, h[|h| - 1].now), key, window)))
  }

  /** Nothing is charged to a window the clock has not reached. */
  lemma {:induction false} NothingInTheFuture(rule: Rule, h: seq<Op>, key: string, window: int, now: int)
    requires rule.Valid() && Timed(h, now) && window > WindowStart(rule, now)
    ensures CountIn(Run(rule, h), key, window) == 0 && Tally(rule, h, key, window) == 0
  {
    if h != [] {
      var before, last := h[..|h| - 1], h[|h| - 1];
      var slots := Run(rule, before);
      RunWellFormed(rule, before);
      match last
      case Check(k, t) =>
        WindowMonotone(rule, t, now);
        NothingInTheFuture(rule, before, key, window, t);
        FutureCharge(slots, rule, k, WindowStart(rule, t), key, window);
      case Release(k, w) =>
        NothingInTheFuture(rule, before, key, window, now);
        CountAfterRelease(slots, k, w, key, window);
      case Sweep(t) =>
        WindowMonotone(rule, t, now);
        WindowHolds(rule, t);
        NothingInTheFuture(rule, before, key, window, t);
        CountAfterSweep(slots, rule.WindowMs(), t, key, window);
    }
  }

  lemma FutureCharge(slots: Slots, rule: Rule, key: string, window: int, k: string, w: int)
    requires WellFormed(slots) && CountIn(slots, k, w) == 0 && w != window
    ensures CountIn(Charged(slots, rule, key, window), k, w) == 0
  {
    if Evicts(slots, rule, key, window, k, w) {
      var rest := Without(slots, key);
      WithoutWellFormed(slots, key);
      VictimFound(rest, rule, 0);
      FindAt(rest, Victim(rest, rule, 0));
      FindWithout(slots, key, k);
      assert false;
    }
    CountAfterCharge(slots, rule, key, window, k, w);
  }

  /**
   THE COUNT IS THE TALLY. For a key whose entry was not evicted in its window, the bounded, lazily
   dropped, swept and re-ordered store holds exactly what an unbounded counter would.
   */
  lemma {:induction false} CountIsTally(rule: Rule, h: seq<Op>, key: string, window: int, now: int)
    requires rule.Valid() && Timed(h, now) && window >= WindowStart(rule, now)
    requires Undisturbed(rule, h, key, window)
    ensures CountIn(Run(rule, h), key, window) == Tally(rule, h, key, window)
  {
    if h != [] {
      var before, last := h[..|h| - 1], h[|h| - 1];
      var slots := Run(rule, before);
      RunWellFormed(rule, before);
      match last
      case Check(k, t) =>
        WindowMonotone(rule, t, now);
        CountIsTally(rule, before, key, window, t);
        CountAfterCharge(slots, rule, k, WindowStart(rule, t), key, window);
        if k == key && window > WindowStart(rule, t) {
          NothingInTheFuture(rule, before, key, window, t);
        }
      case Release(k, w) =>
        CountIsTally(rule, before, key, window, now);
        CountAfterRelease(slots, k, w, key, window);
      case Sweep(t) =>
        WindowMonotone(rule, t, now);
        WindowHolds(rule, t);
        CountIsTally(rule, before, key, window, t);
        CountAfterSweep(slots, rule.WindowMs(), t, key, window);
    }
  }

  /** The answer to the next check is the unbounded counter's answer. */
  lemma VerdictIsTheUnboundedOne(rule: Rule, h: seq<Op>, key: string, now: int)
    requires rule.Valid() && Timed(h, now) && Undisturbed(rule, h, key, WindowStart(rule, now))
    ensures var attempt := Tally(rule, h, key, WindowStart(rule, now)) + 1;
            VerdictOf(CountIn(Run(rule, h), key, WindowStart(rule, now)) + 1, rule, now) ==
            if attempt > rule.limit then Refused(RetryAfter(rule, now)) else Admitted(WindowStart(rule, now))
  {
    CountIsTally(rule, h, key, WindowStart(rule, now), now);
  }

  /** How many attempts each bucket lets through, and for how many seconds it counts them. */
  lemma BucketRefuses(bucket: Bucket, h: seq<Op>, key: string, now: int)
    requires Timed(h, now) && Undisturbed(RuleOf(bucket), h, key, WindowStart(RuleOf(bucket), now))
    ensures var window := WindowStart(RuleOf(bucket), now);
            var limit := match bucket case SignInPerIp => 10 case SignInPerEmail => 5 case SignUpPerIp => 3
                                      case OtherPerIp => 60;
            var seconds := match bucket case SignInPerIp => 300 case SignInPerEmail => 900 case SignUpPerIp => 3600
                                        case OtherPerIp => 60;
            && (VerdictOf(CountIn(Run(RuleOf(bucket), h), key, window) + 1, RuleOf(bucket), now).Refused? <==>
                Tally(RuleOf(bucket), h, key, window) >= limit)
            && window <= now < window + 1000 * seconds
            && WindowStart(RuleOf(bucket), window + 1000 * seconds) == window + 1000 * seconds
  {
    VerdictIsTheUnboundedOne(RuleOf(bucket), h, key, now);
    WindowHolds(RuleOf(bucket), now);
    NextWindow(RuleOf(bucket), now);
  }

  // ---------------------------------------------------------------------------------------------
  // Below the cap nothing is evicted
  // ---------------------------------------------------------------------------------------------

  function CheckedKeys(h: seq<Op>): set<string> {
    if h == [] then {}
    else CheckedKeys(h[..|h| - 1]) + if h[|h| - 1].Check? then {h[|h| - 1].key} else {}
  }

  lemma {:induction false} KeysReplaced(slots: Slots, key: string, slot: Slot)
    ensures Keys(Replaced(slots, key, slot)) == Keys(slots)
  {
    if slots != [] {
      KeysReplaced(slots[1..], key, slot);
    }
  }

  lemma {:induction false} KeysUnelapsed(slots: Slots, windowMs: int, now: int)
    ensures Keys(Unelapsed(slots, windowMs, now)) <= Keys(slots)
  {
    if slots != [] {
      KeysUnelapsed(slots[1..], windowMs, now);
      KeysAppend(if slots[0].value.windowStart + windowMs > now then [slots[0]] else [],
                 Unelapsed(slots[1..], windowMs, now));
    }
  }

  lemma KeysCharged(slots: Slots, rule: Rule, key: string, window: int)
    ensures Keys(Charged(slots, rule, key, window)) <= Keys(slots) + {key}
  {
    var rest := Without(slots, key);
    KeysWithout(slots, key);
    if Casualty(rest, rule).Some? {
      KeysWithout(rest, Casualty(rest, rule).value.key);
    }
    KeysAppend(rest, [Entry(key, Slot(window, CountIn(slots, key, window) + 1))]);
    KeysAppend(Evicted(rest, rule), [Entry(key, Slot(window, 1))]);
  }

  lemma {:induction false} HeldKeysWereChecked(rule: Rule, h: seq<Op>)
    requires rule.Valid()
    ensures Keys(Run(rule, h)) <= CheckedKeys(h)
  {
    if h != [] {
      var slots := Run(rule, h[..|h| - 1]);
      HeldKeysWereChecked(rule, h[..|h| - 1]);
      match h[|h| - 1]
      case Check(key, now) => KeysCharged(slots, rule, key, WindowStart(rule, now));
      case Release(key, window) =>
        KeysWithout(slots, key);
        KeysReplaced(slots, key, Slot(window, CountIn(slots, key, window) - 1));
      case Sweep(now) => KeysUnelapsed(slots, rule.WindowMs(), now);
    }
  }

  lemma {:induction false} SubsetSize<T>(a: set<T>, b: set<T>)
    requires a <= b
    ensures |a| <= |b|
  {
    if a != {} {
      var x :| x in a;
      SubsetSize(a - {x}, b - {x});
    }
  }

  /** At every check the map holds the key or has room for it. */
  ghost predicate Room(rule: Rule, h: seq<Op>)
    requires rule.Valid()
  {
    h == [] ||
    (Room(rule, h[..|h| - 1]) &&
     (h[|h| - 1].Check? ==>
        Has(Run(rule, h[..|h| - 1]), h[|h| - 1].key) || |Run(rule, h[..|h| - 1])| < 10_000))
  }

  /** A check of a well-formed map evicts somebody's entry iff the key is not held and the map is full. */
  lemma CheckEvictsIffFull(slots: Slots, rule: Rule, key: string, window: int)
    requires WellFormed(slots)
    ensures (exists k, w :: Evicts(slots, rule, key, window, k, w)) <==>
            !Has(slots, key) && |slots| == MAX_PRINCIPALS
  {
    WithoutWellFormed(slots, key);
    CountPositive(slots, key, window);
    FindHas(slots, key);
    var rest := Without(slots, key);
    if !Has(slots, key) && |slots| == MAX_PRINCIPALS {
      VictimFound(rest, rule, 0);
      var e := rest[Victim(rest, rule, 0)];
      assert Casualty(rest, rule) == Some(e);
      FindAt(rest, Victim(rest, rule, 0));
      assert Evicts(slots, rule, key, window, e.key, e.value.windowStart);
    }
  }

  /** The operation evicts somebody's entry. */
  ghost predicate Evicting(rule: Rule, h: seq<Op>, op: Op)
    requires rule.Valid()
  {
    op.Check? && exists k, w :: Evicts(Run(rule, h), rule, op.key, WindowStart(rule, op.now), k, w)
  }

  ghost predicate NothingEvicted(rule: Rule, h: seq<Op>)
    requires rule.Valid()
  {
    forall key, window :: Undisturbed(rule, h, key, window)
  }

  lemma NothingEvictedStep(rule: Rule, h: seq<Op>)
    requires rule.Valid() && h != []
    ensures NothingEvicted(rule, h) <==>
            NothingEvicted(rule, h[..|h| - 1]) && !Evicting(rule, h[..|h| - 1], h[|h| - 1])
  {
    var before, last := h[..|h| - 1], h[|h| - 1];
    if NothingEvicted(rule, h) {
      forall key, window ensures Undisturbed(rule, before, key, window) {
        assert Undisturbed(rule, h, key, window);
      }
      if last.Check? {
        forall k, w ensures !Evicts(Run(rule, before), rule, last.key, WindowStart(rule, last.now), k, w) {
          assert Undisturbed(rule, h, k, w);
        }
      }
    }
    if NothingEvicted(rule, before) && !Evicting(rule, before, last) {
      forall key, window ensures Undisturbed(rule, h, key, window) {
        assert Undisturbed(rule, before, key, window);
      }
    }
  }

  /** NOTHING IS EVER EVICTED, of any key in any window, exactly when every check finds room. */
  lemma {:induction false} NothingEvictedIffRoom(rule: Rule, h: seq<Op>)
    requires rule.Valid()
    ensures NothingEvicted(rule, h) <==> Room(rule, h)
  {
    if h != [] {
      var before, last := h[..|h| - 1], h[|h| - 1];
      NothingEvictedIffRoom(rule, before);
      NothingEvictedStep(rule, h);
      RunWellFormed(rule, before);
      if last.Check? {
        CheckEvictsIffFull(Run(rule, before), rule, last.key, WindowStart(rule, last.now));
        assert Evicting(rule, before, last) <==>
               !Has(Run(rule, before), last.key) && |Run(rule, before)| == MAX_PRINCIPALS;
      }
    }
  }

  /** So a process that never checked more than ten thousand distinct keys never evicts. */
  lemma {:induction false} BelowTheCap(rule: Rule, h: seq<Op>)
    requires rule.Valid() && |CheckedKeys(h)| <= 10_000
    ensures Room(rule, h)
  {
    if h != [] {
      var before, last := h[..|h| - 1], h[|h| - 1];
      SubsetSize(CheckedKeys(before), CheckedKeys(h));
      BelowTheCap(rule, before);
      if last.Check? && !Has(Run(rule, before), last.key) {
        RunWellFormed(rule, before);
        HeldKeysWereChecked(rule, before);
        KeysSize(Run(rule, before));
        KeysHas(Run(rule, before), last.key);
        SubsetSize(Keys(Run(rule, before)), CheckedKeys(h) - {last.key});
      }
    }
  }

  // ---------------------------------------------------------------------------------------------
  // Refunds
  // ---------------------------------------------------------------------------------------------

  /** Every release gives back a charge that is still there. */
  ghost predicate Refundable(rule: Rule, h: seq<Op>)
    requires rule.Valid()
  {
    h == [] ||
    (Refundable(rule, h[..|h| - 1]) &&
     (h[|h| - 1].Release? ==> Tally(rule, h[..|h| - 1], h[|h| - 1].key, h[|h| - 1].window) > 0))
  }

  lemma {:induction false} TallyIsAttemptsMinusReleases(rule: Rule, h: seq<Op>, key: string, window: int)
    requires rule.Valid()
    ensures Tally(rule, h, key, window) >= AttemptCount(rule, h, key, window) - ReleaseCount(h, key, window)
    ensures Refundable(rule, h) ==>
              Tally(rule, h, key, window) == AttemptCount(rule, h, key, window) - ReleaseCount(h, key, window)
  {
    if h != [] {
      TallyIsAttemptsMinusReleases(rule, h[..|h| - 1], key, window);
    }
  }

  lemma {:induction false} AdmittedAreAttempts(rule: Rule, h: seq<Op>, key: string, window: int)
    requires rule.Valid()
    ensures AdmittedCount(rule, h, key, window) <= AttemptCount(rule, h, key, window)
  {
    if h != [] {
      AdmittedAreAttempts(rule, h[..|h| - 1], key, window);
    }
  }

  /** The requests let through in a window and not refunded never exceed the limit. */
  lemma {:induction false} OutstandingWithinLimit(rule: Rule, h: seq<Op>, key: string, window: int, now: int)
    requires rule.Valid() && Timed(h, now) && Undisturbed(rule, h, key, window)
    ensures AdmittedCount(rule, h, key, window) - ReleaseCount(h, key, window) <= rule.limit
  {
    if h != [] {
      var before, last := h[..|h| - 1], h[|h| - 1];
      match last
      case Check(k, t) =>
        OutstandingWithinLimit(rule, before, key, window, t);
        if Attempts(rule, last, key, window) {
          CountIsTally(rule, before, key, window, t);
          TallyIsAttemptsMinusReleases(rule, before, key, window);
          AdmittedAreAttempts(rule, before, key, window);
        }
      case Release(_, _) => OutstandingWithinLimit(rule, before, key, window, now);
      case Sweep(t) => OutstandingWithinLimit(rule, before, key, window, t);
    }
  }

  // ---------------------------------------------------------------------------------------------
  // Map order is last-check order
  // ---------------------------------------------------------------------------------------------

  function LastCheck(h: seq<Op>, key: string): (at: int)
    ensures -1 <= at < |h|
  {
    if h == [] then -1
    else if h[|h| - 1].Check? && h[|h| - 1].key == key then |h| - 1
    else LastCheck(h[..|h| - 1], key)
  }

  ghost predicate InCheckOrder(slots: Slots, h: seq<Op>) {
    forall i, j :: 0 <= i < j < |slots| ==> LastCheck(h, slots[i].key) < LastCheck(h, slots[j].key)
  }

  lemma WithoutCheckOrder(slots: Slots, h: seq<Op>, key: string)
    requires WellFormed(slots) && InCheckOrder(slots, h)
    ensures InCheckOrder(Without(slots, key), h)
  {
    var cut, skip := WithoutSplit(slots, key);
  }

  lemma {:induction false} UnelapsedCheckOrder(slots: Slots, h: seq<Op>, windowMs: int, now: int)
    requires InCheckOrder(slots, h)
    ensures InCheckOrder(Unelapsed(slots, windowMs, now), h)
  {
    if slots != [] {
      var rest := Unelapsed(slots[1..], windowMs, now);
      UnelapsedCheckOrder(slots[1..], h, windowMs, now);
      forall i | 0 <= i < |rest| ensures LastCheck(h, slots[0].key) < LastCheck(h, rest[i].key) {
        UnelapsedMember(slots[1..], rest[i], windowMs, now);
        var j :| 0 <= j < |slots[1..]| && slots[1..][j] == rest[i];
      }
    }
  }

  lemma AppendCheckOrder(rest: Slots, before: seq<Op>, op: Op, slot: Slot)
    requires op.Check? && !Has(rest, op.key) && InCheckOrder(rest, before)
    ensures InCheckOrder(rest + [Entry(op.key, slot)], before + [op])
  {
    var h := before + [op];
    assert h[..|h| - 1] == before;
    forall i | 0 <= i < |rest| ensures LastCheck(h, rest[i].key) == LastCheck(before, rest[i].key) {
      assert rest[i].key != op.key;
    }
  }

  lemma SameCheckOrder(slots: Slots, before: seq<Op>, op: Op)
    requires !op.Check? && InCheckOrder(slots, before)
    ensures InCheckOrder(slots, before + [op])
  {
    var h := before + [op];
    assert h[..|h| - 1] == before;
    forall i | 0 <= i < |slots| ensures LastCheck(h, slots[i].key) == LastCheck(before, slots[i].key) {
    }
  }

  lemma StepCheckOrder(rule: Rule, slots: Slots, before: seq<Op>, op: Op)
    requires rule.Valid() && WellFormed(slots) && InCheckOrder(slots, before)
    ensures InCheckOrder(Step(rule, slots, op), before + [op])
  {
    match op
    case Check(key, now) =>
      var rest := Without(slots, key);
      WithoutWellFormed(slots, key);
      WithoutCheckOrder(slots, before, key);
      EvictedWellFormed(rest, rule);
      if Casualty(rest, rule).Some? {
        WithoutCheckOrder(rest, before, Casualty(rest, rule).value.key);
      }
      AppendCheckOrder(rest, before, op, Slot(WindowStart(rule, now), CountIn(slots, key, WindowStart(rule, now)) + 1));
      AppendCheckOrder(Evicted(rest, rule), before, op, Slot(WindowStart(rule, now), 1));
    case Release(key, window) =>
      WithoutCheckOrder(slots, before, key);
      ReplacedKeys(slots, key, Slot(window, CountIn(slots, key, window) - 1));
      SameCheckOrder(Released(slots, key, window), before, op);
    case Sweep(now) =>
      UnelapsedCheckOrder(slots, before, rule.WindowMs(), now);
      SameCheckOrder(Unelapsed(slots, rule.WindowMs(), now), before, op);
  }

  /** After any history the map is in last-check order and holds at most ten thousand keys. */
  lemma {:induction false} OrderIsLastCheck(rule: Rule, h: seq<Op>)
    requires rule.Valid()
    ensures InCheckOrder(Run(rule, h), h) && |Run(rule, h)| <= 10_000
  {
    RunWellFormed(rule, h);
    if h != [] {
      OrderIsLastCheck(rule, h[..|h| - 1]);
      RunWellFormed(rule, h[..|h| - 1]);
      assert h == h[..|h| - 1] + [h[|h| - 1]];
      StepCheckOrder(rule, Run(rule, h[..|h| - 1]), h[..|h| - 1], h[|h| - 1]);
    }
  }

  /**
   WHO IS EVICTED. Only at the cap; an entry at its limit only when every entry is at or over its
   own; and always the least recently checked of those that may go.
   */
  lemma VictimIsLeastRecent(rule: Rule, h: seq<Op>, key: string)
    requires rule.Valid()
    ensures var rest := Without(Run(rule, h), key);
            match Casualty(rest, rule)
            case None => |rest| < 10_000
            case Some(e) =>
              && e in rest && |rest| == 10_000
              && (e.value.count >= rule.limit ==> forall x :: x in rest ==> x.value.count >= rule.limit)
              && (forall x :: x in rest && (e.value.count >= rule.limit || x.value.count < rule.limit) ==>
                    LastCheck(h, e.key) <= LastCheck(h, x.key))
  {
    var slots := Run(rule, h);
    var rest := Without(slots, key);
    RunWellFormed(rule, h);
    OrderIsLastCheck(rule, h);
    WithoutWellFormed(slots, key);
    WithoutCheckOrder(slots, h, key);
    CasualtyOfFull(rest, rule, h);
  }

  lemma CasualtyOfFull(rest: Slots, rule: Rule, h: seq<Op>)
    requires WellFormed(rest) && InCheckOrder(rest, h)
    ensures match Casualty(rest, rule)
            case None => |rest| < MAX_PRINCIPALS
            case Some(e) =>
              && e in rest && |rest| == MAX_PRINCIPALS
              && (e.value.count >= rule.limit ==> forall x :: x in rest ==> x.value.count >= rule.limit)
              && (forall x :: x in rest && (e.value.count >= rule.limit || x.value.count < rule.limit) ==>
                    LastCheck(h, e.key) <= LastCheck(h, x.key))
  {
    VictimFound(rest, rule, 0);
    if Casualty(rest, rule).Some? {
      var v := Victim(rest, rule, 0);
      forall x | x in rest && (rest[v].value.count >= rule.limit || x.value.count < rule.limit)
        ensures LastCheck(h, rest[v].key) <= LastCheck(h, x.key)
      {
        var i :| 0 <= i < |rest| && rest[i] == x;
        assert v <= i;
      }
    }
  }

  // ---------------------------------------------------------------------------------------------
  // Successes are never refused
  // ---------------------------------------------------------------------------------------------

  /** The charge of `key` still to be given back, when each is given back before the next check. */
  function Pending(rule: Rule, h: seq<Op>, key: string): Option<int>
    requires rule.Valid()
  {
    if h == [] then None
    else if h[|h| - 1].Check? && h[|h| - 1].key == key then Some(WindowStart(rule, h[|h| - 1].now))
    else if h[|h| - 1].Release? && h[|h| - 1].key == key then None
    else Pending(rule, h[..|h| - 1], key)
  }

  /** A sequential run of successes: a check, then its own release, then the next check. */
  ghost predicate OnlySuccesses(rule: Rule, h: seq<Op>, key: string)
    requires rule.Valid()
  {
    h == [] ||
    (OnlySuccesses(rule, h[..|h| - 1], key) &&
     (h[|h| - 1].Check? && h[|h| - 1].key == key ==> Pending(rule, h[..|h| - 1], key).None?) &&
     (h[|h| - 1].Release? && h[|h| - 1].key == key ==>
        Pending(rule, h[..|h| - 1], key) == Some(h[|h| - 1].window)))
  }

  lemma {:induction false} SuccessesOweNothing(rule: Rule, h: seq<Op>, key: string)
    requires rule.Valid() && OnlySuccesses(rule, h, key)
    ensures match Pending(rule, h, key)
            case None => Find(Run(rule, h), key).None?
            case Some(w) => Find(Run(rule, h), key) in {None, Some(Slot(w, 1))}
  {
    if h != [] {
      var before, last := h[..|h| - 1], h[|h| - 1];
      var slots := Run(rule, before);
      SuccessesOweNothing(rule, before, key);
      RunWellFormed(rule, before);
      match last
      case Check(k, t) => FindAfterCharge(slots, rule, k, WindowStart(rule, t), key);
      case Release(k, w) =>
        FindWithout(slots, k, key);
        FindReplaced(slots, k, Slot(w, CountIn(slots, k, w) - 1), key);
      case Sweep(t) => FindAfterSweep(slots, rule.WindowMs(), t, key);
    }
  }

  lemma FindAfterCharge(slots: Slots, rule: Rule, key: string, window: int, k: string)
    requires WellFormed(slots) && (k == key ==> Find(slots, key).None?)
    ensures var r := Find(Charged(slots, rule, key, window), k);
            if k == key then r == Some(Slot(window, 1)) else r in {None, Find(slots, k)}
  {
    var rest := Without(slots, key);
    FindWithout(slots, key, k);
    if Casualty(rest, rule).Some? {
      FindWithout(rest, Casualty(rest, rule).value.key, k);
    }
    FindAppend(rest, [Entry(key, Slot(window, CountIn(slots, key, window) + 1))], k);
    FindAppend(Evicted(rest, rule), [Entry(key, Slot(window, 1))], k);
  }

  lemma {:induction false} FindAfterSweep(slots: Slots, windowMs: int, now: int, k: string)
    requires WellFormed(slots)
    ensures Find(Unelapsed(slots, windowMs, now), k) in {None, Find(slots, k)}
  {
    if slots != [] {
      FindAfterSweep(slots[1..], windowMs, now, k);
      FindAppend(if slots[0].value.windowStart + windowMs > now then [slots[0]] else [],
                 Unelapsed(slots[1..], windowMs, now), k);
      if slots[0].key == k {
        assert !Has(slots[1..], k);
        FindHas(slots[1..], k);
      }
    }
  }

  /** However other keys interleave, a key that only succeeds is admitted every time. */
  lemma SuccessNeverRefused(rule: Rule, h: seq<Op>, key: string, now: int)
    requires rule.Valid() && OnlySuccesses(rule, h + [Check(key, now)], key)
    ensures VerdictOf(CountIn(Run(rule, h), key, WindowStart(rule, now)) + 1, rule, now).Admitted?
  {
    assert (h + [Check(key, now)])[..|h|] == h;
    SuccessesOweNothing(rule, h, key);
  }
}
