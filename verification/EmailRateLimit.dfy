/** The hook pair around an email sign-in. */
module EmailRateLimit {
  /*
   The before hook charges the `SignInPerEmail` bucket and hands its charge to the after hook of the same
   request, which gives it back on success. A key is the hash of a normalised address; the hash itself is
   not modelled.
   */

  import opened Options
  import opened OrderedMaps
  import opened RateLimiter
  import opened RateLimiterHistory

  const RULE := RuleOf(SignInPerEmail)

  /** What one hook call leaves in the bucket and in the hand-over, and whether it refused. */
  datatype Outcome = Outcome(slots: Slots, pending: map<nat, int>, refusal: Option<int>)

  function BeforeOutcome(slots: Slots, pending: map<nat, int>, key: string, scope: Option<nat>, now: int): Outcome {
    var window := WindowStart(RULE, now);
    var charged := Charged(slots, RULE, key, window);
    match VerdictOf(CountIn(slots, key, window) + 1, RULE, now)
    case Refused(retry) => Outcome(charged, pending, Some(retry))
    case Admitted(w) => Outcome(charged, if scope.Some? then pending[scope.value := w] else pending, None)
  }

  function AfterOutcome(
      slots: Slots, pending: map<nat, int>, key: string, scope: Option<nat>, succeeded: bool): Outcome
  {
    match scope
    case None => Outcome(slots, pending, None)
    case Some(s) =>
      var released := if succeeded && s in pending then Released(slots, key, pending[s]) else slots;
      Outcome(released, pending - {s}, None)
  }

  class EmailRateLimitHooks {
    /** `null` until the port is bound. */
    var port: LocalAuthRateLimiter?
    /** The charge of each request in flight, keyed by the request's own scope object. */
    var pendingCharges: map<nat, int>

    constructor (port: LocalAuthRateLimiter?)
      ensures this.port == port && pendingCharges == map[]
    {
      this.port := port;
      pendingCharges := map[];
    }

    /** `key` is `None` for an address that is not a non-empty string: nothing is charged. */
    method Before(onSignIn: bool, key: Option<string>, scope: Option<nat>, now: int)
        returns (refusal: Option<int>)
      requires port != null ==> port.Valid()
      modifies this`pendingCharges, port
      ensures port != null ==> port.Valid()
      ensures port != null ==> forall b :: b != SignInPerEmail ==> port.Entries(b) == old(port.Entries(b))
      ensures onSignIn && key.Some? && port != null ==>
                Outcome(port.Entries(SignInPerEmail), pendingCharges, refusal) ==
                BeforeOutcome(old(port.Entries(SignInPerEmail)), old(pendingCharges), key.value, scope, now)
      ensures !onSignIn || key.None? || port == null ==> refusal == None && pendingCharges == old(pendingCharges)
      ensures (!onSignIn || key.None?) && port != null ==> port.buckets == old(port.buckets)
      ensures refusal.Some? || scope.None? ==> pendingCharges == old(pendingCharges)
      ensures scope.Some? ==> pendingCharges - {scope.value} == old(pendingCharges) - {scope.value}
    {
      if !onSignIn || key.None? || port == null {
        return None;
      }
      var verdict := port.Check(SignInPerEmail, key.value, now);
      match verdict
      case Refused(retry) =>
        return Some(retry);
      case Admitted(window) =>
        if scope.Some? {
          pendingCharges := pendingCharges[scope.value := window];
        }
        return None;
    }

    method After(onSignIn: bool, key: Option<string>, scope: Option<nat>, succeeded: bool)
      requires port != null ==> port.Valid()
      modifies this`pendingCharges, port
      ensures port != null ==> port.Valid()
      ensures port != null ==> forall b :: b != SignInPerEmail ==> port.Entries(b) == old(port.Entries(b))
      ensures onSignIn && key.Some? && port != null ==>
                Outcome(port.Entries(SignInPerEmail), pendingCharges, None) ==
                AfterOutcome(old(port.Entries(SignInPerEmail)), old(pendingCharges), key.value, scope, succeeded)
      ensures pendingCharges == old(pendingCharges)
                - (if onSignIn && key.Some? && scope.Some? then {scope.value} else {})
      ensures (!onSignIn || key.None? || scope.None? || !succeeded) && port != null ==>
                port.Entries(SignInPerEmail) == old(port.Entries(SignInPerEmail))
    {
      if !onSignIn || key.None? {
        return;
      }
      var charge := if scope.Some? && scope.value in pendingCharges then Some(pendingCharges[scope.value]) else None;
      if scope.Some? {
        pendingCharges := pendingCharges - {scope.value};
      }
      if !succeeded || charge.None? || port == null {
        return;
      }
      port.Release(SignInPerEmail, key.value, charge.value);
    }
  }

  // ---------------------------------------------------------------------------------------------
  // Any interleaving of requests
  // ---------------------------------------------------------------------------------------------

  /** `scope` names a request; `requests[scope]` is the key its body carries to both hooks. */
  datatype HookEvent =
    | Before(scope: nat, now: int)
    | After(scope: nat, succeeded: bool)
    | Sweep(now: int)

  /** The bucket and the hand-over as the hooks leave them, and what they asked of the limiter. */
  datatype Ledger = Ledger(slots: Slots, pending: map<nat, int>, ops: seq<Op>)

  function KeyOf(requests: seq<Option<string>>, scope: nat): Option<string> {
    if scope < |requests| then requests[scope] else None
  }

  function Next(requests: seq<Option<string>>, l: Ledger, e: HookEvent): Ledger {
    match e
    case Sweep(now) => Ledger(Unelapsed(l.slots, RULE.WindowMs(), now), l.pending, l.ops + [Op.Sweep(now)])
    case Before(scope, now) =>
      (match KeyOf(requests, scope)
       case None => l
       case Some(key) =>
         var outcome := BeforeOutcome(l.slots, l.pending, key, Some(scope), now);
         Ledger(outcome.slots, outcome.pending, l.ops + [Check(key, now)]))
    case After(scope, succeeded) =>
      match KeyOf(requests, scope)
      case None => l
      case Some(key) =>
        var outcome := AfterOutcome(l.slots, l.pending, key, Some(scope), succeeded);
        Ledger(outcome.slots, outcome.pending,
               if succeeded && scope in l.pending then l.ops + [Release(key, l.pending[scope])] else l.ops)
  }

  function Reached(requests: seq<Option<string>>, es: seq<HookEvent>): Ledger {
    if es == [] then Ledger([], map[], []) else Next(requests, Reached(requests, es[..|es| - 1]), es[|es| - 1])
  }

  /** The bucket the hooks leave is the limiter's after the operations they asked of it. */
  lemma {:induction false} SlotsAreTheLimiters(requests: seq<Option<string>>, es: seq<HookEvent>)
    ensures Reached(requests, es).slots == Run(RULE, Reached(requests, es).ops)
  {
    if es != [] {
      var l := Reached(requests, es[..|es| - 1]);
      SlotsAreTheLimiters(requests, es[..|es| - 1]);
      NextRuns(requests, l, es[|es| - 1]);
    }
  }

  lemma OutcomeSlots(slots: Slots, pending: map<nat, int>, key: string, scope: nat, now: int, succeeded: bool)
    ensures BeforeOutcome(slots, pending, key, Some(scope), now).slots == Step(RULE, slots, Check(key, now))
    ensures AfterOutcome(slots, pending, key, Some(scope), succeeded).slots ==
            (if succeeded && scope in pending then Step(RULE, slots, Release(key, pending[scope])) else slots)
  {
  }

  lemma NextRuns(requests: seq<Option<string>>, l: Ledger, e: HookEvent)
    requires l.slots == Run(RULE, l.ops)
    ensures Next(requests, l, e).slots == Run(RULE, Next(requests, l, e).ops)
  {
    match e
    case Sweep(now) => RunSnoc(l.ops, Op.Sweep(now));
    case Before(scope, now) =>
      if KeyOf(requests, scope).Some? {
        var key := KeyOf(requests, scope).value;
        OutcomeSlots(l.slots, l.pending, key, scope, now, false);
        RunSnoc(l.ops, Check(key, now));
      }
    case After(scope, succeeded) =>
      if KeyOf(requests, scope).Some? {
        var key := KeyOf(requests, scope).value;
        OutcomeSlots(l.slots, l.pending, key, scope, 0, succeeded);
        if succeeded && scope in l.pending {
          RunSnoc(l.ops, Release(key, l.pending[scope]));
        }
      }
  }

  lemma RunSnoc(ops: seq<Op>, op: Op)
    ensures Run(RULE, ops + [op]) == Step(RULE, Run(RULE, ops), op)
  {
    assert (ops + [op])[..|ops|] == ops;
  }

  /** The requests in flight holding a charge of `key` in `window`. */
  function InFlight(requests: seq<Option<string>>, l: Ledger, key: string, window: int): set<nat> {
    set s | s in l.pending && KeyOf(requests, s) == Some(key) && l.pending[s] == window
  }

  lemma TallyStep(ops: seq<Op>, op: Op, key: string, window: int)
    ensures Tally(RULE, ops + [op], key, window) ==
            if Attempts(RULE, op, key, window) then Tally(RULE, ops, key, window) + 1
            else if op == Release(key, window) && Tally(RULE, ops, key, window) > 0
            then Tally(RULE, ops, key, window) - 1 else Tally(RULE, ops, key, window)
    ensures Refundable(RULE, ops + [op]) <==>
            Refundable(RULE, ops) && (op.Release? ==> Tally(RULE, ops, op.key, op.window) > 0)
  {
    assert (ops + [op])[..|ops|] == ops;
  }

  /** An admission adds at most the request itself to those in flight. */
  lemma BeforeAdds(requests: seq<Option<string>>, l: Ledger, scope: nat, now: int, key: string, window: int)
    requires KeyOf(requests, scope).Some?
    ensures var mine := KeyOf(requests, scope).value == key && WindowStart(RULE, now) == window;
            InFlight(requests, Next(requests, l, Before(scope, now)), key, window) <=
            InFlight(requests, l, key, window) + (if mine then {scope} else {})
  {
    var l' := Next(requests, l, Before(scope, now));
    assert forall s :: s in l'.pending && s != scope ==> s in l.pending && l'.pending[s] == l.pending[s];
  }

  lemma BeforeCovers(requests: seq<Option<string>>, l: Ledger, scope: nat, now: int, key: string, window: int)
    requires |InFlight(requests, l, key, window)| <= Tally(RULE, l.ops, key, window)
    ensures var l' := Next(requests, l, Before(scope, now));
            |InFlight(requests, l', key, window)| <= Tally(RULE, l'.ops, key, window)
  {
    if KeyOf(requests, scope).Some? {
      var k := KeyOf(requests, scope).value;
      var l' := Next(requests, l, Before(scope, now));
      var added := if k == key && WindowStart(RULE, now) == window then {scope} else {};
      BeforeAdds(requests, l, scope, now, key, window);
      SubsetSize(InFlight(requests, l', key, window), InFlight(requests, l, key, window) + added);
      TallyStep(l.ops, Check(k, now), key, window);
    }
  }

  lemma AfterCovers(requests: seq<Option<string>>, l: Ledger, scope: nat, ok: bool, key: string, window: int)
    requires |InFlight(requests, l, key, window)| <= Tally(RULE, l.ops, key, window)
    ensures var l' := Next(requests, l, After(scope, ok));
            |InFlight(requests, l', key, window)| <= Tally(RULE, l'.ops, key, window)
  {
    var l' := Next(requests, l, After(scope, ok));
    if KeyOf(requests, scope).Some? {
      assert InFlight(requests, l', key, window) == InFlight(requests, l, key, window) - {scope};
      if ok && scope in l.pending {
        TallyStep(l.ops, Release(KeyOf(requests, scope).value, l.pending[scope]), key, window);
        if KeyOf(requests, scope) == Some(key) && l.pending[scope] == window {
          assert scope in InFlight(requests, l, key, window);
        }
      }
    }
  }

  /** Every charge in flight is still on the books. */
  lemma {:induction false} ChargesAreCovered(
      requests: seq<Option<string>>, es: seq<HookEvent>, key: string, window: int)
    ensures var l := Reached(requests, es);
            |InFlight(requests, l, key, window)| <= Tally(RULE, l.ops, key, window)
  {
    if es != [] {
      var l, last := Reached(requests, es[..|es| - 1]), es[|es| - 1];
      ChargesAreCovered(requests, es[..|es| - 1], key, window);
      match last
      case Before(scope, now) => BeforeCovers(requests, l, scope, now, key, window);
      case After(scope, ok) => AfterCovers(requests, l, scope, ok, key, window);
      case Sweep(now) =>
        TallyStep(l.ops, Op.Sweep(now), key, window);
        assert InFlight(requests, Next(requests, l, last), key, window) == InFlight(requests, l, key, window);
    }
  }

  /** A refund never finds nothing to give back. */
  lemma {:induction false} RefundsAreCovered(requests: seq<Option<string>>, es: seq<HookEvent>)
    ensures Refundable(RULE, Reached(requests, es).ops)
  {
    if es != [] {
      var l, last := Reached(requests, es[..|es| - 1]), es[|es| - 1];
      RefundsAreCovered(requests, es[..|es| - 1]);
      match last
      case Sweep(now) => TallyStep(l.ops, Op.Sweep(now), "", 0);
      case Before(scope, now) =>
        if KeyOf(requests, scope).Some? {
          TallyStep(l.ops, Check(KeyOf(requests, scope).value, now), "", 0);
        }
      case After(scope, ok) =>
        if KeyOf(requests, scope).Some? && ok && scope in l.pending {
          var key, window := KeyOf(requests, scope).value, l.pending[scope];
          ChargesAreCovered(requests, es[..|es| - 1], key, window);
          assert scope in InFlight(requests, l, key, window);
          TallyStep(l.ops, Release(key, window), key, window);
        }
    }
  }

  /**
   Over any interleaving of hook calls and sweeps, the stored count of a key not evicted in its
   window is exactly its attempts minus its refunds.
   */
  lemma StoredCountIsAttemptsMinusRefunds(
      requests: seq<Option<string>>, es: seq<HookEvent>, key: string, now: int)
    requires Timed(Reached(requests, es).ops, now)
    requires Undisturbed(RULE, Reached(requests, es).ops, key, WindowStart(RULE, now))
    ensures var l, window := Reached(requests, es), WindowStart(RULE, now);
            CountIn(l.slots, key, window) ==
            AttemptCount(RULE, l.ops, key, window) - ReleaseCount(l.ops, key, window)
  {
    var ops, window := Reached(requests, es).ops, WindowStart(RULE, now);
    SlotsAreTheLimiters(requests, es);
    RefundsAreCovered(requests, es);
    TallyIsAttemptsMinusReleases(RULE, ops, key, window);
    CountIsTally(RULE, ops, key, window, now);
  }

  // ---------------------------------------------------------------------------------------------
  // A request gives back at most its own charge, once
  // ---------------------------------------------------------------------------------------------

  /** How often the request was let through in `window`, and how often it gave such a charge back. */
  function AdmittedBy(requests: seq<Option<string>>, es: seq<HookEvent>, scope: nat, window: int): nat {
    if es == [] then 0
    else
      var l, last := Reached(requests, es[..|es| - 1]), es[|es| - 1];
      var admits := last.Before? && last.scope == scope && KeyOf(requests, scope).Some?
        && WindowStart(RULE, last.now) == window
        && BeforeOutcome(l.slots, l.pending, KeyOf(requests, scope).value, Some(scope), last.now).refusal.None?;
      AdmittedBy(requests, es[..|es| - 1], scope, window) + if admits then 1 else 0
  }

  function RefundedBy(requests: seq<Option<string>>, es: seq<HookEvent>, scope: nat, window: int): nat {
    if es == [] then 0
    else
      var l, l' := Reached(requests, es[..|es| - 1]), Reached(requests, es);
      var last := es[|es| - 1];
      var refunds := last.After? && last.scope == scope && KeyOf(requests, scope).Some?
        && l'.ops == l.ops + [Release(KeyOf(requests, scope).value, window)];
      RefundedBy(requests, es[..|es| - 1], scope, window) + if refunds then 1 else 0
  }

  lemma {:induction false} EachChargeOnce(requests: seq<Option<string>>, es: seq<HookEvent>, scope: nat, window: int)
    ensures var l := Reached(requests, es);
            RefundedBy(requests, es, scope, window)
            + (if scope in l.pending && l.pending[scope] == window then 1 else 0)
            <= AdmittedBy(requests, es, scope, window)
  {
    if es != [] {
      var l, last := Reached(requests, es[..|es| - 1]), es[|es| - 1];
      EachChargeOnce(requests, es[..|es| - 1], scope, window);
      if last.After? && last.scope == scope && KeyOf(requests, scope).Some? {
        var l' := Reached(requests, es);
        var key := KeyOf(requests, scope).value;
        if l'.ops == l.ops + [Release(key, window)] {
          assert l'.ops[|l.ops|] == Release(key, window);
        }
      }
    }
  }

  // ---------------------------------------------------------------------------------------------
  // Who is refused
  // ---------------------------------------------------------------------------------------------

  /** What the before hook answers the request after `es`. */
  function AnswerTo(requests: seq<Option<string>>, es: seq<HookEvent>, scope: nat, now: int): Option<int> {
    var l, key := Reached(requests, es), KeyOf(requests, scope);
    if key.None? then None else BeforeOutcome(l.slots, l.pending, key.value, Some(scope), now).refusal
  }

  /**
   REFUSED IFF FIVE STAND. Over any interleaving of hooks and sweeps, a request for an address not
   evicted in its window is refused iff five attempts of the window or more have not been given back.
   The delay it is told is one to 900 seconds, and lands in a later window.
   */
  lemma RefusedIffFiveStand(requests: seq<Option<string>>, es: seq<HookEvent>, scope: nat, now: int)
    requires KeyOf(requests, scope).Some? && Timed(Reached(requests, es).ops, now)
    requires Undisturbed(RULE, Reached(requests, es).ops, KeyOf(requests, scope).value, WindowStart(RULE, now))
    ensures var ops, key, window := Reached(requests, es).ops, KeyOf(requests, scope).value, WindowStart(RULE, now);
            AnswerTo(requests, es, scope, now).Some? <==>
            AttemptCount(RULE, ops, key, window) - ReleaseCount(ops, key, window) >= 5
    ensures var refusal := AnswerTo(requests, es, scope, now);
            refusal.Some? ==>
              && 1 <= refusal.value <= 900
              && WindowStart(RULE, now + refusal.value * MS_PER_SECOND) > WindowStart(RULE, now)
  {
    StoredCountIsAttemptsMinusRefunds(requests, es, KeyOf(requests, scope).value, now);
    RetryLandsLater(RULE, now);
  }

  /** How many requests for the address the hook let through in the window. */
  function LetThrough(requests: seq<Option<string>>, es: seq<HookEvent>, key: string, window: int): nat {
    if es == [] then 0
    else LetThrough(requests, es[..|es| - 1], key, window)
         + if Passes(requests, es[..|es| - 1], es[|es| - 1], key, window) then 1 else 0
  }

  lemma CountsSnoc(ops: seq<Op>, op: Op, key: string, window: int)
    ensures AdmittedCount(RULE, ops + [op], key, window) == AdmittedCount(RULE, ops, key, window)
            + if Attempts(RULE, op, key, window) && CountIn(Run(RULE, ops), key, window) + 1 <= RULE.limit then 1 else 0
    ensures AttemptCount(RULE, ops + [op], key, window) ==
            AttemptCount(RULE, ops, key, window) + if Attempts(RULE, op, key, window) then 1 else 0
    ensures ReleaseCount(ops + [op], key, window) ==
            ReleaseCount(ops, key, window) + if op == Release(key, window) then 1 else 0
  {
    assert (ops + [op])[..|ops|] == ops;
  }

  /** Whether the hook lets a request for the address through in the window, at this event. */
  predicate Passes(requests: seq<Option<string>>, front: seq<HookEvent>, e: HookEvent, key: string, window: int) {
    && e.Before? && KeyOf(requests, e.scope) == Some(key) && WindowStart(RULE, e.now) == window
    && AnswerTo(requests, front, e.scope, e.now).None?
  }

  lemma AnsweredByCount(slots: Slots, pending: map<nat, int>, key: string, scope: Option<nat>, now: int)
    ensures BeforeOutcome(slots, pending, key, scope, now).refusal.None? <==>
            CountIn(slots, key, WindowStart(RULE, now)) + 1 <= RULE.limit
  {
  }

  lemma BeforeAdmits(
      requests: seq<Option<string>>, front: seq<HookEvent>, scope: nat, now: int, key: string, window: int)
    ensures var l := Reached(requests, front);
            AdmittedCount(RULE, Next(requests, l, Before(scope, now)).ops, key, window) ==
            AdmittedCount(RULE, l.ops, key, window)
            + if Passes(requests, front, Before(scope, now), key, window) then 1 else 0
  {
    if KeyOf(requests, scope).Some? {
      var l, k := Reached(requests, front), KeyOf(requests, scope).value;
      SlotsAreTheLimiters(requests, front);
      AnsweredByCount(l.slots, l.pending, k, Some(scope), now);
      CountsSnoc(l.ops, Check(k, now), key, window);
    }
  }

  lemma OthersAdmitNone(requests: seq<Option<string>>, l: Ledger, e: HookEvent, key: string, window: int)
    requires !e.Before?
    ensures AdmittedCount(RULE, Next(requests, l, e).ops, key, window) == AdmittedCount(RULE, l.ops, key, window)
  {
    if e.Sweep? {
      CountsSnoc(l.ops, Op.Sweep(e.now), key, window);
    } else if KeyOf(requests, e.scope).Some? && e.succeeded && e.scope in l.pending {
      CountsSnoc(l.ops, Release(KeyOf(requests, e.scope).value, l.pending[e.scope]), key, window);
    }
  }

  lemma {:induction false} LetThroughAreAdmitted(
      requests: seq<Option<string>>, es: seq<HookEvent>, key: string, window: int)
    ensures LetThrough(requests, es, key, window) == AdmittedCount(RULE, Reached(requests, es).ops, key, window)
  {
    if es != [] {
      LetThroughAreAdmitted(requests, es[..|es| - 1], key, window);
      var last := es[|es| - 1];
      if last.Before? {
        BeforeAdmits(requests, es[..|es| - 1], last.scope, last.now, key, window);
      } else {
        OthersAdmitNone(requests, Reached(requests, es[..|es| - 1]), last, key, window);
      }
    }
  }

  /** So of the requests let through in a window never more than five are not given back. */
  lemma AtMostFiveStand(requests: seq<Option<string>>, es: seq<HookEvent>, key: string, window: int, now: int)
    requires Timed(Reached(requests, es).ops, now) && Undisturbed(RULE, Reached(requests, es).ops, key, window)
    ensures LetThrough(requests, es, key, window) - ReleaseCount(Reached(requests, es).ops, key, window) <= 5
  {
    LetThroughAreAdmitted(requests, es, key, window);
    OutstandingWithinLimit(RULE, Reached(requests, es).ops, key, window, now);
  }

  lemma ReachedTwice(requests: seq<Option<string>>, es: seq<HookEvent>, first: HookEvent, second: HookEvent)
    ensures Reached(requests, es + [first, second]) ==
            Next(requests, Next(requests, Reached(requests, es), first), second)
  {
    var all := es + [first, second];
    assert all[..|all| - 1] == es + [first] && (es + [first])[..|es|] == es;
  }

  /** A sign-in that was let through and succeeds costs its address nothing; one that fails costs one. */
  lemma OnlyFailuresCost(requests: seq<Option<string>>, es: seq<HookEvent>, scope: nat, now: int, succeeded: bool)
    requires KeyOf(requests, scope).Some? && AnswerTo(requests, es, scope, now).None?
    ensures var key, window := KeyOf(requests, scope).value, WindowStart(RULE, now);
            CountIn(Reached(requests, es + [Before(scope, now), After(scope, succeeded)]).slots, key, window) ==
            CountIn(Reached(requests, es).slots, key, window) + if succeeded then 0 else 1
  {
    var key, window := KeyOf(requests, scope).value, WindowStart(RULE, now);
    var l := Reached(requests, es);
    ReachedTwice(requests, es, Before(scope, now), After(scope, succeeded));
    SlotsAreTheLimiters(requests, es);
    RunWellFormed(RULE, l.ops);
    ChargeOfOwn(l.slots, key, window);
    var charged := Next(requests, l, Before(scope, now)).slots;
    ChargedWellFormed(l.slots, RULE, key, window);
    CountAfterRelease(charged, key, window, key, window);
    CountPositive(l.slots, key, window);
  }

  lemma ChargeOfOwn(slots: Slots, key: string, window: int)
    requires WellFormed(slots)
    ensures CountIn(Charged(slots, RULE, key, window), key, window) == CountIn(slots, key, window) + 1
  {
    var rest := Without(slots, key);
    WithoutWellFormed(slots, key);
    FindWithout(slots, key, key);
    if Casualty(rest, RULE).Some? {
      VictimFound(rest, RULE, 0);
      FindAt(rest, Victim(rest, RULE, 0));
    }
    CountAfterCharge(slots, RULE, key, window, key, window);
  }
}
