/**
 The invalidator's loops as steps of the redirect protocol: what `Handle` and `SecondPass` do in one go
 is a run of the protocol's deletions, and in every interleaving the protocol ends a first pass as
 `Handle` does.
 */
module InvalidationRefinement {
  import opened Options
  import opened CacheInvalidation
  import P = RedirectProtocol

  function SlugsOf(keys: seq<Key>): set<P.Slug> {
    set k | k in keys :: k.slug
  }

  ghost predicate OnHost(keys: seq<Key>, host: string) {
    forall k :: k in keys ==> k.hostname == host
  }

  /** The invalidator's cache holds a link key of `host` iff the protocol's holds its slug. */
  ghost predicate Mirrors(cache: set<Key>, s: P.State, host: string) {
    forall slug :: Key(host, slug) in cache <==> slug in s.cache
  }

  /** A pass of `m`, first or second, has `keys` still to try. */
  ghost predicate ToTry(s: P.State, m: nat, keys: seq<Key>, host: string) {
    && s.tables != [] && m in s.mutations
    && (s.mutations[m].phase.Deleting? || s.mutations[m].phase.Sweeping?)
    && s.mutations[m].phase.todo == SlugsOf(keys) <= s.mutations[m].keys
    && NoRepeats(keys) && OnHost(keys, host)
  }

  /** What a pass may do besides its bookkeeping: take entries of its own keys out of the cache. */
  ghost predicate OnlyDeleted(s: P.State, t: P.State, m: nat) {
    && P.OnlyPassed(s, t, m) && t.now >= s.now
    && (forall k :: k in t.cache ==> k in s.cache && t.cache[k] == s.cache[k])
  }

  lemma OnlyDeletedTwice(s: P.State, u: P.State, t: P.State, m: nat)
    requires OnlyDeleted(s, u, m) && OnlyDeleted(u, t, m)
    ensures OnlyDeleted(s, t, m)
  {
    P.OnlyPassedTwice(s, u, t, m);
  }

  lemma ClearedOneByOne(cache: set<Key>, keys: seq<Key>, replies: Replies, round: nat)
    requires keys != []
    ensures Cleared(Cleared(cache, keys[..1], replies, round), keys[1..], replies, round) ==
            Cleared(cache, keys, replies, round)
  {
    assert keys == keys[..1] + keys[1..];
  }

  lemma HeadAndTail(keys: seq<Key>, host: string)
    requires keys != [] && NoRepeats(keys) && OnHost(keys, host)
    ensures keys[0] == Key(host, keys[0].slug)
    ensures NoRepeats(keys[1..]) && OnHost(keys[1..], host)
    ensures SlugsOf(keys) - {keys[0].slug} == SlugsOf(keys[1..]) && keys[0].slug in SlugsOf(keys)
  {
    assert keys[0] in keys;
    forall k | k in keys[1..] ensures k in keys && k.slug != keys[0].slug {
      assert k.hostname == host;
    }
  }

  /** What a round collects, it collects key by key. */
  lemma KeyByKey(keys: seq<Key>, replies: Replies, round: nat)
    requires keys != []
    ensures SlugsOf(keys) == {keys[0].slug} + SlugsOf(keys[1..])
    ensures SlugsOf(Failures(keys, replies, round)) ==
            (if replies(round, keys[0]) == Deleted then {} else {keys[0].slug})
            + SlugsOf(Failures(keys[1..], replies, round))
  {
    var tail := Failures(keys[1..], replies, round);
    assert forall k :: k in keys <==> k == keys[0] || k in keys[1..];
    assert forall k :: k in [keys[0]] + tail <==> k == keys[0] || k in tail;
  }

  /** From `s` to `t` a pass of `m` has tried `slugs`, and `failures` of them failed. */
  ghost predicate HasTried(s: P.State, t: P.State, m: nat, slugs: set<P.Slug>, failures: set<P.Slug>) {
    && OnlyDeleted(s, t, m) && t.now == s.now
    && (s.mutations[m].phase.Deleting? || s.mutations[m].phase.Sweeping?)
    && t.mutations[m].phase == s.mutations[m].phase.(
         todo := s.mutations[m].phase.todo - slugs, failed := s.mutations[m].phase.failed + failures)
  }

  lemma HasTriedMore(
      s: P.State, u: P.State, t: P.State, m: nat,
      slugs: set<P.Slug>, failures: set<P.Slug>, slugs': set<P.Slug>, failures': set<P.Slug>)
    requires HasTried(s, u, m, slugs, failures) && HasTried(u, t, m, slugs', failures')
    ensures HasTried(s, t, m, slugs + slugs', failures + failures')
  {
    OnlyDeletedTwice(s, u, t, m);
  }

  lemma DeletionEffect(s: P.State, m: nat, slug: P.Slug, reply: Reply)
    requires s.tables != [] && m in s.mutations && slug in P.Todo(s.mutations[m].phase)
    requires slug in s.mutations[m].keys
    ensures var t := P.Next(s, P.Delete(m, slug, reply == Deleted, reply != FailedUntouched), true);
            && HasTried(s, t, m, {slug}, if reply == Deleted then {} else {slug})
            && t.cache.Keys == if reply == FailedUntouched then s.cache.Keys else s.cache.Keys - {slug}
  {
  }

  lemma DeletionIsAStep(s: P.State, m: nat, slug: P.Slug, reply: Reply) returns (steps: seq<P.Step>, t: P.State)
    requires s.tables != [] && m in s.mutations && slug in P.Todo(s.mutations[m].phase)
    requires slug in s.mutations[m].keys
    ensures P.Leads(s, steps, t, true) && t.tables != []
    ensures HasTried(s, t, m, {slug}, if reply == Deleted then {} else {slug})
    ensures t.cache.Keys == if reply == FailedUntouched then s.cache.Keys else s.cache.Keys - {slug}
  {
    DeletionEffect(s, m, slug, reply);
    steps, t := P.Then(s, [], s, P.Delete(m, slug, reply == Deleted, reply != FailedUntouched), true);
  }

  /** A round is its deletions, in order. */
  lemma {:induction false} RoundIsARun(
      s: P.State, m: nat, keys: seq<Key>, host: string, replies: Replies, round: nat, cache: set<Key>)
      returns (steps: seq<P.Step>, t: P.State)
    requires ToTry(s, m, keys, host) && Mirrors(cache, s, host)
    ensures P.Leads(s, steps, t, true) && t.tables != []
    ensures HasTried(s, t, m, SlugsOf(keys), SlugsOf(Failures(keys, replies, round)))
    ensures Mirrors(Cleared(cache, keys, replies, round), t, host)
    decreases |keys|
  {
    if keys == [] {
      steps, t := [], s;
    } else {
      HeadAndTail(keys, host);
      var p, u := DeletionIsAStep(s, m, keys[0].slug, replies(round, keys[0]));
      var left := Cleared(cache, keys[..1], replies, round);
      var q;
      q, t := RoundIsARun(u, m, keys[1..], host, replies, round, left);
      ClearedOneByOne(cache, keys, replies, round);
      KeyByKey(keys, replies, round);
      HasTriedMore(s, u, t, m, {keys[0].slug}, if replies(round, keys[0]) == Deleted then {} else {keys[0].slug},
                   SlugsOf(keys[1..]), SlugsOf(Failures(keys[1..], replies, round)));
      P.LeadsThen(s, p, u, q, t, true);
      steps := p + q;
    }
  }

  lemma {:induction false} FailuresStayKeys(keys: seq<Key>, replies: Replies, round: nat, host: string)
    requires NoRepeats(keys) && OnHost(keys, host)
    ensures NoRepeats(Failures(keys, replies, round)) && OnHost(Failures(keys, replies, round), host)
    ensures forall k :: k in Failures(keys, replies, round) <==> k in keys && replies(round, k) != Deleted
    ensures Failures(keys, replies, round) == [] <==> SlugsOf(Failures(keys, replies, round)) == {}
  {
    var failures := Failures(keys, replies, round);
    forall k ensures k in failures <==> k in keys && replies(round, k) != Deleted {
      FailuresMember(keys, replies, round, k);
    }
    if keys != [] {
      FailuresStayKeys(keys[1..], replies, round, host);
    }
    if failures != [] {
      assert failures[0] in failures;
      assert failures[0].slug in SlugsOf(failures);
    }
  }

  /** The time the first pass sleeps between two of its rounds, the later one its last. */
  function Slept(round: nat, last: nat): nat
    requires 1 <= round <= last <= MAX_ROUNDS
    decreases last - round
  {
    if round == last then 0 else RETRY_DELAYS_MS[round - 1] + Slept(round + 1, last)
  }

  /** `m` is about to start a round over `keys`. */
  ghost predicate StartsRound(s: P.State, m: nat, keys: seq<Key>, host: string, round: nat) {
    && ToTry(s, m, keys, host) && 1 <= round <= MAX_ROUNDS
    && s.mutations[m].phase == P.Deleting(SlugsOf(keys), {}, round)
  }

  lemma RoundEnds(s: P.State, m: nat, failed: set<P.Slug>, round: nat) returns (steps: seq<P.Step>, t: P.State)
    requires s.tables != [] && m in s.mutations && s.mutations[m].phase == P.Deleting({}, failed, round)
    ensures P.Leads(s, steps, t, true) && t.tables != [] && OnlyDeleted(s, t, m) && t.now == s.now && t.cache == s.cache
    ensures t.mutations[m].phase ==
            if failed == {} then P.Waiting(t.now)
            else if round < MAX_ROUNDS then P.Deleting(failed, {}, round + 1)
            else P.Exhausted
  {
    steps, t := P.Then(s, [], s, P.EndRound(m), true);
  }

  /** A round and its end: the next round, the scheduled second pass, or the give-up. */
  lemma WholeRound(
      s: P.State, m: nat, keys: seq<Key>, host: string, replies: Replies, round: nat, cache: set<Key>)
      returns (steps: seq<P.Step>, t: P.State)
    requires StartsRound(s, m, keys, host, round) && Mirrors(cache, s, host)
    ensures P.Leads(s, steps, t, true) && t.tables != [] && OnlyDeleted(s, t, m) && t.now == s.now
    ensures Mirrors(Cleared(cache, keys, replies, round), t, host)
    ensures t.mutations[m].phase ==
            if Failures(keys, replies, round) == [] then P.Waiting(t.now)
            else if round < MAX_ROUNDS then P.Deleting(SlugsOf(Failures(keys, replies, round)), {}, round + 1)
            else P.Exhausted
  {
    FailuresStayKeys(keys, replies, round, host);
    var p, u := RoundIsARun(s, m, keys, host, replies, round, cache);
    var q;
    q, t := RoundEnds(u, m, SlugsOf(Failures(keys, replies, round)), round);
    P.LeadsThen(s, p, u, q, t, true);
    OnlyDeletedTwice(s, u, t, m);
    steps := p + q;
  }

  lemma Sleeps(s: P.State, m: nat, ms: nat) returns (steps: seq<P.Step>, t: P.State)
    requires s.tables != [] && m in s.mutations
    ensures P.Leads(s, steps, t, true) && t.tables == s.tables && OnlyDeleted(s, t, m) && t.now == s.now + ms
    ensures t.mutations == s.mutations && t.cache == s.cache
  {
    steps, t := P.Then(s, [], s, P.Advance(s.now + ms), true);
  }

  /** A round that left something, and the sleep before the next. */
  lemma RoundAndSleep(
      s: P.State, m: nat, keys: seq<Key>, host: string, replies: Replies, round: nat, cache: set<Key>)
      returns (steps: seq<P.Step>, t: P.State)
    requires StartsRound(s, m, keys, host, round) && Mirrors(cache, s, host)
    requires Failures(keys, replies, round) != [] && round < MAX_ROUNDS
    ensures P.Leads(s, steps, t, true) && OnlyDeleted(s, t, m) && t.now == s.now + RETRY_DELAYS_MS[round - 1]
    ensures StartsRound(t, m, Failures(keys, replies, round), host, round + 1)
    ensures Mirrors(Cleared(cache, keys, replies, round), t, host)
  {
    FailuresStayKeys(keys, replies, round, host);
    var p, u := WholeRound(s, m, keys, host, replies, round, cache);
    var q;
    q, t := Sleeps(u, m, RETRY_DELAYS_MS[round - 1]);
    P.LeadsThen(s, p, u, q, t, true);
    OnlyDeletedTwice(s, u, t, m);
    steps := p + q;
  }

  /** THE FIRST PASS IS A RUN. Its rounds and the sleeps between them are steps of the protocol. */
  lemma {:induction false} FirstPassIsARun(
      s: P.State, m: nat, keys: seq<Key>, host: string, replies: Replies, round: nat, cache: set<Key>)
      returns (steps: seq<P.Step>, t: P.State)
    requires StartsRound(s, m, keys, host, round) && Mirrors(cache, s, host)
    ensures P.Leads(s, steps, t, true) && OnlyDeleted(s, t, m)
    ensures Mirrors(Leaves(cache, keys, replies, round), t, host)
    ensures t.mutations[m].phase == if Ending(keys, replies, round).Scheduled? then P.Waiting(t.now) else P.Exhausted
    ensures t.now == s.now + Slept(round, Ending(keys, replies, round).attempts)
    decreases MAX_ROUNDS - round
  {
    var failed := Failures(keys, replies, round);
    if failed == [] || round == MAX_ROUNDS {
      steps, t := WholeRound(s, m, keys, host, replies, round, cache);
    } else {
      var p, u := RoundAndSleep(s, m, keys, host, replies, round, cache);
      var q;
      q, t := FirstPassIsARun(u, m, failed, host, replies, round + 1, Cleared(cache, keys, replies, round));
      P.LeadsThen(s, p, u, q, t, true);
      OnlyDeletedTwice(s, u, t, m);
      steps := p + q;
    }
  }

  lemma SweepBegins(s: P.State, m: nat) returns (steps: seq<P.Step>, t: P.State)
    requires s.tables != [] && m in s.mutations && s.mutations[m].phase.Waiting?
    requires s.now >= s.mutations[m].phase.since + P.SECOND_PASS_DELAY_MS
    ensures P.Leads(s, steps, t, true) && t.tables != [] && OnlyDeleted(s, t, m) && t.now == s.now && t.cache == s.cache
    ensures t.mutations[m].phase == P.Sweeping(s.mutations[m].keys, {})
  {
    steps, t := P.Then(s, [], s, P.BeginSweep(m), true);
  }

  lemma SweepEnds(s: P.State, m: nat, failed: set<P.Slug>) returns (steps: seq<P.Step>, t: P.State)
    requires s.tables != [] && m in s.mutations && s.mutations[m].phase == P.Sweeping({}, failed)
    ensures P.Leads(s, steps, t, true) && OnlyDeleted(s, t, m) && t.now == s.now && t.cache == s.cache
    ensures t.mutations[m].phase == if failed == {} then P.Swept else P.SweepFailed
  {
    steps, t := P.Then(s, [], s, P.EndSweep(m), true);
  }

  lemma WholeSweep(s: P.State, m: nat, keys: seq<Key>, host: string, replies: Replies, cache: set<Key>)
      returns (steps: seq<P.Step>, t: P.State)
    requires ToTry(s, m, keys, host) && s.mutations[m].phase == P.Sweeping(SlugsOf(keys), {})
    requires Mirrors(cache, s, host)
    ensures P.Leads(s, steps, t, true) && OnlyDeleted(s, t, m) && t.now == s.now
    ensures Mirrors(Cleared(cache, keys, replies, 1), t, host)
    ensures t.mutations[m].phase == if Failures(keys, replies, 1) == [] then P.Swept else P.SweepFailed
  {
    FailuresStayKeys(keys, replies, 1, host);
    var p, u := RoundIsARun(s, m, keys, host, replies, 1, cache);
    var q;
    q, t := SweepEnds(u, m, SlugsOf(Failures(keys, replies, 1)));
    P.LeadsThen(s, p, u, q, t, true);
    OnlyDeletedTwice(s, u, t, m);
    steps := p + q;
  }

  /** THE SECOND PASS IS A RUN, once its delay is over. */
  lemma SweepIsARun(s: P.State, m: nat, keys: seq<Key>, host: string, replies: Replies, cache: set<Key>)
      returns (steps: seq<P.Step>, t: P.State)
    requires s.tables != [] && m in s.mutations && s.mutations[m].phase.Waiting?
    requires s.now >= s.mutations[m].phase.since + P.SECOND_PASS_DELAY_MS
    requires s.mutations[m].keys == SlugsOf(keys) && NoRepeats(keys) && OnHost(keys, host) && Mirrors(cache, s, host)
    ensures P.Leads(s, steps, t, true) && OnlyDeleted(s, t, m) && t.now == s.now
    ensures Mirrors(Cleared(cache, keys, replies, 1), t, host)
    ensures t.mutations[m].phase == if Failures(keys, replies, 1) == [] then P.Swept else P.SweepFailed
  {
    var p, u := SweepBegins(s, m);
    var q;
    q, t := WholeSweep(u, m, keys, host, replies, cache);
    P.LeadsThen(s, p, u, q, t, true);
    OnlyDeletedTwice(s, u, t, m);
    steps := p + q;
  }

  /** `m` has just committed `mutation`. */
  ghost predicate JustCommitted(s: P.State, m: nat, mutation: Mutation, host: string) {
    && s.tables != [] && m in s.mutations
    && s.mutations[m].phase == P.Deleting(s.mutations[m].keys, {}, 1)
    && (forall k :: Images(mutation, k) <==> k.hostname == host && k.slug in s.mutations[m].keys)
  }

  function KeyOf(host: string, slug: Option<P.Slug>): Option<Key> {
    if slug.Some? then Some(Key(host, slug.value)) else None
  }

  /** The protocol's commit of a link's change leaves the mutation the invalidator is called with. */
  lemma CommitCallsHandle(s: P.State, step: P.Step, mutation: Mutation, host: string, current: bool)
    requires s.tables != [] && step.Commits? && P.Enabled(s, step, current)
    requires mutation.before == KeyOf(host, s.mutations[step.mutation].before)
    requires mutation.after == KeyOf(host, step.after)
    ensures JustCommitted(P.Next(s, step, current), step.mutation, mutation, host)
  {
  }

  lemma ImagesAreTheKeys(s: P.State, m: nat, mutation: Mutation, host: string, keys: seq<Key>)
    requires JustCommitted(s, m, mutation, host) && NoRepeats(keys) && forall k :: k in keys <==> Images(mutation, k)
    ensures StartsRound(s, m, keys, host, 1)
  {
    forall slug ensures slug in SlugsOf(keys) <==> slug in s.mutations[m].keys {
      assert Key(host, slug) in keys <==> Images(mutation, Key(host, slug));
    }
  }

  /** `Handle`, called after a commit, does to its cache what a run of the protocol does. */
  method HandleIsARun(
      subscriber: CacheInvalidationSubscriber, mutation: Mutation, replies: Replies,
      ghost s: P.State, ghost m: nat, ghost host: string)
      returns (result: Result, keys: seq<Key>, slept: nat, ghost steps: seq<P.Step>, ghost t: P.State)
    requires JustCommitted(s, m, mutation, host) && Mirrors(subscriber.cache, s, host)
    modifies subscriber
    ensures P.Leads(s, steps, t, true) && OnlyDeleted(s, t, m) && t.now == s.now + slept
    ensures Mirrors(subscriber.cache, t, host)
    ensures t.mutations[m].phase == if result.Scheduled? then P.Waiting(t.now) else P.Exhausted
    ensures result.Scheduled? <==> AllDeletedBy(keys, replies, MAX_ROUNDS)
    ensures NoRepeats(keys) && OnHost(keys, host) && SlugsOf(keys) == t.mutations[m].keys
    ensures P.Inv(s) ==> P.Sound(t)
  {
    ghost var cache := subscriber.cache;
    result, keys, slept := subscriber.Handle(mutation, replies);
    ImagesAreTheKeys(s, m, mutation, host, keys);
    steps, t := FirstPassIsARun(s, m, keys, host, replies, 1, cache);
    if P.Inv(s) {
      P.Reachable(s, steps, t);
      P.InvariantIsSound(t);
    }
  }

  /** And so does `SecondPass`, called when the delay is over, in whatever state the protocol is then. */
  method SecondPassIsARun(
      subscriber: CacheInvalidationSubscriber, keys: seq<Key>, replies: Replies,
      ghost s: P.State, ghost m: nat, ghost host: string)
      returns (ghost steps: seq<P.Step>, ghost t: P.State)
    requires s.tables != [] && m in s.mutations && s.mutations[m].phase.Waiting?
    requires s.now >= s.mutations[m].phase.since + P.SECOND_PASS_DELAY_MS
    requires NoRepeats(keys) && OnHost(keys, host) && SlugsOf(keys) == s.mutations[m].keys
    requires Mirrors(subscriber.cache, s, host)
    modifies subscriber
    ensures P.Leads(s, steps, t, true) && OnlyDeleted(s, t, m) && t.now == s.now
    ensures Mirrors(subscriber.cache, t, host)
    ensures t.mutations[m].phase == if AllDeletedBy(keys, replies, 1) then P.Swept else P.SweepFailed
    ensures P.Inv(s) ==> P.Sound(t)
  {
    ghost var cache := subscriber.cache;
    subscriber.SecondPass(keys, replies);
    steps, t := SweepIsARun(s, m, keys, host, replies, cache);
    FailuresStayKeys(keys, replies, 1, host);
    RoundIsLastIffDone(keys, keys, replies, 1);
    if P.Inv(s) {
      P.Reachable(s, steps, t);
      P.InvariantIsSound(t);
    }
  }

  // ---------------------------------------------------------------------------------------------
  // Whatever interleaves, a first pass ends as the loop does
  // ---------------------------------------------------------------------------------------------

  /** Along a run, the cache answers the deletions of `m`'s first pass as `replies` has it. */
  ghost predicate Answered(
      s: P.State, steps: seq<P.Step>, m: nat, host: string, replies: Replies, current: bool)
    decreases |steps|
  {
    s.tables != [] &&
    (steps == [] ||
     (&& P.Enabled(s, steps[0], current)
      && AnsweredNow(s, steps[0], m, host, replies)
      && Answered(P.Next(s, steps[0], current), steps[1..], m, host, replies, current)))
  }

  ghost predicate AnsweredNow(s: P.State, step: P.Step, m: nat, host: string, replies: Replies) {
    step.Delete? && step.mutation == m && m in s.mutations && s.mutations[m].phase.Deleting? ==>
      (step.ok <==> replies(s.mutations[m].phase.round, Key(host, step.slug)) == Deleted)
  }

  /** `m` is in the round that started over `keys`. */
  ghost predicate MidRound(s: P.State, m: nat, keys: seq<Key>, host: string, replies: Replies, round: nat) {
    && s.tables != [] && m in s.mutations && NoRepeats(keys) && OnHost(keys, host) && 1 <= round <= MAX_ROUNDS
    && var phase := s.mutations[m].phase;
    && phase.Deleting? && phase.round == round
    && phase.todo <= SlugsOf(keys) && phase.failed <= SlugsOf(keys) && phase.todo !! phase.failed
    && (forall k :: k in keys && k.slug !in phase.todo ==> (k.slug in phase.failed <==> replies(round, k) != Deleted))
  }

  /** `m` is still at it, no later than `result` has it, or has ended its first pass with that result. */
  ghost predicate EndsAs(s: P.State, m: nat, result: Result) {
    && m in s.mutations
    && match s.mutations[m].phase
       case Deleting(_, _, round) => round <= result.attempts
       case Exhausted => result.GaveUp?
       case phase => P.FirstPassRan(phase) && result.Scheduled?
  }

  lemma StaysMidRound(
      s: P.State, step: P.Step, m: nat, keys: seq<Key>, host: string, replies: Replies, round: nat, current: bool)
    requires MidRound(s, m, keys, host, replies, round) && P.Enabled(s, step, current)
    requires AnsweredNow(s, step, m, host, replies) && step != P.EndRound(m)
    ensures MidRound(P.Next(s, step, current), m, keys, host, replies, round)
  {
    if step.Delete? && step.mutation == m {
      forall k | k in keys && k.slug == step.slug ensures k == Key(host, step.slug) {
      }
    }
  }

  lemma RoundLeft(s: P.State, m: nat, keys: seq<Key>, host: string, replies: Replies, round: nat)
    requires MidRound(s, m, keys, host, replies, round) && s.mutations[m].phase.todo == {}
    ensures s.mutations[m].phase.failed == SlugsOf(Failures(keys, replies, round))
  {
    FailuresStayKeys(keys, replies, round, host);
  }

  lemma {:induction false} StaysEnded(s: P.State, steps: seq<P.Step>, t: P.State, m: nat, result: Result, current: bool)
    requires EndsAs(s, m, result) && !s.mutations[m].phase.Deleting? && P.Leads(s, steps, t, current)
    ensures EndsAs(t, m, result)
    decreases |steps|
  {
    if steps != [] {
      StaysEnded(P.Next(s, steps[0], current), steps[1..], t, m, result, current);
    }
  }

  /** The end of a round starts the next over what it left, or ends the pass. */
  lemma RoundOver(
      s: P.State, m: nat, keys: seq<Key>, host: string, replies: Replies, round: nat, current: bool)
    requires MidRound(s, m, keys, host, replies, round) && P.Enabled(s, P.EndRound(m), current)
    ensures var t := P.Next(s, P.EndRound(m), current);
            if Failures(keys, replies, round) != [] && round < MAX_ROUNDS
            then MidRound(t, m, Failures(keys, replies, round), host, replies, round + 1)
            else EndsAs(t, m, Ending(keys, replies, round)) && !t.mutations[m].phase.Deleting?
  {
    RoundLeft(s, m, keys, host, replies, round);
    FailuresStayKeys(keys, replies, round, host);
  }

  lemma {:induction false} RoundsEndAsTheLoop(
      s: P.State, steps: seq<P.Step>, t: P.State, m: nat,
      keys: seq<Key>, host: string, replies: Replies, round: nat, current: bool)
    requires MidRound(s, m, keys, host, replies, round)
    requires P.Leads(s, steps, t, current) && Answered(s, steps, m, host, replies, current)
    ensures EndsAs(t, m, Ending(keys, replies, round))
    decreases |steps|
  {
    if steps != [] {
      var u := P.Next(s, steps[0], current);
      var failed := Failures(keys, replies, round);
      if steps[0] != P.EndRound(m) {
        StaysMidRound(s, steps[0], m, keys, host, replies, round, current);
        RoundsEndAsTheLoop(u, steps[1..], t, m, keys, host, replies, round, current);
      } else {
        RoundOver(s, m, keys, host, replies, round, current);
        if failed != [] && round < MAX_ROUNDS {
          RoundsEndAsTheLoop(u, steps[1..], t, m, failed, host, replies, round + 1, current);
        } else {
          StaysEnded(u, steps[1..], t, m, Ending(keys, replies, round), current);
        }
      }
    }
  }

  /**
   IN EVERY INTERLEAVING the first pass of a committed mutation ends as `Handle` does when it meets the
   same replies: once it has run the loop schedules the second, once it is given up the
   loop gives up, and while it lasts it is in no later round than the loop's last.
   */
  lemma EveryFirstPassEndsAsHandle(
      s: P.State, steps: seq<P.Step>, t: P.State, m: nat,
      mutation: Mutation, keys: seq<Key>, host: string, replies: Replies, current: bool)
    requires JustCommitted(s, m, mutation, host) && NoRepeats(keys) && forall k :: k in keys <==> Images(mutation, k)
    requires P.Leads(s, steps, t, current) && Answered(s, steps, m, host, replies, current)
    ensures EndsAs(t, m, Ending(keys, replies, 1))
    ensures P.FirstPassRan(t.mutations[m].phase) ==> AllDeletedBy(keys, replies, MAX_ROUNDS)
    ensures t.mutations[m].phase.Exhausted? ==> !AllDeletedBy(keys, replies, MAX_ROUNDS)
  {
    ImagesAreTheKeys(s, m, mutation, host, keys);
    RoundsEndAsTheLoop(s, steps, t, m, keys, host, replies, 1, current);
    EndsAtTheFirst(keys, replies);
  }
}
