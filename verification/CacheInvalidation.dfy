/** The cache invalidator: a link mutation's keys, deleted in rounds and once more. */
module CacheInvalidation {
  /*
   Up to three rounds, and a repeat of the whole set scheduled when a round leaves nothing behind.
   */

  import opened Options

  datatype Key = Key(hostname: string, slug: string)

  /** A link mutation, as far as the invalidator reads it: an image's key, before and after. */
  datatype Mutation = Mutation(linkId: string, before: Option<Key>, after: Option<Key>)

  const RETRY_DELAYS_MS: seq<nat> := [200, 1000]
  const MAX_ROUNDS := 3

  /** What the cache answers to one deletion. A reported failure may still have taken effect. */
  datatype Reply = Deleted | FailedUntouched | FailedButGone

  /** The reply to the deletion of a key in a numbered round. */
  type Replies = (nat, Key) -> Reply

  ghost predicate Images(m: Mutation, key: Key) {
    m.before == Some(key) || m.after == Some(key)
  }

  ghost predicate NoRepeats(keys: seq<Key>) {
    forall i, j :: 0 <= i < j < |keys| ==> keys[i] != keys[j]
  }

  /** The images' keys, each once, the pre-image's first. */
  method KeysToInvalidate(m: Mutation) returns (keys: seq<Key>)
    ensures forall k :: k in keys <==> Images(m, k)
    ensures NoRepeats(keys)
    ensures m.before.Some? ==> keys != [] && keys[0] == m.before.value
  {
    keys := [];
    var images := [m.before, m.after];
    for i := 0 to |images|
      invariant forall k :: k in keys <==> Some(k) in images[..i]
      invariant NoRepeats(keys)
      invariant i == 0 ==> keys == []
      invariant i > 0 && m.before.Some? ==> keys != [] && keys[0] == m.before.value
    {
      assert images[..i + 1] == images[..i] + [images[i]];
      if images[i].None? {
        continue;
      }
      if images[i].value !in keys {
        keys := keys + [images[i].value];
      }
    }
    assert images[..|images|] == images;
    forall k ensures k in keys <==> Images(m, k) {
      assert Some(k) in images <==> images[0] == Some(k) || images[1] == Some(k);
    }
  }

  ghost predicate DeletedBy(key: Key, replies: Replies, round: nat) {
    exists r: nat :: 1 <= r <= round && replies(r, key) == Deleted
  }

  /** Every key was deleted in some round up to `round`. */
  ghost predicate AllDeletedBy(keys: seq<Key>, replies: Replies, round: nat) {
    forall k :: k in keys ==> DeletedBy(k, replies, round)
  }

  function Failure(key: Key, replies: Replies, round: nat): seq<Key> {
    if replies(round, key) == Deleted then [] else [key]
  }

  function Failures(keys: seq<Key>, replies: Replies, round: nat): seq<Key> {
    if keys == [] then [] else Failure(keys[0], replies, round) + Failures(keys[1..], replies, round)
  }

  lemma {:induction false} FailuresSnoc(keys: seq<Key>, key: Key, replies: Replies, round: nat)
    ensures Failures(keys + [key], replies, round) == Failures(keys, replies, round) + Failure(key, replies, round)
  {
    var all, last := keys + [key], Failure(key, replies, round);
    if keys == [] {
      assert all[0] == key && all[1..] == [];
    } else {
      assert all[0] == keys[0] && all[1..] == keys[1..] + [key];
      FailuresSnoc(keys[1..], key, replies, round);
      var head, middle := Failure(keys[0], replies, round), Failures(keys[1..], replies, round);
      assert head + (middle + last) == (head + middle) + last;
    }
  }

  lemma {:induction false} FailuresMember(keys: seq<Key>, replies: Replies, round: nat, key: Key)
    ensures key in Failures(keys, replies, round) <==> key in keys && replies(round, key) != Deleted
  {
    if keys != [] {
      FailuresMember(keys[1..], replies, round, key);
      assert key in keys <==> key == keys[0] || key in keys[1..];
    }
  }

  /** What a round over `keys` leaves of the cache. */
  function Cleared(cache: set<Key>, keys: seq<Key>, replies: Replies, round: nat): set<Key> {
    set k | k in cache && !(k in keys && replies(round, k) != FailedUntouched)
  }

  datatype Result = Scheduled(attempts: nat) | GaveUp(attempts: nat)

  /** How the first pass ends that has `pending` left before a round. */
  function Ending(pending: seq<Key>, replies: Replies, round: nat): (result: Result)
    requires 1 <= round <= MAX_ROUNDS
    ensures round <= result.attempts <= MAX_ROUNDS && (result.GaveUp? ==> result.attempts == MAX_ROUNDS)
    decreases MAX_ROUNDS - round, |pending|
  {
    var failed := Failures(pending, replies, round);
    if failed == [] then Scheduled(round)
    else if round == MAX_ROUNDS then GaveUp(round)
    else Ending(failed, replies, round + 1)
  }

  /** And what it leaves of the cache. */
  function Leaves(cache: set<Key>, pending: seq<Key>, replies: Replies, round: nat): set<Key>
    requires 1 <= round <= MAX_ROUNDS
    decreases MAX_ROUNDS - round, |pending|
  {
    var failed := Failures(pending, replies, round);
    var left := Cleared(cache, pending, replies, round);
    if failed == [] || round == MAX_ROUNDS then left else Leaves(left, failed, replies, round + 1)
  }

  class CacheInvalidationSubscriber {
    /** The link keys the cache holds. */
    var cache: set<Key>
    /** The key sets whose second deletion is scheduled and has not run. */
    var scheduledPasses: seq<seq<Key>>
    /** The `attempts` field of each failure line. */
    var failureLines: seq<nat>

    constructor (cache: set<Key>)
      ensures this.cache == cache && scheduledPasses == [] && failureLines == []
    {
      this.cache := cache;
      scheduledPasses := [];
      failureLines := [];
    }

    /** One round: every key is tried, whatever became of the ones before it. */
    method DeleteEach(keys: seq<Key>, replies: Replies, round: nat) returns (failed: seq<Key>)
      modifies this`cache
      ensures failed == Failures(keys, replies, round)
      ensures cache == Cleared(old(cache), keys, replies, round)
    {
      failed := [];
      for i := 0 to |keys|
        invariant failed == Failures(keys[..i], replies, round)
        invariant forall k :: k in cache <==>
                    k in old(cache) && !(k in keys[..i] && replies(round, k) != FailedUntouched)
      {
        assert keys[..i + 1] == keys[..i] + [keys[i]];
        FailuresSnoc(keys[..i], keys[i], replies, round);
        var reply := replies(round, keys[i]);
        if reply != FailedUntouched {
          cache := cache - {keys[i]};
        }
        if reply != Deleted {
          failed := failed + [keys[i]];
        }
      }
      assert keys[..|keys|] == keys;
    }

    /**
     The first pass. It stops at the first round by which every key has been deleted, gives up after
     the third, and schedules the WHOLE key set, not what the last round had left.
     */
    method Handle(m: Mutation, replies: Replies) returns (result: Result, keys: seq<Key>, slept: nat)
      modifies this
      ensures NoRepeats(keys) && forall k :: k in keys <==> Images(m, k)
      ensures 1 <= result.attempts <= MAX_ROUNDS
      ensures NotDone(keys, replies, 1, result.attempts)
      ensures result.Scheduled? <==> AllDeletedBy(keys, replies, MAX_ROUNDS)
      ensures result.Scheduled? ==>
                && AllDeletedBy(keys, replies, result.attempts)
                && scheduledPasses == old(scheduledPasses) + [keys] && failureLines == old(failureLines)
                && forall k :: k in keys ==> k !in cache
      ensures result.GaveUp? ==>
                && result.attempts == MAX_ROUNDS
                && scheduledPasses == old(scheduledPasses) && failureLines == old(failureLines) + [MAX_ROUNDS]
      ensures slept == (if result.attempts == 1 then 0 else if result.attempts == 2 then 200 else 1200)
      ensures forall k :: !Images(m, k) ==> (k in cache <==> k in old(cache))
      ensures result == Ending(keys, replies, 1) && cache == Leaves(old(cache), keys, replies, 1)
    {
      keys := KeysToInvalidate(m);
      var pending := keys;
      var attempts := 0;
      slept := 0;
      EndsAtTheFirst(keys, replies);
      forall k {
        LeavesTheRest(cache, keys, replies, 1, k);
      }
      while true
        invariant 0 <= attempts < MAX_ROUNDS
        invariant Ending(keys, replies, 1) == Ending(pending, replies, attempts + 1)
        invariant Leaves(old(cache), keys, replies, 1) == Leaves(cache, pending, replies, attempts + 1)
        invariant slept == (if attempts == 0 then 0 else if attempts == 1 then 200 else 1200)
        invariant scheduledPasses == old(scheduledPasses) && failureLines == old(failureLines)
        decreases MAX_ROUNDS - attempts
      {
        attempts := attempts + 1;
        var failed := DeleteEach(pending, replies, attempts);
        if |failed| == 0 {
          scheduledPasses := scheduledPasses + [keys];
          return Scheduled(attempts), keys, slept;
        }
        pending := failed;
        if attempts - 1 >= |RETRY_DELAYS_MS| {
          break;
        }
        slept := slept + RETRY_DELAYS_MS[attempts - 1];
      }
      failureLines := failureLines + [attempts];
      result := GaveUp(attempts);
    }

    /** The delayed pass: one round over the whole set, and one line if any key was not deleted. */
    method SecondPass(keys: seq<Key>, replies: Replies)
      modifies this
      ensures scheduledPasses == old(scheduledPasses)
      ensures failureLines == old(failureLines) + (if AllDeletedBy(keys, replies, 1) then [] else [1])
      ensures AllDeletedBy(keys, replies, 1) ==> forall k :: k in keys ==> k !in cache
      ensures cache == Cleared(old(cache), keys, replies, 1)
    {
      var failed := DeleteEach(keys, replies, 1);
      RoundIsLastIffDone(keys, keys, replies, 1);
      if |failed| == 0 {
        return;
      }
      failureLines := failureLines + [1];
    }
  }

  /** What is pending after a number of rounds: the keys that none of them deleted. */
  ghost predicate Pending(pending: seq<Key>, keys: seq<Key>, replies: Replies, rounds: nat) {
    forall k :: k in pending <==> k in keys && !DeletedBy(k, replies, rounds)
  }

  /** What a round leaves pending is exactly what no round so far has deleted. */
  lemma RoundAdvances(keys: seq<Key>, pending: seq<Key>, replies: Replies, round: nat)
    requires round >= 1 && Pending(pending, keys, replies, round - 1)
    ensures Pending(Failures(pending, replies, round), keys, replies, round)
  {
    forall k ensures k in Failures(pending, replies, round) <==> k in keys && !DeletedBy(k, replies, round) {
      FailuresMember(pending, replies, round, k);
      if DeletedBy(k, replies, round) && !DeletedBy(k, replies, round - 1) {
        var r: nat :| 1 <= r <= round && replies(r, k) == Deleted;
        assert r == round;
      }
    }
  }

  /** It leaves nothing iff by then every key has been deleted. */
  lemma RoundIsLastIffDone(keys: seq<Key>, pending: seq<Key>, replies: Replies, round: nat)
    requires round >= 1 && Pending(pending, keys, replies, round - 1)
    ensures Failures(pending, replies, round) == [] <==> AllDeletedBy(keys, replies, round)
  {
    RoundAdvances(keys, pending, replies, round);
    if Failures(pending, replies, round) != [] {
      assert Failures(pending, replies, round)[0] in Failures(pending, replies, round);
    }
  }

  lemma DeletedLater(keys: seq<Key>, replies: Replies, round: nat, later: nat)
    requires AllDeletedBy(keys, replies, round) && round <= later
    ensures AllDeletedBy(keys, replies, later)
  {
    forall k | k in keys ensures DeletedBy(k, replies, later) {
      assert DeletedBy(k, replies, round);
    }
  }

  /** No round from `first` on and ahead of `round` was the one by which every key was deleted. */
  ghost predicate NotDone(keys: seq<Key>, replies: Replies, first: nat, round: nat) {
    forall r: nat :: first <= r < round ==> !AllDeletedBy(keys, replies, r)
  }

  lemma {:induction false} NotDoneBefore(keys: seq<Key>, pending: seq<Key>, replies: Replies, round: nat, r: nat)
    requires 1 <= round <= MAX_ROUNDS && Pending(pending, keys, replies, round - 1)
    requires round <= r < Ending(pending, replies, round).attempts
    ensures !AllDeletedBy(keys, replies, r)
    decreases MAX_ROUNDS - round
  {
    if r == round {
      RoundIsLastIffDone(keys, pending, replies, round);
    } else {
      RoundAdvances(keys, pending, replies, round);
      NotDoneBefore(keys, Failures(pending, replies, round), replies, round + 1, r);
    }
  }

  lemma {:induction false} EndsWhenDone(keys: seq<Key>, pending: seq<Key>, replies: Replies, round: nat)
    requires 1 <= round <= MAX_ROUNDS && Pending(pending, keys, replies, round - 1)
    ensures Ending(pending, replies, round).Scheduled? <==>
            AllDeletedBy(keys, replies, Ending(pending, replies, round).attempts)
    decreases MAX_ROUNDS - round
  {
    var failed := Failures(pending, replies, round);
    if failed == [] || round == MAX_ROUNDS {
      RoundIsLastIffDone(keys, pending, replies, round);
    } else {
      RoundAdvances(keys, pending, replies, round);
      EndsWhenDone(keys, failed, replies, round + 1);
    }
  }

  /** A first pass stops at the first round by which all keys are deleted, and gives up iff no round is. */
  lemma EndsAtTheFirst(keys: seq<Key>, replies: Replies)
    ensures var result := Ending(keys, replies, 1);
            && (result.Scheduled? <==> AllDeletedBy(keys, replies, MAX_ROUNDS))
            && (result.Scheduled? ==> AllDeletedBy(keys, replies, result.attempts))
            && NotDone(keys, replies, 1, result.attempts)
  {
    EndsWhenDone(keys, keys, replies, 1);
    var result := Ending(keys, replies, 1);
    forall r: nat | 1 <= r < result.attempts ensures !AllDeletedBy(keys, replies, r) {
      NotDoneBefore(keys, keys, replies, 1, r);
    }
    if AllDeletedBy(keys, replies, result.attempts) {
      DeletedLater(keys, replies, result.attempts, MAX_ROUNDS);
    }
  }

  /** It leaves other keys alone, and none of its own when it gets to the end. */
  lemma {:induction false} LeavesTheRest(cache: set<Key>, pending: seq<Key>, replies: Replies, round: nat, k: Key)
    requires 1 <= round <= MAX_ROUNDS
    ensures k !in pending ==> (k in Leaves(cache, pending, replies, round) <==> k in cache)
    ensures k in pending && Ending(pending, replies, round).Scheduled? ==> k !in Leaves(cache, pending, replies, round)
    decreases MAX_ROUNDS - round
  {
    var failed := Failures(pending, replies, round);
    FailuresMember(pending, replies, round, k);
    if failed != [] && round < MAX_ROUNDS {
      LeavesTheRest(Cleared(cache, pending, replies, round), failed, replies, round + 1, k);
    }
  }
}
