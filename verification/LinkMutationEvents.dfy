/** The registry of link mutation subscribers and its two dispatch loops. */
module LinkMutationEvents {
  datatype Phase = InTransaction | AfterCommit

  datatype Subscriber = Subscriber(name: string, phase: Phase)

  /** Which subscribers' handlers throw on the mutation at hand. */
  type Throws = string -> bool

  function InPhase(subscribers: seq<Subscriber>, phase: Phase): seq<string> {
    if subscribers == [] then []
    else (if subscribers[0].phase == phase then [subscribers[0].name] else []) + InPhase(subscribers[1..], phase)
  }

  function Throwing(names: seq<string>, throws: Throws): seq<string> {
    if names == [] then [] else (if throws(names[0]) then [names[0]] else []) + Throwing(names[1..], throws)
  }

  lemma {:induction false} InPhaseConcat(a: seq<Subscriber>, b: seq<Subscriber>, phase: Phase)
    ensures InPhase(a + b, phase) == InPhase(a, phase) + InPhase(b, phase)
  {
    if a == [] {
      assert a + b == b;
    } else {
      assert (a + b)[1..] == a[1..] + b;
      InPhaseConcat(a[1..], b, phase);
    }
  }

  lemma {:induction false} ThrowingConcat(a: seq<string>, b: seq<string>, throws: Throws)
    ensures Throwing(a + b, throws) == Throwing(a, throws) + Throwing(b, throws)
  {
    if a == [] {
      assert a + b == b;
    } else {
      assert (a + b)[1..] == a[1..] + b;
      ThrowingConcat(a[1..], b, throws);
    }
  }

  lemma {:induction false} ThrowingIsExact(names: seq<string>, throws: Throws, name: string)
    ensures multiset(Throwing(names, throws))[name] == if throws(name) then multiset(names)[name] else 0
  {
    if names != [] {
      ThrowingIsExact(names[1..], throws, name);
      var first := if throws(names[0]) then [names[0]] else [];
      assert Throwing(names, throws) == first + Throwing(names[1..], throws) && names == [names[0]] + names[1..];
    }
  }

  lemma InPhasePrefix(subscribers: seq<Subscriber>, i: nat, phase: Phase)
    requires i < |subscribers|
    ensures InPhase(subscribers[..i + 1], phase) ==
            InPhase(subscribers[..i], phase) + (if subscribers[i].phase == phase then [subscribers[i].name] else [])
  {
    assert subscribers[..i + 1] == subscribers[..i] + [subscribers[i]];
    InPhaseConcat(subscribers[..i], [subscribers[i]], phase);
  }

  class LinkMutationRegistry {
    /** In registration order, which is dispatch order. */
    var subscribers: seq<Subscriber>

    constructor ()
      ensures Valid() && subscribers == []
    {
      subscribers := [];
    }

    ghost predicate Valid()
      reads this
    {
      forall i, j :: 0 <= i < j < |subscribers| ==> subscribers[i].name != subscribers[j].name
    }

    /** Refuses a second registration under a name already taken. */
    method OnLinkMutated(subscriber: Subscriber) returns (refused: bool)
      requires Valid()
      modifies this
      ensures Valid()
      ensures refused <==> exists s :: s in old(subscribers) && s.name == subscriber.name
      ensures subscribers == old(subscribers) + (if refused then [] else [subscriber])
    {
      for i := 0 to |subscribers|
        invariant forall j :: 0 <= j < i ==> subscribers[j].name != subscriber.name
        invariant subscribers == old(subscribers)
      {
        if subscribers[i].name == subscriber.name {
          return true;
        }
      }
      subscribers := subscribers + [subscriber];
      refused := false;
    }

    /** The first phase: in order, up to and including the first subscriber that throws. */
    method RunInTransactionSubscribers(throws: Throws) returns (called: seq<string>, threw: bool)
      ensures called <= InPhase(subscribers, InTransaction) && (threw ==> called != [])
      ensures Throwing(called, throws) == (if threw then [called[|called| - 1]] else [])
      ensures threw <==> Throwing(InPhase(subscribers, InTransaction), throws) != []
      ensures !threw ==> called == InPhase(subscribers, InTransaction)
      ensures threw <==> exists name :: name in called && throws(name)
      ensures threw ==> throws(called[|called| - 1]) && forall i :: 0 <= i < |called| - 1 ==> !throws(called[i])
    {
      called := [];
      for i := 0 to |subscribers|
        invariant called == InPhase(subscribers[..i], InTransaction)
        invariant Throwing(called, throws) == [] && forall i :: 0 <= i < |called| ==> !throws(called[i])
      {
        InPhasePrefix(subscribers, i, InTransaction);
        if subscribers[i].phase == InTransaction {
          ThrowingConcat(called, [subscribers[i].name], throws);
          assert [subscribers[i].name][1..] == [];
          called := called + [subscribers[i].name];
          if throws(subscribers[i].name) {
            assert subscribers == subscribers[..i + 1] + subscribers[i + 1..];
            InPhaseConcat(subscribers[..i + 1], subscribers[i + 1..], InTransaction);
            ThrowingConcat(called, InPhase(subscribers[i + 1..], InTransaction), throws);
            return called, true;
          }
        }
      }
      assert subscribers[..|subscribers|] == subscribers;
      threw := false;
    }

    /** The second phase: every subscriber, in order, and one line for each that throws. */
    method RunAfterCommitSubscribers(throws: Throws) returns (called: seq<string>, logged: seq<string>)
      ensures called == InPhase(subscribers, AfterCommit)
      ensures logged == Throwing(called, throws)
      ensures forall name :: multiset(logged)[name] == if throws(name) then multiset(called)[name] else 0
    {
      called, logged := [], [];
      for i := 0 to |subscribers|
        invariant called == InPhase(subscribers[..i], AfterCommit)
        invariant logged == Throwing(called, throws)
      {
        InPhasePrefix(subscribers, i, AfterCommit);
        if subscribers[i].phase != AfterCommit {
          continue;
        }
        ThrowingConcat(called, [subscribers[i].name], throws);
        assert [subscribers[i].name][1..] == [];
        called := called + [subscribers[i].name];
        if throws(subscribers[i].name) {
          logged := logged + [subscribers[i].name];
        }
      }
      assert subscribers[..|subscribers|] == subscribers;
      forall name {
        ThrowingIsExact(called, throws, name);
      }
    }
  }

  /** Distinct names make a dispatch call each subscriber of its phase once. */
  lemma {:induction false} DispatchCallsEachOnce(subscribers: seq<Subscriber>, phase: Phase, name: string)
    requires forall i, j :: 0 <= i < j < |subscribers| ==> subscribers[i].name != subscribers[j].name
    ensures multiset(InPhase(subscribers, phase))[name] ==
            (if Subscriber(name, phase) in subscribers then 1 else 0)
  {
    if subscribers != [] {
      DispatchCallsEachOnce(subscribers[1..], phase, name);
      var first := if subscribers[0].phase == phase then [subscribers[0].name] else [];
      assert InPhase(subscribers, phase) == first + InPhase(subscribers[1..], phase);
      assert Subscriber(name, phase) in subscribers <==>
             Subscriber(name, phase) == subscribers[0] || Subscriber(name, phase) in subscribers[1..];
      assert subscribers[0].name == name ==> Subscriber(name, phase) !in subscribers[1..];
    }
  }
}
