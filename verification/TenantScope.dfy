/** Whose work a transaction does: nothing but its root's tenant's, and all of it or none. */
module TenantScope {
  import opened Options
  import opened TenantTransaction
  import opened TenantHooks
  import opened Texts

  // ---------------------------------------------------------------------------------------------
  // Only the root's tenant
  // ---------------------------------------------------------------------------------------------

  /** What a log says of a tenant, it says of this one. */
  ghost predicate SpeaksOf(log: seq<Event>, tenant: string) {
    forall e :: e in log ==>
      && (e.Resolved? ==> IsUuid(e.tenant) && ToLowerCase(e.tenant) == tenant)
      && (e.Seen? ==> e.tenant == tenant)
  }

  lemma {:induction false} RunSpeaksOf(c: Context, actions: seq<Action>)
    ensures SpeaksOf(RunAll(c, actions).log, c.tenant)
    decreases actions
  {
    if actions != [] {
      OneSpeaksOf(c, actions[0]);
      var first := RunOne(c, actions[0]);
      if first.ok {
        OneGrows(c, actions[0]);
        RunSpeaksOf(first.context, actions[1..]);
      }
    }
  }

  lemma {:induction false} OneSpeaksOf(c: Context, action: Action)
    ensures SpeaksOf(RunOne(c, action).log, c.tenant)
    decreases action
  {
    match action
    case Try(block) => RunSpeaksOf(c, block);
    case Call(f) => RunSpeaksOf(c, f.body);
    case _ =>
  }

  lemma {:induction false} HookRunsOnly(queue: seq<Queued>)
    ensures forall e :: e in HookRuns(queue) ==> e.HookRan?
  {
    if queue != [] {
      HookRunsOnly(queue[1..]);
    }
  }

  /** Every frame that resolves inside a root, and every read it does, is of the root's own tenant. */
  lemma OnlyTheRootsTenant(f: Frame, server: Server)
    ensures SpeaksOf(Root(f, server).log, ToLowerCase(f.tenant))
  {
    if IsUuid(f.tenant) && server.begins {
      var r := RunAll(Opened(f), f.body);
      RunSpeaksOf(Opened(f), f.body);
      HookRunsOnly(r.context.afterCommit);
    }
  }

  // ---------------------------------------------------------------------------------------------
  // A foreign frame
  // ---------------------------------------------------------------------------------------------

  /** A frame that names another tenant, or none. */
  predicate Foreign(f: Frame, tenant: string) {
    !IsUuid(f.tenant) || ToLowerCase(f.tenant) != tenant
  }

  /** Trees that differ in the bodies of foreign frames and in nothing else. */
  predicate Alike(a: seq<Action>, b: seq<Action>, tenant: string)
    decreases a
  {
    |a| == |b| && (a == [] || (AlikeOne(a[0], b[0], tenant) && Alike(a[1..], b[1..], tenant)))
  }

  predicate AlikeOne(a: Action, b: Action, tenant: string)
    decreases a
  {
    match a
    case Try(block) => b.Try? && Alike(block, b.block, tenant)
    case Call(f) =>
      && b.Call? && f.id == b.frame.id && f.tenant == b.frame.tenant && f.hook == b.frame.hook
      && (Foreign(f, tenant) || Alike(f.body, b.frame.body, tenant))
    case _ => a == b
  }

  lemma {:induction false} AlikeRuns(c: Context, a: seq<Action>, b: seq<Action>)
    requires Alike(a, b, c.tenant)
    ensures RunAll(c, a) == RunAll(c, b)
    decreases a
  {
    if a != [] {
      AlikeRunsOne(c, a[0], b[0]);
      var first := RunOne(c, a[0]);
      if first.ok {
        OneGrows(c, a[0]);
        AlikeRuns(first.context, a[1..], b[1..]);
      }
    }
  }

  lemma {:induction false} AlikeRunsOne(c: Context, a: Action, b: Action)
    requires AlikeOne(a, b, c.tenant)
    ensures RunOne(c, a) == RunOne(c, b)
    decreases a
  {
    match a
    case Try(block) => AlikeRuns(c, block, b.block);
    case Call(f) =>
      if !Foreign(f, c.tenant) {
        AlikeRuns(c, f.body, b.frame.body);
      }
    case _ =>
  }

  /**
   WHAT STANDS INSIDE A FOREIGN FRAME DOES NOT RUN. With any other body in its place the root ends the
   same: the same rows, the same log, so no row, no hook and no read of it is there.
   */
  lemma ForeignBodiesNeverRun(f: Frame, body: seq<Action>, server: Server)
    requires Alike(f.body, body, ToLowerCase(f.tenant))
    ensures Root(f.(body := body), server) == Root(f, server)
  {
    AlikeRuns(Opened(f), f.body, body);
  }

  // ---------------------------------------------------------------------------------------------
  // When a root commits, and what it throws when it does not
  // ---------------------------------------------------------------------------------------------

  /** The first thing that fails in a tree without guards, as the log's last words on it. */
  function FirstFlaw(actions: seq<Action>, tenant: string): Option<seq<Event>>
    decreases actions
  {
    if actions == [] then None
    else
      var flaw := FlawOf(actions[0], tenant);
      if flaw.Some? then flaw else FirstFlaw(actions[1..], tenant)
  }

  function FlawOf(action: Action, tenant: string): Option<seq<Event>>
    decreases action
  {
    match action
    case Throw => Some([])
    case Statement(row, ok) => if ok then None else Some([Failed(row)])
    case Call(f) =>
      if !IsUuid(f.tenant) then Some([Invalid])
      else if ToLowerCase(f.tenant) != tenant then Some([Mismatch])
      else FirstFlaw(f.body, tenant)
    case _ => None
  }

  predicate EndsIn(log: seq<Event>, last: seq<Event>) {
    |last| <= |log| && log[|log| - |last|..] == last
  }

  lemma {:induction false} UnguardedRun(c: Context, actions: seq<Action>)
    requires Unguarded(actions) && !c.settled && !c.aborted
    ensures var r, flaw := RunAll(c, actions), FirstFlaw(actions, c.tenant);
            && (r.ok <==> flaw.None?) && (flaw.Some? ==> EndsIn(r.log, flaw.value))
    decreases actions
  {
    if actions != [] {
      UnguardedRunOne(c, actions[0]);
      var first := RunOne(c, actions[0]);
      if first.ok {
        UnguardedDoesOne(c, actions[0]);
        UnguardedRun(first.context, actions[1..]);
      }
    }
  }

  lemma {:induction false} UnguardedRunOne(c: Context, action: Action)
    requires UnguardedOne(action) && !c.settled && !c.aborted
    ensures var r, flaw := RunOne(c, action), FlawOf(action, c.tenant);
            && (r.ok <==> flaw.None?) && (flaw.Some? ==> EndsIn(r.log, flaw.value))
    decreases action
  {
    if action.Call? {
      UnguardedRun(c, action.frame.body);
    }
  }

  /**
   COMMITS IFF NOTHING IS WRONG. A root whose tree swallows nothing commits iff its tenant is a uuid,
   BEGIN and COMMIT return and no statement fails, nothing throws and no frame names another tenant or
   none, anywhere in the tree. Otherwise nothing is stored, and the first flaw is the last thing logged
   before the rollback.
   */
  lemma CommitsIffFlawless(f: Frame, server: Server)
    requires Unguarded(f.body)
    ensures var o, flaw := Root(f, server), FirstFlaw(f.body, ToLowerCase(f.tenant));
            && (o.ok <==> IsUuid(f.tenant) && server == Server(true, true) && flaw.None?)
            && o.rows == (if o.ok then Rows(f.body) else [])
            && (IsUuid(f.tenant) && server.begins && flaw.Some? ==> EndsIn(o.log, flaw.value + [RolledBack, Settled]))
  {
    AllOrNothing(f, server);
    if IsUuid(f.tenant) {
      UnguardedRun(Opened(f), f.body);
    }
  }

  /** The tree calls a frame of another tenant, or of none, at any depth. */
  predicate CallsForeign(actions: seq<Action>, tenant: string)
    decreases actions
  {
    actions != [] && (OneCallsForeign(actions[0], tenant) || CallsForeign(actions[1..], tenant))
  }

  predicate OneCallsForeign(action: Action, tenant: string)
    decreases action
  {
    match action
    case Try(block) => CallsForeign(block, tenant)
    case Call(f) => Foreign(f, tenant) || CallsForeign(f.body, tenant)
    case _ => false
  }

  lemma {:induction false} ForeignIsAFlaw(actions: seq<Action>, tenant: string)
    requires Unguarded(actions) && CallsForeign(actions, tenant)
    ensures FirstFlaw(actions, tenant).Some?
    decreases actions
  {
    if OneCallsForeign(actions[0], tenant) {
      ForeignCallIsAFlaw(actions[0], tenant);
    } else {
      ForeignIsAFlaw(actions[1..], tenant);
    }
  }

  lemma {:induction false} ForeignCallIsAFlaw(action: Action, tenant: string)
    requires UnguardedOne(action) && OneCallsForeign(action, tenant)
    ensures FlawOf(action, tenant).Some?
    decreases action
  {
    if !Foreign(action.frame, tenant) {
      ForeignIsAFlaw(action.frame.body, tenant);
    }
  }

  /** A tree that swallows nothing and calls a foreign frame anywhere stores nothing and runs no hook. */
  lemma ForeignFrameUndoesAll(f: Frame, server: Server, id: nat)
    requires Unguarded(f.body) && CallsForeign(f.body, ToLowerCase(f.tenant))
    ensures var o := Root(f, server); !o.ok && o.rows == [] && Firings(o.log, id) == 0
  {
    ForeignIsAFlaw(f.body, ToLowerCase(f.tenant));
    CommitsIffFlawless(f, server);
    HookRunsIffResolvedAndCommitted(f, server, id);
  }

  // ---------------------------------------------------------------------------------------------
  // What the log says of the rows and the hooks
  // ---------------------------------------------------------------------------------------------

  /** The rows the log says were written, in order. */
  function WrittenRows(log: seq<Event>): seq<int> {
    if log == [] then [] else RowOf(log[0]) + WrittenRows(log[1..])
  }

  function RowOf(e: Event): seq<int> {
    if e.Wrote? then [e.row] else []
  }

  lemma Regrouped(a: seq<int>, b: seq<int>, c: seq<int>)
    ensures a + (b + c) == (a + b) + c
  {
  }

  lemma {:induction false} WrittenRowsConcat(a: seq<Event>, b: seq<Event>)
    ensures WrittenRows(a + b) == WrittenRows(a) + WrittenRows(b)
  {
    if a == [] {
      assert a + b == b && [] + WrittenRows(b) == WrittenRows(b);
    } else {
      WrittenRowsConcat(a[1..], b);
      var all, first := a + b, RowOf(a[0]);
      assert all[0] == a[0] && all[1..] == a[1..] + b;
      Regrouped(first, WrittenRows(a[1..]), WrittenRows(b));
    }
  }

  lemma {:induction false} StagedIsWritten(c: Context, actions: seq<Action>)
    ensures RunAll(c, actions).context.staged == c.staged + WrittenRows(RunAll(c, actions).log)
    decreases actions
  {
    if actions != [] {
      StagedIsWrittenByOne(c, actions[0]);
      var first := RunOne(c, actions[0]);
      if first.ok {
        StagedIsWritten(first.context, actions[1..]);
        WrittenRowsConcat(first.log, RunAll(first.context, actions[1..]).log);
      }
    }
  }

  lemma {:induction false} StagedIsWrittenByOne(c: Context, action: Action)
    ensures RunOne(c, action).context.staged == c.staged + WrittenRows(RunOne(c, action).log)
    decreases action
  {
    match action
    case Try(block) => StagedIsWritten(c, block);
    case Call(f) =>
      StagedIsWritten(c, f.body);
      WrittenRowsConcat(RunAll(c, f.body).log, [Resolved(f.id, f.tenant, f.hook)]);
    case _ =>
  }

  /** Once a statement has failed no other one succeeds, whatever catches the failure. */
  ghost predicate StopsAtAFailure(log: seq<Event>) {
    forall i, j :: 0 <= i < j < |log| && log[i].Failed? ==> !log[j].Wrote?
  }

  ghost predicate WritesNothing(log: seq<Event>) {
    forall i :: 0 <= i < |log| ==> !log[i].Wrote?
  }

  lemma {:induction false} AbortedWritesNothing(c: Context, actions: seq<Action>)
    ensures c.aborted ==> WritesNothing(RunAll(c, actions).log)
    ensures StopsAtAFailure(RunAll(c, actions).log)
    decreases actions
  {
    if actions != [] {
      AbortedWritesNothingByOne(c, actions[0]);
      var first := RunOne(c, actions[0]);
      if first.ok {
        AbortedIffOneFailed(c, actions[0]);
        AbortedWritesNothing(first.context, actions[1..]);
        if !first.context.aborted {
          assert forall i :: 0 <= i < |first.log| ==> !first.log[i].Failed?;
        }
      }
    }
  }

  lemma {:induction false} AbortedWritesNothingByOne(c: Context, action: Action)
    ensures c.aborted ==> WritesNothing(RunOne(c, action).log)
    ensures StopsAtAFailure(RunOne(c, action).log)
    decreases action
  {
    match action
    case Try(block) => AbortedWritesNothing(c, block);
    case Call(f) => AbortedWritesNothing(c, f.body);
    case _ =>
  }

  /**
   WHAT IS STORED IS WHAT WAS WRITTEN. A root that commits stores the rows its log says were written, in
   their order, unless one of its statements failed, and then nothing; nothing is written after a failed
   statement. A root that does not commit stores nothing and logs no commit.
   */
  lemma StoredIsWritten(f: Frame, server: Server)
    ensures var o := Root(f, server);
            && (o.ok ==> IsUuid(f.tenant) && server == Server(true, true) && Committed in o.log)
            && (!o.ok ==> o.rows == [] && Committed !in o.log)
            && (o.ok ==> o.rows == if SomeFailed(RunAll(Opened(f), f.body).log) then []
                                   else WrittenRows(RunAll(Opened(f), f.body).log))
    ensures StopsAtAFailure(RunAll(Opened(f), f.body).log)
  {
    StagedIsWritten(Opened(f), f.body);
    NoHookRunsInside(Opened(f), f.body);
    AbortedWritesNothing(Opened(f), f.body);
    AbortedIffFailed(Opened(f), f.body);
  }

  /** Hooks that ran reported what their frames' hooks do: a throw for the ones that throw, and no other. */
  lemma HooksReportTheirThrows(f: Frame, server: Server, id: nat, threw: bool)
    ensures HookRan(id, threw) in Root(f, server).log ==>
              exists tenant :: Resolved(id, tenant, Some(threw)) in Root(f, server).log
  {
    if HookRan(id, threw) in Root(f, server).log && IsUuid(f.tenant) && server.begins {
      var r := RunAll(Opened(f), f.body);
      NoHookRunsInside(Opened(f), f.body);
      if r.ok && server.commits {
        QueueIsCompletionOrder(Opened(f), f.body);
        QueuedOf(r.context.afterCommit, id, threw);
        if Queued(id, threw) in Hooks(f.id, f.hook) {
          assert Resolved(f.id, f.tenant, f.hook) in Root(f, server).log;
        } else {
          var tenant := ResolvedOf(r.log, id, threw);
          assert Resolved(id, tenant, Some(threw)) in Root(f, server).log;
        }
      }
    }
  }

  lemma {:induction false} QueuedOf(queue: seq<Queued>, id: nat, threw: bool)
    ensures HookRan(id, threw) in HookRuns(queue) ==> Queued(id, threw) in queue
  {
    if queue != [] {
      QueuedOf(queue[1..], id, threw);
    }
  }

  lemma {:induction false} ResolvedOf(log: seq<Event>, id: nat, threw: bool) returns (tenant: string)
    requires Queued(id, threw) in ResolvedHooks(log)
    ensures Resolved(id, tenant, Some(threw)) in log
  {
    if log[0].Resolved? && Queued(id, threw) in Hooks(log[0].id, log[0].hook) {
      tenant := log[0].tenant;
    } else {
      tenant := ResolvedOf(log[1..], id, threw);
    }
  }

  lemma {:induction false} NoHookRunsInside(c: Context, actions: seq<Action>)
    ensures forall e :: e in RunAll(c, actions).log ==> !e.HookRan? && !e.Committed?
    decreases actions
  {
    if actions != [] {
      NoHookRunsInOne(c, actions[0]);
      if RunOne(c, actions[0]).ok {
        NoHookRunsInside(RunOne(c, actions[0]).context, actions[1..]);
      }
    }
  }

  lemma {:induction false} NoHookRunsInOne(c: Context, action: Action)
    ensures forall e :: e in RunOne(c, action).log ==> !e.HookRan? && !e.Committed?
    decreases action
  {
    match action
    case Try(block) => NoHookRunsInside(c, block);
    case Call(f) => NoHookRunsInside(c, f.body);
    case _ =>
  }
}
