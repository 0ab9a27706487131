/** What a whole tree of frames guarantees about its hooks, its rows and its settled context. */
module TenantHooks {
  import opened Options
  import opened TenantTransaction
  import opened Texts

  // ---------------------------------------------------------------------------------------------
  // Hooks run in order, exactly for the frames that resolved, exactly when the root committed
  // ---------------------------------------------------------------------------------------------

  /** The hooks of the frames that resolved, in the order they resolved. */
  function ResolvedHooks(log: seq<Event>): seq<Queued> {
    if log == [] then []
    else (if log[0].Resolved? then Hooks(log[0].id, log[0].hook) else []) + ResolvedHooks(log[1..])
  }

  lemma {:induction false} ResolvedHooksConcat(a: seq<Event>, b: seq<Event>)
    ensures ResolvedHooks(a + b) == ResolvedHooks(a) + ResolvedHooks(b)
  {
    if a == [] {
      assert a + b == b;
    } else {
      assert (a + b)[1..] == a[1..] + b;
      ResolvedHooksConcat(a[1..], b);
    }
  }

  lemma {:induction false} QueueIsCompletionOrder(c: Context, actions: seq<Action>)
    ensures var r := RunAll(c, actions); r.context.afterCommit == c.afterCommit + ResolvedHooks(r.log)
    decreases actions
  {
    if actions != [] {
      QueueAfterOne(c, actions[0]);
      var first := RunOne(c, actions[0]);
      if first.ok {
        QueueIsCompletionOrder(first.context, actions[1..]);
        ResolvedHooksConcat(first.log, RunAll(first.context, actions[1..]).log);
      }
    }
  }

  lemma {:induction false} QueueAfterOne(c: Context, action: Action)
    ensures var r := RunOne(c, action); r.context.afterCommit == c.afterCommit + ResolvedHooks(r.log)
    decreases action
  {
    match action
    case Try(block) => QueueIsCompletionOrder(c, block);
    case Call(f) =>
      QueueIsCompletionOrder(c, f.body);
      ResolvedHooksConcat(RunAll(c, f.body).log, [Resolved(f.id, f.tenant, f.hook)]);
    case _ =>
  }

  /** Everything up to and including `Settled`, and the hook runs after it. */
  function BeforeHooks(f: Frame, server: Server): seq<Event> {
    if !IsUuid(f.tenant) then [Invalid] else if !server.begins then []
    else
      var r := RunAll(Opened(f), f.body);
      [Began] + r.log + (if r.ok then [Resolved(f.id, f.tenant, f.hook)] else [])
      + [if r.ok && server.commits then Committed else RolledBack, Settled]
  }

  /**
   THE HOOK THEOREM. A root frame's log ends with its hook runs, all of them after the context
   settled: none unless COMMIT returned, and otherwise the root's own hook and then the hooks of the
   frames that resolved, in the order they resolved, whatever any of them threw.
   */
  lemma HooksRunInOrderAfterCommit(f: Frame, server: Server)
    ensures var o := Root(f, server);
            o.log == BeforeHooks(f, server)
                     + (if o.ok
                        then HookRuns(Hooks(f.id, f.hook) + ResolvedHooks(RunAll(Opened(f), f.body).log))
                        else [])
  {
    QueueIsCompletionOrder(Opened(f), f.body);
    if IsUuid(f.tenant) && server.begins {
      var r := RunAll(Opened(f), f.body);
      if r.ok && server.commits {
        assert BeforeHooks(f, server) == [Began] + r.log + [Resolved(f.id, f.tenant, f.hook), Committed, Settled];
      }
    }
  }

  function Resolutions(log: seq<Event>, id: nat): nat {
    if log == [] then 0
    else (if log[0].Resolved? && log[0].id == id && log[0].hook.Some? then 1 else 0) + Resolutions(log[1..], id)
  }

  function Firings(log: seq<Event>, id: nat): nat {
    if log == [] then 0 else (if log[0].HookRan? && log[0].id == id then 1 else 0) + Firings(log[1..], id)
  }

  lemma {:induction false} CountsConcat(a: seq<Event>, b: seq<Event>, id: nat)
    ensures Resolutions(a + b, id) == Resolutions(a, id) + Resolutions(b, id)
    ensures Firings(a + b, id) == Firings(a, id) + Firings(b, id)
  {
    if a == [] {
      assert a + b == b;
    } else {
      assert (a + b)[1..] == a[1..] + b;
      CountsConcat(a[1..], b, id);
    }
  }

  lemma {:induction false} HookRunsConcat(a: seq<Queued>, b: seq<Queued>)
    ensures HookRuns(a + b) == HookRuns(a) + HookRuns(b)
  {
    if a == [] {
      assert a + b == b;
    } else {
      assert (a + b)[1..] == a[1..] + b;
      HookRunsConcat(a[1..], b);
    }
  }

  lemma {:induction false} FiringsAreResolutions(log: seq<Event>, id: nat)
    ensures Firings(HookRuns(ResolvedHooks(log)), id) == Resolutions(log, id)
    ensures Resolutions(HookRuns(ResolvedHooks(log)), id) == 0
  {
    if log != [] {
      FiringsAreResolutions(log[1..], id);
      var one := if log[0].Resolved? then Hooks(log[0].id, log[0].hook) else [];
      HookRunsConcat(one, ResolvedHooks(log[1..]));
      CountsConcat(HookRuns(one), HookRuns(ResolvedHooks(log[1..])), id);
      assert one != [] ==> one[1..] == [];
    }
  }

  /** The frames of the tree that carry the id. */
  function Frames(actions: seq<Action>, id: nat): nat
    decreases actions
  {
    if actions == [] then 0 else FramesIn(actions[0], id) + Frames(actions[1..], id)
  }

  function FramesIn(action: Action, id: nat): nat
    decreases action
  {
    match action
    case Try(block) => Frames(block, id)
    case Call(f) => (if f.id == id then 1 else 0) + Frames(f.body, id)
    case _ => 0
  }

  lemma {:induction false} BodyRunsFramesOnce(c: Context, actions: seq<Action>, id: nat)
    ensures Resolutions(RunAll(c, actions).log, id) <= Frames(actions, id)
    ensures Firings(RunAll(c, actions).log, id) == 0
    decreases actions
  {
    if actions != [] {
      OneRunsFramesOnce(c, actions[0], id);
      var first := RunOne(c, actions[0]);
      if first.ok {
        BodyRunsFramesOnce(first.context, actions[1..], id);
        CountsConcat(first.log, RunAll(first.context, actions[1..]).log, id);
      }
    }
  }

  lemma {:induction false} OneRunsFramesOnce(c: Context, action: Action, id: nat)
    ensures Resolutions(RunOne(c, action).log, id) <= FramesIn(action, id)
    ensures Firings(RunOne(c, action).log, id) == 0
    decreases action
  {
    match action
    case Try(block) => BodyRunsFramesOnce(c, block, id);
    case Call(f) =>
      BodyRunsFramesOnce(c, f.body, id);
      CountsConcat(RunAll(c, f.body).log, [Resolved(f.id, f.tenant, f.hook)], id);
    case _ =>
  }

  /**
   EXACTLY ONCE, IFF. A frame's hook runs as often as the frame resolved if the root committed and
   never otherwise; and a frame resolves at most as often as it stands in the tree.
   */
  lemma HookRunsIffResolvedAndCommitted(f: Frame, server: Server, id: nat)
    ensures var o := Root(f, server);
            Firings(o.log, id) == (if o.ok then Resolutions(o.log, id) else 0)
    ensures Resolutions(Root(f, server).log, id) <= FramesIn(Call(f), id)
  {
    HooksRunInOrderAfterCommit(f, server);
    if IsUuid(f.tenant) && server.begins {
      var body := RunAll(Opened(f), f.body);
      BodyRunsFramesOnce(Opened(f), f.body, id);
      CountsBeforeHooks(f, server, id);
      if body.ok && server.commits {
        var queue := Hooks(f.id, f.hook) + ResolvedHooks(body.log);
        var all := [Resolved(f.id, f.tenant, f.hook)] + body.log;
        assert all[1..] == body.log;
        HookRunsOf(all, queue, id);
        CountsConcat(BeforeHooks(f, server), HookRuns(queue), id);
      } else {
        assert BeforeHooks(f, server) + [] == BeforeHooks(f, server);
      }
    }
  }

  lemma CountsBeforeHooks(f: Frame, server: Server, id: nat)
    requires IsUuid(f.tenant) && server.begins
    ensures Firings(BeforeHooks(f, server), id) == 0
    ensures var body := RunAll(Opened(f), f.body);
            Resolutions(BeforeHooks(f, server), id) ==
            Resolutions(body.log, id) + (if body.ok && f.id == id && f.hook.Some? then 1 else 0)
  {
    var body := RunAll(Opened(f), f.body);
    BodyRunsFramesOnce(Opened(f), f.body, id);
    var own := if body.ok then [Resolved(f.id, f.tenant, f.hook)] else [];
    var end := [if body.ok && server.commits then Committed else RolledBack, Settled];
    SmallLogs(f, id, end);
    CountsConcat([Began], body.log, id);
    CountsConcat([Began] + body.log, own, id);
    CountsConcat([Began] + body.log + own, end, id);
  }

  lemma HookRunsOf(log: seq<Event>, queue: seq<Queued>, id: nat)
    requires log != [] && log[0].Resolved?
    requires queue == Hooks(log[0].id, log[0].hook) + ResolvedHooks(log[1..])
    ensures Firings(HookRuns(queue), id) == Resolutions(log, id) && Resolutions(HookRuns(queue), id) == 0
  {
    FiringsAreResolutions(log, id);
  }

  lemma SmallLogs(f: Frame, id: nat, end: seq<Event>)
    requires |end| == 2 && (end[0].Committed? || end[0].RolledBack?) && end[1].Settled?
    ensures Resolutions([Began], id) == 0 && Firings([Began], id) == 0
    ensures Resolutions([Resolved(f.id, f.tenant, f.hook)], id) == (if f.id == id && f.hook.Some? then 1 else 0)
    ensures Firings([Resolved(f.id, f.tenant, f.hook)], id) == 0
    ensures Resolutions(end, id) == 0 && Firings(end, id) == 0
  {
    assert end[1..] == [end[1]] && end[1..][1..] == [];
  }

  // ---------------------------------------------------------------------------------------------
  // Nothing succeeds on a settled context
  // ---------------------------------------------------------------------------------------------

  predicate Refusal(e: Event) { e.Missing? || e.Invalid? }

  /** Work that resumes after the transaction settled reads nothing, joins nothing, writes nothing. */
  lemma {:induction false} SettledRefusesEverything(c: Context, actions: seq<Action>)
    requires c.settled
    ensures RunAll(c, actions).context == c
    ensures forall e :: e in RunAll(c, actions).log ==> Refusal(e)
    decreases actions
  {
    if actions != [] {
      SettledRefusesOne(c, actions[0]);
      SettledRefusesEverything(c, actions[1..]);
    }
  }

  lemma {:induction false} SettledRefusesOne(c: Context, action: Action)
    requires c.settled
    ensures RunOne(c, action).context == c
    ensures forall e :: e in RunOne(c, action).log ==> Refusal(e)
    ensures !action.Try? ==> !RunOne(c, action).ok
    decreases action
  {
    if action.Try? {
      SettledRefusesEverything(c, action.block);
    }
  }

  // ---------------------------------------------------------------------------------------------
  // All or nothing
  // ---------------------------------------------------------------------------------------------

  /** No failure is caught inside the tree. */
  predicate Unguarded(actions: seq<Action>)
    decreases actions
  {
    actions == [] || (UnguardedOne(actions[0]) && Unguarded(actions[1..]))
  }

  predicate UnguardedOne(action: Action)
    decreases action
  {
    !action.Try? && (action.Call? ==> Unguarded(action.frame.body))
  }

  /** Every row the tree writes, in order, and every hook it carries, children before parents. */
  function Rows(actions: seq<Action>): seq<int>
    decreases actions
  {
    if actions == [] then [] else RowsOf(actions[0]) + Rows(actions[1..])
  }

  function RowsOf(action: Action): seq<int>
    decreases action
  {
    match action
    case Statement(row, _) => [row]
    case Try(block) => Rows(block)
    case Call(f) => Rows(f.body)
    case _ => []
  }

  function HooksIn(actions: seq<Action>): seq<Queued>
    decreases actions
  {
    if actions == [] then [] else HooksOf(actions[0]) + HooksIn(actions[1..])
  }

  function HooksOf(action: Action): seq<Queued>
    decreases action
  {
    match action
    case Try(block) => HooksIn(block)
    case Call(f) => HooksIn(f.body) + Hooks(f.id, f.hook)
    case _ => []
  }

  /** A context after more rows and hooks. */
  function Grown(c: Context, rows: seq<int>, hooks: seq<Queued>): Context {
    c.(staged := c.staged + rows, afterCommit := c.afterCommit + hooks)
  }

  lemma GrownTwice(c: Context, rows: seq<int>, hooks: seq<Queued>, rows': seq<int>, hooks': seq<Queued>)
    ensures Grown(Grown(c, rows, hooks), rows', hooks') == Grown(c, rows + rows', hooks + hooks')
  {
    assert (c.staged + rows) + rows' == c.staged + (rows + rows');
    assert (c.afterCommit + hooks) + hooks' == c.afterCommit + (hooks + hooks');
  }

  lemma {:induction false} UnguardedDoesAll(c: Context, actions: seq<Action>)
    requires Unguarded(actions) && RunAll(c, actions).ok
    ensures RunAll(c, actions).context == Grown(c, Rows(actions), HooksIn(actions))
    decreases actions
  {
    if actions == [] {
      assert c.staged + [] == c.staged && c.afterCommit + [] == c.afterCommit;
    } else {
      UnguardedDoesOne(c, actions[0]);
      UnguardedDoesAll(RunOne(c, actions[0]).context, actions[1..]);
      GrownTwice(c, RowsOf(actions[0]), HooksOf(actions[0]), Rows(actions[1..]), HooksIn(actions[1..]));
    }
  }

  lemma {:induction false} UnguardedDoesOne(c: Context, action: Action)
    requires UnguardedOne(action) && RunOne(c, action).ok
    ensures RunOne(c, action).context == Grown(c, RowsOf(action), HooksOf(action))
    decreases action
  {
    assert c.staged + [] == c.staged && c.afterCommit + [] == c.afterCommit;
    if action.Call? {
      var f := action.frame;
      UnguardedDoesAll(c, f.body);
      GrownTwice(c, Rows(f.body), HooksIn(f.body), [], Hooks(f.id, f.hook));
      assert Rows(f.body) + [] == Rows(f.body);
    }
  }

  /**
   ALL OR NOTHING. When nothing in the tree swallows a failure, either COMMIT returned, every row of
   the tree is stored and every hook of the tree runs, or nothing is stored and no hook runs.
   */
  lemma AllOrNothing(f: Frame, server: Server)
    requires Unguarded(f.body)
    ensures var o := Root(f, server);
            && o.rows == (if o.ok then Rows(f.body) else [])
            && o.log == BeforeHooks(f, server)
                        + (if o.ok then HookRuns(Hooks(f.id, f.hook) + HooksIn(f.body)) else [])
  {
    HooksRunInOrderAfterCommit(f, server);
    if Root(f, server).ok {
      UnguardedDoesAll(Opened(f), f.body);
      QueueIsCompletionOrder(Opened(f), f.body);
    }
  }

  // ---------------------------------------------------------------------------------------------
  // A swallowed failure
  // ---------------------------------------------------------------------------------------------

  ghost predicate SomeFailed(log: seq<Event>) {
    exists i :: 0 <= i < |log| && log[i].Failed?
  }

  lemma SomeFailedConcat(a: seq<Event>, b: seq<Event>)
    ensures SomeFailed(a + b) <==> SomeFailed(a) || SomeFailed(b)
  {
    if SomeFailed(a) {
      var i :| 0 <= i < |a| && a[i].Failed?;
      assert (a + b)[i] == a[i];
    }
    if SomeFailed(b) {
      var i :| 0 <= i < |b| && b[i].Failed?;
      assert (a + b)[|a| + i] == b[i];
    }
  }

  lemma {:induction false} AbortedIffFailed(c: Context, actions: seq<Action>)
    ensures var r := RunAll(c, actions); r.context.aborted <==> c.aborted || SomeFailed(r.log)
    decreases actions
  {
    if actions != [] {
      AbortedIffOneFailed(c, actions[0]);
      var first := RunOne(c, actions[0]);
      if first.ok {
        AbortedIffFailed(first.context, actions[1..]);
        SomeFailedConcat(first.log, RunAll(first.context, actions[1..]).log);
      }
    }
  }

  lemma {:induction false} AbortedIffOneFailed(c: Context, action: Action)
    ensures var r := RunOne(c, action); r.context.aborted <==> c.aborted || SomeFailed(r.log)
    decreases action
  {
    match action
    case Try(block) => AbortedIffFailed(c, block);
    case Call(f) =>
      AbortedIffFailed(c, f.body);
      SomeFailedConcat(RunAll(c, f.body).log, [Resolved(f.id, f.tenant, f.hook)]);
    case Statement(row, ok) =>
      assert RunOne(c, action).log[0] == RunOne(c, action).log[0];
    case _ =>
  }

  /**
   What hooks announce is stored iff no statement failed: a run that resolved although a statement
   failed swallowed that failure, its COMMIT returns, its hooks run and none of its rows is kept.
   */
  lemma CommittedRowsAreKeptIffNoneFailed(f: Frame, server: Server)
    requires Root(f, server).ok
    ensures var r := RunAll(Opened(f), f.body);
            Root(f, server).rows == (if SomeFailed(r.log) then [] else r.context.staged)
  {
    AbortedIffFailed(Opened(f), f.body);
  }

  function Swallowing(tenant: string, id: nat, row: int): Frame {
    Frame(0, tenant, None, [Try([Call(Frame(id, tenant, Some(false), [Statement(row, true), Throw]))])])
  }

  lemma SwallowedRun(tenant: string, id: nat, row: int)
    requires IsUuid(tenant)
    ensures var f := Swallowing(tenant, id, row);
            RunAll(Opened(f), f.body) == Run(true, Opened(f).(staged := [row]), [Wrote(row)])
  {
    var f := Swallowing(tenant, id, row);
    var inner := f.body[0].block[0].frame;
    var d := Opened(f).(staged := [row]);
    assert inner.body[1..] == [Throw];
    assert RunAll(d, [Throw]) == Run(false, d, []);
    assert RunAll(Opened(f), inner.body) == Run(false, d, [Wrote(row)]);
    assert Join(Opened(f), inner) == Run(false, d, [Wrote(row)]);
    assert RunAll(Opened(f), [Call(inner)]) == Run(false, d, [Wrote(row)]);
    assert f.body[1..] == [];
  }

  /** A frame that wrote a row and threw, inside a guard: the row is stored and its hook never runs. */
  lemma SwallowedFrameKeepsItsRow(tenant: string, id: nat, row: int)
    requires IsUuid(tenant)
    ensures var o := Root(Swallowing(tenant, id, row), Server(true, true));
            o.ok && o.rows == [row] && Firings(o.log, id) == 0
  {
    var f := Swallowing(tenant, id, row);
    SwallowedRun(tenant, id, row);
    HookRunsIffResolvedAndCommitted(f, Server(true, true), id);
    HooksRunInOrderAfterCommit(f, Server(true, true));
    CountsBeforeHooks(f, Server(true, true), id);
    assert [Wrote(row)][1..] == [];
    assert BeforeHooks(f, Server(true, true)) + [] == BeforeHooks(f, Server(true, true));
  }

  /** COMMIT returns, the hook runs, and nothing is stored: the body swallowed a refused statement. */
  lemma SwallowedStatementKeepsNothing(tenant: string, row: int)
    requires IsUuid(tenant)
    ensures var o := Root(Frame(0, tenant, Some(false), [Try([Statement(row, false)])]), Server(true, true));
            o.ok && o.rows == [] && Firings(o.log, 0) == 1
  {
    var f := Frame(0, tenant, Some(false), [Try([Statement(row, false)])]);
    var c, d := Opened(f), Opened(f).(aborted := true);
    var block := [Statement(row, false)];
    assert f.body[1..] == [] && f.body[0] == Try(block);
    assert RunAll(c, block) == Run(false, d, [Failed(row)]);
    assert RunOne(c, Try(block)) == Run(true, d, [Failed(row)]);
    assert RunAll(d, []) == Run(true, d, []);
    assert RunAll(c, f.body) == Run(true, d, [Failed(row)]);
    HookRunsIffResolvedAndCommitted(f, Server(true, true), 0);
    HooksRunInOrderAfterCommit(f, Server(true, true));
    CountsBeforeHooks(f, Server(true, true), 0);
    var queue := Hooks(0, Some(false)) + ResolvedHooks([Failed(row)]);
    assert [Failed(row)][1..] == [] && queue == [Queued(0, false)] && queue[1..] == [];
    assert HookRuns(queue) == [HookRan(0, false)] && [HookRan(0, false)][1..] == [];
    CountsConcat(BeforeHooks(f, Server(true, true)), [HookRan(0, false)], 0);
  }

  // ---------------------------------------------------------------------------------------------
  // A link mutation and its invalidator
  // ---------------------------------------------------------------------------------------------

  /**
   The mutation's write, the work its in-transaction subscribers do, and the empty frame that enqueues
   the rest. The work is any actions at all: statements of its own, nested frames, a throw.
   */
  function Mutation(row: int, work: seq<Action>, emit: nat, tenant: string): seq<Action> {
    [Statement(row, true)] + work + [Call(Frame(emit, tenant, Some(false), []))]
  }

  /** The subscribers' run, once the row is written. */
  function Worked(c: Context, row: int, work: seq<Action>): Run {
    RunAll(c.(staged := c.staged + [row]), work)
  }

  /** A context that nested frames of the tenant may join. */
  predicate Live(c: Context, tenant: string) {
    !c.settled && IsUuid(tenant) && c.tenant == ToLowerCase(tenant)
  }

  /**
   In any live context a mutation stages its row iff the transaction is not aborted, and queues its
   after-commit work iff, besides, the in-transaction subscribers resolve; it resolves in that case only.
   */
  lemma MutationRuns(c: Context, row: int, work: seq<Action>, emit: nat, tenant: string)
    requires Live(c, tenant)
    ensures var r, w := RunAll(c, Mutation(row, work, emit, tenant)), Worked(c, row, work);
            && r.ok == (!c.aborted && w.ok)
            && r.context == (if c.aborted then c
                             else if !w.ok then w.context
                             else w.context.(afterCommit := w.context.afterCommit + [Queued(emit, false)]))
  {
    var call := [Call(Frame(emit, tenant, Some(false), []))];
    var m := Mutation(row, work, emit, tenant);
    assert m[0] == Statement(row, true) && m[1..] == work + call;
    if !c.aborted {
      var d := c.(staged := c.staged + [row]);
      RunConcat(d, work, call);
      RunGrows(d, work);
      if Worked(c, row, work).ok {
        EmitRuns(Worked(c, row, work).context, emit, tenant);
      }
    }
  }

  lemma EmitRuns(c: Context, emit: nat, tenant: string)
    requires Live(c, tenant)
    ensures RunAll(c, [Call(Frame(emit, tenant, Some(false), []))]) ==
            Run(true, c.(afterCommit := c.afterCommit + [Queued(emit, false)]), [Resolved(emit, tenant, Some(false))])
  {
    var f := Frame(emit, tenant, Some(false), []);
    assert RunAll(c, f.body) == Run(true, c, []);
    assert Join(c, f).log == [Resolved(emit, tenant, Some(false))];
    assert [Call(f)][1..] == [];
  }

  /** The actions before a point run first, and those after it run in what they left. */
  lemma {:induction false} RunConcat(c: Context, a: seq<Action>, b: seq<Action>)
    ensures var r := RunAll(c, a);
            RunAll(c, a + b) ==
            (if !r.ok then r else
             var s := RunAll(r.context, b); Run(s.ok, s.context, r.log + s.log))
    decreases |a|
  {
    if a == [] {
      assert a + b == b;
      assert [] + RunAll(c, b).log == RunAll(c, b).log;
    } else {
      assert (a + b)[1..] == a[1..] + b;
      var first := RunOne(c, a[0]);
      if first.ok {
        RunConcat(first.context, a[1..], b);
        var rest := RunAll(first.context, a[1..]);
        if rest.ok {
          var s := RunAll(rest.context, b);
          assert first.log + (rest.log + s.log) == (first.log + rest.log) + s.log;
        }
      }
    }
  }

  /** Running actions keeps the context's tenant and its being unsettled, and only adds to the rest. */
  lemma {:induction false} RunGrows(c: Context, actions: seq<Action>)
    ensures var d := RunAll(c, actions).context;
            && d.tenant == c.tenant && d.settled == c.settled && c.staged <= d.staged
            && c.afterCommit <= d.afterCommit && (c.aborted ==> d.aborted)
    decreases actions
  {
    if actions != [] {
      OneGrows(c, actions[0]);
      var first := RunOne(c, actions[0]);
      if first.ok {
        RunGrows(first.context, actions[1..]);
      }
    }
  }

  lemma {:induction false} OneGrows(c: Context, action: Action)
    ensures var d := RunOne(c, action).context;
            && d.tenant == c.tenant && d.settled == c.settled && c.staged <= d.staged
            && c.afterCommit <= d.afterCommit && (c.aborted ==> d.aborted)
    decreases action
  {
    match action
    case Try(block) => RunGrows(c, block);
    case Call(f) => RunGrows(c, f.body);
    case _ =>
  }

  /** Only a row's own statement stages it, and only a frame with the id queues its hook. */
  lemma {:induction false} RunAddsOwn(c: Context, actions: seq<Action>, row: int, id: nat)
    ensures var d := RunAll(c, actions).context;
            && (row !in Rows(actions) ==> (row in d.staged <==> row in c.staged))
            && (Frames(actions, id) == 0 ==> (Holds(d.afterCommit, id) <==> Holds(c.afterCommit, id)))
    decreases actions
  {
    if actions != [] {
      OneAddsOwn(c, actions[0], row, id);
      var first := RunOne(c, actions[0]);
      if first.ok {
        RunAddsOwn(first.context, actions[1..], row, id);
      }
    }
  }

  lemma {:induction false} OneAddsOwn(c: Context, action: Action, row: int, id: nat)
    ensures var d := RunOne(c, action).context;
            && (row !in RowsOf(action) ==> (row in d.staged <==> row in c.staged))
            && (FramesIn(action, id) == 0 ==> (Holds(d.afterCommit, id) <==> Holds(c.afterCommit, id)))
    decreases action
  {
    match action
    case Try(block) => RunAddsOwn(c, block, row, id);
    case Call(f) =>
      RunAddsOwn(c, f.body, row, id);
      if f.id != id {
        HoldsConcat(RunAll(c, f.body).context.afterCommit, Hooks(f.id, f.hook), id);
      }
    case _ =>
  }

  /** The queue holds a hook of the id. */
  ghost predicate Holds(queue: seq<Queued>, id: nat) {
    exists q :: q in queue && q.id == id
  }

  lemma HoldsConcat(a: seq<Queued>, b: seq<Queued>, id: nat)
    ensures Holds(a + b, id) <==> Holds(a, id) || Holds(b, id)
  {
    assert forall q :: q in a + b <==> q in a || q in b;
  }

  lemma {:induction false} FiringsOfQueue(queue: seq<Queued>, id: nat)
    ensures Firings(HookRuns(queue), id) > 0 <==> Holds(queue, id)
  {
    if queue != [] {
      FiringsOfQueue(queue[1..], id);
      assert HookRuns(queue)[1..] == HookRuns(queue[1..]);
      assert queue == [queue[0]] + queue[1..];
      HoldsConcat([queue[0]], queue[1..], id);
      assert Holds([queue[0]], id) <==> queue[0].id == id by {
        assert queue[0] in [queue[0]];
      }
    }
  }

  /** A hook runs iff the root committed with the hook on its queue. */
  lemma FiresIffQueued(f: Frame, server: Server, id: nat)
    ensures var o := Root(f, server);
            Firings(o.log, id) > 0 <==> o.ok && Holds(RunAll(Opened(f), f.body).context.afterCommit, id)
  {
    HooksRunInOrderAfterCommit(f, server);
    HookRunsIffResolvedAndCommitted(f, server, id);
    if Root(f, server).ok {
      QueueIsCompletionOrder(Opened(f), f.body);
      var queue := RunAll(Opened(f), f.body).context.afterCommit;
      CountsBeforeHooks(f, server, id);
      FiringsOfQueue(queue, id);
      CountsConcat(BeforeHooks(f, server), HookRuns(queue), id);
    }
  }

  /**
   The invalidator runs for a link mutation iff the request committed, whatever the code before it, after
   it and inside its subscribers does, catches or fails at; and the mutation's row is stored iff, besides,
   no statement of the request failed.
   */
  lemma InvalidatorRunsIffCommitted(
      f: Frame, server: Server, before: seq<Action>, row: int, work: seq<Action>, emit: nat, after: seq<Action>)
    requires f.body == before + Mutation(row, work, emit, f.tenant) + after
    ensures var o := Root(f, server);
            && (Firings(o.log, emit) > 0 <==> o.ok)
            && (row in o.rows <==> o.ok && !SomeFailed(RunAll(Opened(f), f.body).log))
  {
    FiresIffQueued(f, server, emit);
    if Root(f, server).ok {
      MutationContext(Opened(f), before, row, work, emit, f.tenant, after);
      CommittedRowsAreKeptIffNoneFailed(f, server);
    }
  }

  /** A request that resolves past a mutation has its row staged and its hook queued. */
  lemma MutationContext(
      c: Context, before: seq<Action>, row: int, work: seq<Action>, emit: nat, tenant: string, after: seq<Action>)
    requires Live(c, tenant) && RunAll(c, before + Mutation(row, work, emit, tenant) + after).ok
    ensures var d := RunAll(c, before + Mutation(row, work, emit, tenant) + after).context;
            row in d.staged && Holds(d.afterCommit, emit)
  {
    var m := Mutation(row, work, emit, tenant);
    var p := RunAll(c, before);
    assert before + m + after == before + (m + after);
    RunConcat(c, before, m + after);
    RunGrows(c, before);
    RunConcat(p.context, m, after);
    MutationRuns(p.context, row, work, emit, tenant);
    RowStaysStaged(p.context, row, work);
    var q := RunAll(p.context, m).context;
    RunGrows(q, after);
    assert q.afterCommit[|q.afterCommit| - 1] == Queued(emit, false);
    GrownHolds(q, RunAll(q, after).context, row, Queued(emit, false));
  }

  lemma RowStaysStaged(c: Context, row: int, work: seq<Action>)
    ensures row in Worked(c, row, work).context.staged
  {
    var d := c.(staged := c.staged + [row]);
    RunGrows(d, work);
    assert d.staged[|c.staged|] == row;
    assert Worked(c, row, work).context.staged[|c.staged|] == row;
  }

  lemma GrownHolds(c: Context, d: Context, row: int, q: Queued)
    requires c.staged <= d.staged && c.afterCommit <= d.afterCommit && row in c.staged && q in c.afterCommit
    ensures row in d.staged && Holds(d.afterCommit, q.id)
  {
    var i :| 0 <= i < |c.staged| && c.staged[i] == row;
    var j :| 0 <= j < |c.afterCommit| && c.afterCommit[j] == q;
    assert d.staged[i] == row && d.afterCommit[j] == q;
  }

  /**
   The same inside a guard that swallows whatever the mutation throws: the row is stored without its
   after-commit work exactly when the subscribers' work threw.
   */
  lemma GuardedMutation(
      f: Frame, server: Server, before: seq<Action>, row: int, work: seq<Action>, emit: nat, after: seq<Action>)
    requires f.body == before + [Try(Mutation(row, work, emit, f.tenant))] + after && f.id != emit
    requires Frames(before, emit) == 0 && Frames(work, emit) == 0 && Frames(after, emit) == 0
    ensures var o := Root(f, server);
            var failed := SomeFailed(RunAll(Opened(f), f.body).log);
            var threw := !Worked(RunAll(Opened(f), before).context, row, work).ok;
            && (row in o.rows <==> o.ok && !failed)
            && (row in o.rows && Firings(o.log, emit) == 0 <==> o.ok && !failed && threw)
  {
    FiresIffQueued(f, server, emit);
    if Root(f, server).ok {
      var c := Opened(f);
      GuardedContext(c, before, row, work, emit, f.tenant, after);
      assert f.body == before + [Try(Mutation(row, work, emit, f.tenant))] + after;
      AbortedIffFailed(c, f.body);
      CommittedRowsAreKeptIffNoneFailed(f, server);
    }
  }

  /** What a request that resolves around a guarded mutation leaves of it. */
  lemma GuardedContext(
      c: Context, before: seq<Action>, row: int, work: seq<Action>, emit: nat, tenant: string, after: seq<Action>)
    requires Live(c, tenant) && !Holds(c.afterCommit, emit)
    requires Frames(before, emit) == 0 && Frames(work, emit) == 0 && Frames(after, emit) == 0
    requires RunAll(c, before + [Try(Mutation(row, work, emit, tenant))] + after).ok
    ensures var d := RunAll(c, before + [Try(Mutation(row, work, emit, tenant))] + after).context;
            var threw := !Worked(RunAll(c, before).context, row, work).ok;
            !d.aborted ==> row in d.staged && (Holds(d.afterCommit, emit) <==> !threw)
  {
    var m := Mutation(row, work, emit, tenant);
    var p := RunAll(c, before);
    GuardRuns(c, before, m, after);
    RunGrows(c, before);
    RunAddsOwn(c, before, row, emit);
    GuardedStep(p.context, row, work, emit, tenant);
    var q := RunAll(p.context, m).context;
    RunGrows(q, after);
    RunAddsOwn(q, after, row, emit);
  }

  /** A request that resolves around a guard ran what is before, in and after it, each in what the last left. */
  lemma GuardRuns(c: Context, before: seq<Action>, block: seq<Action>, after: seq<Action>)
    requires RunAll(c, before + [Try(block)] + after).ok
    ensures RunAll(c, before + [Try(block)] + after).context ==
            RunAll(RunAll(RunAll(c, before).context, block).context, after).context
  {
    assert before + [Try(block)] + after == before + ([Try(block)] + after);
    RunConcat(c, before, [Try(block)] + after);
    assert ([Try(block)] + after)[1..] == after;
  }

  lemma GuardedStep(c: Context, row: int, work: seq<Action>, emit: nat, tenant: string)
    requires Live(c, tenant) && !Holds(c.afterCommit, emit) && Frames(work, emit) == 0
    ensures var d := RunAll(c, Mutation(row, work, emit, tenant)).context;
            !d.aborted ==> row in d.staged && (Holds(d.afterCommit, emit) <==> Worked(c, row, work).ok)
  {
    MutationRuns(c, row, work, emit, tenant);
    if !c.aborted {
      RowStaysStaged(c, row, work);
      RunAddsOwn(c.(staged := c.staged + [row]), work, row, emit);
      HoldsConcat(Worked(c, row, work).context.afterCommit, [Queued(emit, false)], emit);
      assert [Queued(emit, false)][0] in [Queued(emit, false)];
    }
  }

  /** Subscribers that do not throw while their transaction is usable, and leave the row and the frame id alone. */
  ghost predicate Harmless(work: seq<Action>, row: int, emit: nat, tenant: string) {
    && row !in Rows(work) && Frames(work, emit) == 0
    && forall c: Context :: Live(c, tenant) && !c.aborted ==> RunAll(c, work).ok
  }

  predicate StartsWithMutation(actions: seq<Action>, row: int, work: seq<Action>, emit: nat, tenant: string) {
    |actions| >= |work| + 2 && actions[..|work| + 2] == Mutation(row, work, emit, tenant)
  }

  /** The tree writes the row, and uses the frame id, in the mutation only, however often and wherever. */
  predicate OnlyMutates(actions: seq<Action>, row: int, work: seq<Action>, emit: nat, tenant: string)
    decreases actions
  {
    || actions == []
    || (StartsWithMutation(actions, row, work, emit, tenant)
        && OnlyMutates(actions[|work| + 2..], row, work, emit, tenant))
    || (OtherAction(actions[0], row, work, emit, tenant) && OnlyMutates(actions[1..], row, work, emit, tenant))
  }

  predicate OtherAction(action: Action, row: int, work: seq<Action>, emit: nat, tenant: string)
    decreases action
  {
    match action
    case Statement(r, _) => r != row
    case Try(block) => OnlyMutates(block, row, work, emit, tenant)
    case Call(f) => f.id != emit && OnlyMutates(f.body, row, work, emit, tenant)
    case _ => true
  }

  /** The row is staged exactly when its hook is queued. */
  ghost predicate Paired(c: Context, row: int, emit: nat) {
    row in c.staged <==> Holds(c.afterCommit, emit)
  }

  lemma MutationKeepsPairs(c: Context, row: int, work: seq<Action>, emit: nat, tenant: string)
    requires Harmless(work, row, emit, tenant) && Live(c, tenant) && Paired(c, row, emit)
    ensures var r := RunAll(c, Mutation(row, work, emit, tenant));
            Paired(r.context, row, emit) && Live(r.context, tenant)
  {
    MutationRuns(c, row, work, emit, tenant);
    if !c.aborted {
      var d := c.(staged := c.staged + [row]);
      assert Live(d, tenant) && RunAll(d, work).ok;
      RunGrows(d, work);
      RowStaysStaged(c, row, work);
      HoldsConcat(Worked(c, row, work).context.afterCommit, [Queued(emit, false)], emit);
      assert [Queued(emit, false)][0] in [Queued(emit, false)];
    }
  }

  lemma {:induction false} RunKeepsPairs(
      c: Context, actions: seq<Action>, row: int, work: seq<Action>, emit: nat, tenant: string)
    requires Harmless(work, row, emit, tenant)
    requires OnlyMutates(actions, row, work, emit, tenant) && Live(c, tenant) && Paired(c, row, emit)
    ensures Paired(RunAll(c, actions).context, row, emit)
    decreases actions
  {
    if actions != [] {
      var n := |work| + 2;
      if StartsWithMutation(actions, row, work, emit, tenant) && OnlyMutates(actions[n..], row, work, emit, tenant) {
        assert actions == actions[..n] + actions[n..];
        RunConcat(c, actions[..n], actions[n..]);
        MutationKeepsPairs(c, row, work, emit, tenant);
        RunKeepsPairs(RunAll(c, actions[..n]).context, actions[n..], row, work, emit, tenant);
      } else {
        OneKeepsPairs(c, actions[0], row, work, emit, tenant);
        OneGrows(c, actions[0]);
        var first := RunOne(c, actions[0]);
        if first.ok {
          RunKeepsPairs(first.context, actions[1..], row, work, emit, tenant);
        }
      }
    }
  }

  lemma {:induction false} OneKeepsPairs(
      c: Context, action: Action, row: int, work: seq<Action>, emit: nat, tenant: string)
    requires Harmless(work, row, emit, tenant)
    requires OtherAction(action, row, work, emit, tenant) && Live(c, tenant) && Paired(c, row, emit)
    ensures Paired(RunOne(c, action).context, row, emit)
    decreases action
  {
    match action
    case Try(block) => RunKeepsPairs(c, block, row, work, emit, tenant);
    case Call(f) =>
      RunKeepsPairs(c, f.body, row, work, emit, tenant);
      HoldsConcat(RunAll(c, f.body).context.afterCommit, Hooks(f.id, f.hook), emit);
    case _ =>
  }

  /**
   STORED IFF ANNOUNCED. Wherever a link mutation stands in the request, in nested frames or inside
   guards that swallow what they like, its row is stored iff its after-commit work runs, as long as its
   in-transaction subscribers do not throw and no statement of the request failed.
   */
  lemma StoredIffAnnounced(f: Frame, server: Server, row: int, work: seq<Action>, emit: nat)
    requires Harmless(work, row, emit, f.tenant)
    requires OnlyMutates(f.body, row, work, emit, f.tenant) && f.id != emit
    ensures var o := Root(f, server);
            row in o.rows <==> Firings(o.log, emit) > 0 && !SomeFailed(RunAll(Opened(f), f.body).log)
  {
    FiresIffQueued(f, server, emit);
    if Root(f, server).ok {
      assert !Holds(Opened(f).afterCommit, emit);
      RunKeepsPairs(Opened(f), f.body, row, work, emit, f.tenant);
      CommittedRowsAreKeptIffNoneFailed(f, server);
    }
  }

  // ---------------------------------------------------------------------------------------------
  // Why nested frames must be awaited
  // ---------------------------------------------------------------------------------------------

  /**
   A root transaction and nested frames nobody awaits: `inside` are the frames that joined and have not
   resolved, `next` counts the hooks that have run, and the root's loop reads the live queue.
   */
  datatype Life = Life(inside: set<nat>, queue: seq<nat>, settled: bool, committed: bool, next: nat, drained: bool)

  datatype LifeStep =
    | Joins(id: nat)
    | Resolves(id: nat)
    | Settles(committed: bool)
    | RunsNext
    | Drains

  /** A join on a settled context is refused, so it is no step. */
  predicate CanStep(d: Life, step: LifeStep) {
    match step
    case Joins(_) => !d.settled
    case Resolves(id) => id in d.inside
    case Settles(_) => !d.settled
    case RunsNext => d.settled && d.committed && !d.drained && d.next < |d.queue|
    case Drains => d.settled && d.committed && !d.drained && d.next == |d.queue|
  }

  function Stepped(d: Life, step: LifeStep): Life
    requires CanStep(d, step)
  {
    match step
    case Joins(id) => d.(inside := d.inside + {id})
    case Resolves(id) => d.(inside := d.inside - {id}, queue := d.queue + [id])
    case Settles(committed) => d.(settled := true, committed := committed)
    case RunsNext => d.(next := d.next + 1)
    case Drains => d.(drained := true)
  }

  ghost predicate Lives(d: Life, steps: seq<LifeStep>, e: Life)
    decreases |steps|
  {
    if steps == [] then d == e else CanStep(d, steps[0]) && Lives(Stepped(d, steps[0]), steps[1..], e)
  }

  function ResolvedIn(steps: seq<LifeStep>): seq<nat> {
    if steps == [] then [] else (if steps[0].Resolves? then [steps[0].id] else []) + ResolvedIn(steps[1..])
  }

  lemma {:induction false} QueueKeepsResolutions(d: Life, steps: seq<LifeStep>, e: Life)
    requires Lives(d, steps, e) && d.next <= |d.queue|
    ensures e.queue == d.queue + ResolvedIn(steps) && e.next <= |e.queue|
    ensures d.drained || (d.settled && !d.committed) ==> e.next == d.next
    ensures d.settled ==> e.settled && e.committed == d.committed
    decreases |steps|
  {
    if steps != [] {
      var next := Stepped(d, steps[0]);
      QueueKeepsResolutions(next, steps[1..], e);
      var first := if steps[0].Resolves? then [steps[0].id] else [];
      assert next.queue == d.queue + first;
      assert ResolvedIn(steps) == first + ResolvedIn(steps[1..]);
    }
  }

  /** After settling only frames that had joined resolve: a late join puts nothing on the queue. */
  lemma {:induction false} OnlyJoinedFramesResolve(d: Life, steps: seq<LifeStep>, e: Life, id: nat)
    requires Lives(d, steps, e) && d.settled
    ensures id in ResolvedIn(steps) ==> id in d.inside
    decreases |steps|
  {
    if steps != [] {
      OnlyJoinedFramesResolve(Stepped(d, steps[0]), steps[1..], e, id);
    }
  }

  /**
   The hooks of a committed root run in resolution order, and a frame nobody awaited has its hook run
   iff it resolved before the root found the queue drained; after that nobody is left to run it.
   */
  lemma DetachedHookRunsIffPushedInTime(
      d: Life, early: seq<LifeStep>, e: Life, late: seq<LifeStep>, end: Life)
    requires d.next == 0 && !d.settled && !d.drained
    requires Lives(d, early, e) && CanStep(e, Drains) && Lives(Stepped(e, Drains), late, end)
    ensures end.next <= |end.queue| && end.queue[..end.next] == d.queue + ResolvedIn(early)
    ensures end.queue[end.next..] == ResolvedIn(late)
    ensures forall id :: id in ResolvedIn(late) ==> id in e.inside
  {
    QueueKeepsResolutions(d, early, e);
    QueueKeepsResolutions(Stepped(e, Drains), late, end);
    forall id | id in ResolvedIn(late) ensures id in e.inside {
      OnlyJoinedFramesResolve(Stepped(e, Drains), late, end, id);
    }
  }

  /** And no hook of a root that rolled back ever runs, whatever still resolves inside it. */
  lemma RolledBackRunsNothing(d: Life, early: seq<LifeStep>, e: Life, late: seq<LifeStep>, end: Life)
    requires d.next == 0 && !d.settled && !d.drained
    requires Lives(d, early, e) && CanStep(e, Settles(false)) && Lives(Stepped(e, Settles(false)), late, end)
    ensures end.next == 0
  {
    NothingRunsBeforeSettling(d, early, e);
    QueueKeepsResolutions(d, early, e);
    QueueKeepsResolutions(Stepped(e, Settles(false)), late, end);
  }

  lemma {:induction false} NothingRunsBeforeSettling(d: Life, steps: seq<LifeStep>, e: Life)
    requires Lives(d, steps, e) && !e.settled
    ensures e.next == d.next && !d.settled
    decreases |steps|
  {
    if steps != [] {
      NothingRunsBeforeSettling(Stepped(d, steps[0]), steps[1..], e);
    }
  }
}
