/** `withTenantTransaction`: a root frame's one transaction, the nested frames that join it, its hooks. */
module TenantTransaction {
  /*
   A root frame opens one transaction, nested frames join it, and the hooks of the frames whose bodies
   resolved run after the commit. A frame's body is a list of awaited actions.
   */

  import opened Options
  import opened Texts

  /** `hook` is the frame's after-commit hook, if it has one, and whether that hook throws. */
  datatype Frame = Frame(id: nat, tenant: string, hook: Option<bool>, body: seq<Action>)

  datatype Action =
    | Read
    | Statement(row: int, ok: bool)
    | Throw
    | Try(block: seq<Action>)
    | Call(frame: Frame)

  datatype Queued = Queued(id: nat, throws: bool)

  datatype Event =
    | Began
    | Invalid
    | Missing
    | Mismatch
    | Seen(tenant: string)
    | Wrote(row: int)
    | Failed(row: int)
    | Resolved(id: nat, tenant: string, hook: Option<bool>)
    | Committed
    | RolledBack
    | Settled
    | HookRan(id: nat, threw: bool)

  /** What the pool does with a root transaction: whether BEGIN and COMMIT return. */
  datatype Server = Server(begins: bool, commits: bool)

  /** The shared context as a value, with the statements its transaction holds uncommitted. */
  datatype Context = Context(tenant: string, settled: bool, afterCommit: seq<Queued>, staged: seq<int>, aborted: bool)

  datatype Run = Run(ok: bool, context: Context, log: seq<Event>)

  // ---------------------------------------------------------------------------------------------
  // What a tree of frames means
  // ---------------------------------------------------------------------------------------------

  function Hooks(id: nat, hook: Option<bool>): seq<Queued> {
    if hook.Some? then [Queued(id, hook.value)] else []
  }

  function RunAll(c: Context, actions: seq<Action>): Run
    decreases actions
  {
    if actions == [] then Run(true, c, []) else
      var first := RunOne(c, actions[0]);
      if !first.ok then first else
        var rest := RunAll(first.context, actions[1..]);
        Run(rest.ok, rest.context, first.log + rest.log)
  }

  /** A statement goes through the ambient context. One that fails leaves the transaction aborted. */
  function RunOne(c: Context, action: Action): Run
    decreases action
  {
    match action
    case Read => if c.settled then Run(false, c, [Missing]) else Run(true, c, [Seen(c.tenant)])
    case Statement(row, ok) =>
      if c.settled then Run(false, c, [Missing])
      else if c.aborted || !ok then Run(false, c.(aborted := true), [Failed(row)])
      else Run(true, c.(staged := c.staged + [row]), [Wrote(row)])
    case Throw => Run(false, c, [])
    case Try(block) => RunAll(c, block).(ok := true)
    case Call(frame) => Join(c, frame)
  }

  /** A nested frame: no savepoint, and its hook is queued only once its body has resolved. */
  function Join(c: Context, f: Frame): Run
    decreases f
  {
    if !IsUuid(f.tenant) then Run(false, c, [Invalid])
    else if c.settled then Run(false, c, [Missing])
    else if c.tenant != ToLowerCase(f.tenant) then Run(false, c, [Mismatch])
    else
      var r := RunAll(c, f.body);
      if !r.ok then r else
        Run(true, r.context.(afterCommit := r.context.afterCommit + Hooks(f.id, f.hook)),
            r.log + [Resolved(f.id, f.tenant, f.hook)])
  }

  function HookRuns(queue: seq<Queued>): seq<Event> {
    if queue == [] then [] else [HookRan(queue[0].id, queue[0].throws)] + HookRuns(queue[1..])
  }

  datatype Outcome = Outcome(ok: bool, rows: seq<int>, log: seq<Event>)

  function Opened(f: Frame): Context {
    Context(ToLowerCase(f.tenant), false, Hooks(f.id, f.hook), [], false)
  }

  /** A root frame. COMMIT of an aborted transaction returns, and keeps nothing. */
  function Root(f: Frame, server: Server): Outcome {
    if !IsUuid(f.tenant) then Outcome(false, [], [Invalid])
    else if !server.begins then Outcome(false, [], [])
    else
      var r := RunAll(Opened(f), f.body);
      if !r.ok then Outcome(false, [], [Began] + r.log + [RolledBack, Settled])
      else if !server.commits
      then Outcome(false, [], [Began] + r.log + [Resolved(f.id, f.tenant, f.hook), RolledBack, Settled])
      else
        Outcome(true, if r.context.aborted then [] else r.context.staged,
                [Began] + r.log + [Resolved(f.id, f.tenant, f.hook), Committed, Settled]
                + HookRuns(r.context.afterCommit))
  }

  // ---------------------------------------------------------------------------------------------
  // The source's form: one shared, mutable context
  // ---------------------------------------------------------------------------------------------

  class ActiveTenantContext {
    const tenantId: string
    var afterCommit: seq<Queued>
    var settled: bool
    var staged: seq<int>
    var aborted: bool

    constructor (tenantId: string, afterCommit: seq<Queued>)
      ensures this.tenantId == tenantId && Value() == Context(tenantId, false, afterCommit, [], false)
    {
      this.tenantId := tenantId;
      this.afterCommit := afterCommit;
      settled := false;
      staged := [];
      aborted := false;
    }

    ghost function Value(): Context
      reads this
    {
      Context(tenantId, settled, afterCommit, staged, aborted)
    }
  }

  class Process {
    /** The rows committed, in order, and everything that happened. */
    var rows: seq<int>
    var log: seq<Event>

    method Perform(active: ActiveTenantContext, actions: seq<Action>) returns (ok: bool)
      modifies active, this`log
      ensures var r := RunAll(old(active.Value()), actions);
              ok == r.ok && active.Value() == r.context && log == old(log) + r.log
      decreases actions
    {
      if actions == [] {
        return true;
      }
      ok := PerformOne(active, actions[0]);
      if ok {
        ok := Perform(active, actions[1..]);
      }
    }

    method PerformOne(active: ActiveTenantContext, action: Action) returns (ok: bool)
      modifies active, this`log
      ensures var r := RunOne(old(active.Value()), action);
              ok == r.ok && active.Value() == r.context && log == old(log) + r.log
      decreases action
    {
      match action
      case Read =>
        log := log + [if active.settled then Missing else Seen(active.tenantId)];
        ok := !active.settled;
      case Statement(row, accepted) =>
        if active.settled {
          log := log + [Missing];
          ok := false;
        } else if active.aborted || !accepted {
          active.aborted := true;
          log := log + [Failed(row)];
          ok := false;
        } else {
          active.staged := active.staged + [row];
          log := log + [Wrote(row)];
          ok := true;
        }
      case Throw =>
        ok := false;
      case Try(block) =>
        ok := Perform(active, block);
        ok := true;
      case Call(frame) =>
        ok := Nested(active, frame);
    }

    method Nested(active: ActiveTenantContext, f: Frame) returns (ok: bool)
      modifies active, this`log
      ensures var r := Join(old(active.Value()), f);
              ok == r.ok && active.Value() == r.context && log == old(log) + r.log
      ensures !IsUuid(f.tenant) || old(active.settled) || active.tenantId != ToLowerCase(f.tenant) ==>
                !ok && active.Value() == old(active.Value())
      ensures !IsUuid(f.tenant) ==> log == old(log) + [Invalid]
      ensures IsUuid(f.tenant) && old(active.settled) ==> log == old(log) + [Missing]
      ensures IsUuid(f.tenant) && !old(active.settled) && active.tenantId != ToLowerCase(f.tenant) ==>
                log == old(log) + [Mismatch]
      decreases f
    {
      if !IsUuid(f.tenant) {
        log := log + [Invalid];
        return false;
      }
      var scopedTo := ToLowerCase(f.tenant);
      if active.settled {
        log := log + [Missing];
        return false;
      }
      if active.tenantId != scopedTo {
        log := log + [Mismatch];
        return false;
      }
      ok := Perform(active, f.body);
      if ok {
        if f.hook.Some? {
          active.afterCommit := active.afterCommit + [Queued(f.id, f.hook.value)];
        }
        log := log + [Resolved(f.id, f.tenant, f.hook)];
      }
    }

    method WithTenantTransaction(f: Frame, server: Server) returns (ok: bool)
      modifies this
      ensures ok == Root(f, server).ok
      ensures rows == old(rows) + Root(f, server).rows && log == old(log) + Root(f, server).log
    {
      if !IsUuid(f.tenant) {
        log := log + [Invalid];
        return false;
      }
      if !server.begins {
        return false;
      }
      var context := new ActiveTenantContext(ToLowerCase(f.tenant), Hooks(f.id, f.hook));
      ghost var r := RunAll(Opened(f), f.body);
      log := log + [Began];
      ok := Perform(context, f.body);
      assert log == old(log) + ([Began] + r.log);
      ok := Finish(context, f, ok, server.commits);
      if ok {
        DrainHooks(context.afterCommit);
      }
    }

    /** COMMIT or ROLLBACK; either way the context is settled from here. */
    method Finish(context: ActiveTenantContext, f: Frame, resolved: bool, commits: bool) returns (ok: bool)
      modifies this, context`settled
      ensures ok == (resolved && commits) && context.settled
      ensures rows == old(rows) + (if ok && !context.aborted then context.staged else [])
      ensures log == (old(log) + (if resolved then [Resolved(f.id, f.tenant, f.hook)] else []))
                     + [if ok then Committed else RolledBack, Settled]
    {
      if resolved {
        log := log + [Resolved(f.id, f.tenant, f.hook)];
      }
      ok := resolved && commits;
      if ok && !context.aborted {
        rows := rows + context.staged;
      }
      log := log + [if ok then Committed else RolledBack, Settled];
      context.settled := true;
    }

    /** Every hook is called, whatever the ones before it threw. */
    method DrainHooks(queue: seq<Queued>)
      modifies this`log
      ensures log == old(log) + HookRuns(queue)
    {
      for i := 0 to |queue|
        invariant log == old(log) + HookRuns(queue[..i])
      {
        assert queue[..i + 1] == queue[..i] + [queue[i]];
        HookRunsSnoc(queue[..i], queue[i]);
        log := log + [HookRan(queue[i].id, queue[i].throws)];
      }
      assert queue[..|queue|] == queue;
    }
  }

  lemma {:induction false} HookRunsSnoc(queue: seq<Queued>, last: Queued)
    ensures HookRuns(queue + [last]) == HookRuns(queue) + [HookRan(last.id, last.throws)]
  {
    if queue == [] {
      assert queue + [last] == [last];
    } else {
      assert (queue + [last])[1..] == queue[1..] + [last];
      HookRunsSnoc(queue[1..], last);
    }
  }
}
