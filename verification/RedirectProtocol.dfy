/** The redirect cache as a protocol, over every interleaving. */
module RedirectProtocol {
  /*
   Requests read Postgres and fill the cache in two steps; a link mutation loads its pre-image, commits,
   deletes its keys in up to three rounds and, a second after a round that deleted everything, deletes the
   whole key set once more. Any step may interleave with any other, keys may expire and cache commands may
   fail, with or without taking effect.

   One hostname, the system default one, so a key is a slug and the unique index makes the table a map.
   */

  import opened Options

  type Slug = string

  const SECOND_PASS_DELAY_MS := 1000
  const MAX_ROUNDS := 3

  datatype Row = Row(link: nat, content: int)
  type Table = map<Slug, Row>

  /** A committed change: whose, to which slugs, and when. */
  datatype Commit = Commit(mutation: nat, touched: set<Slug>, time: int)

  /** A request between its Postgres read and its cache write; `readAt` counts the commits it saw. */
  datatype Fill = Fill(slug: Slug, value: Option<Row>, readAt: nat, readTime: int)

  /** A cache entry: the fill that wrote it, and when the write landed. */
  datatype Cached = Cached(fill: Fill, writeTick: nat, writeTime: int)

  datatype Moment = Moment(tick: nat, time: int)

  datatype Phase =
    | Loaded
    | Aborted
    | Deleting(todo: set<Slug>, failed: set<Slug>, round: nat)
    | Exhausted
    | Waiting(since: int)
    | Sweeping(todo: set<Slug>, failed: set<Slug>)
    | Swept
    | SweepFailed

  /** `cleared` is the last successful deletion of each key by this mutation. */
  datatype Mutation = Mutation(
    link: nat, before: Option<Slug>, keys: set<Slug>, commitTime: int, phase: Phase, cleared: map<Slug, Moment>)

  /** `tables[i]` is the table after the first `i` commits; `tick` numbers the steps. */
  datatype State = State(
    tick: nat, now: int, tables: seq<Table>, commits: seq<Commit>,
    cache: map<Slug, Cached>, fills: map<nat, Fill>, mutations: map<nat, Mutation>)
  {
    function Table(): Table
      requires tables != []
    {
      tables[|tables| - 1]
    }
  }

  datatype Step =
    | Advance(time: int)
    | Read(request: nat, slug: Slug)
    | Write(request: nat)
    | Abandon(request: nat)
    | Expire(slug: Slug)
    | Load(mutation: nat, link: nat, before: Option<Slug>)
    | Commits(mutation: nat, replaced: Option<Slug>, after: Option<Slug>, content: int)
    | Abort(mutation: nat)
    | Delete(mutation: nat, slug: Slug, ok: bool, applied: bool)
    | EndRound(mutation: nat)
    | BeginSweep(mutation: nat)
    | EndSweep(mutation: nat)

  function Lookup(table: Table, slug: Slug): Option<Row> {
    if slug in table then Some(table[slug]) else None
  }

  /** `at` is where `link` stands in the table, if anywhere. */
  ghost predicate StandsAt(table: Table, link: nat, at: Option<Slug>) {
    && (at.Some? ==> at.value in table)
    && (forall s :: s in table ==> (table[s].link == link <==> at == Some(s)))
  }

  function Slugs(s: Option<Slug>): set<Slug> {
    if s.Some? then {s.value} else {}
  }

  ghost predicate InPhase(s: State, m: nat, loaded: bool) {
    m in s.mutations && (loaded <==> s.mutations[m].phase.Loaded?)
  }

  /** The keys of the pass a mutation is in that it has still to try. */
  function Todo(p: Phase): set<Slug> {
    match p
    case Deleting(todo, _, _) => todo
    case Sweeping(todo, _) => todo
    case _ => {}
  }

  /**
   What can happen next. `current` asks of a commit that it finds the link at the slug its pre-image
   named, or moves it there.
   */
  ghost predicate Enabled(s: State, step: Step, current: bool)
    requires s.tables != []
  {
    match step
    case Advance(time) => s.now <= time
    case Read(request, _) => request !in s.fills
    case Write(request) => request in s.fills
    case Abandon(request) => request in s.fills
    case Expire(_) => true
    case Load(m, link, before) => m !in s.mutations && StandsAt(s.Table(), link, before)
    case Commits(m, replaced, after, _) =>
      && InPhase(s, m, true)
      && StandsAt(s.Table(), s.mutations[m].link, replaced)
      && (replaced.None? <==> s.mutations[m].before.None?)
      && (replaced.Some? || after.Some?)
      && (after.Some? && after != replaced ==> after.value !in s.Table())
      && (current ==> replaced == s.mutations[m].before || replaced == after)
    case Abort(m) => InPhase(s, m, true)
    case Delete(m, slug, ok, applied) => m in s.mutations && slug in Todo(s.mutations[m].phase) && (ok ==> applied)
    case EndRound(m) => m in s.mutations && s.mutations[m].phase.Deleting? && s.mutations[m].phase.todo == {}
    case BeginSweep(m) =>
      && m in s.mutations && s.mutations[m].phase.Waiting?
      && s.now >= s.mutations[m].phase.since + SECOND_PASS_DELAY_MS
    case EndSweep(m) => m in s.mutations && s.mutations[m].phase.Sweeping? && s.mutations[m].phase.todo == {}
  }

  /** The row of `link` leaves `replaced`, if it stood there, and stands at `after`, if anywhere. */
  function Edited(table: Table, link: nat, replaced: Option<Slug>, after: Option<Slug>, content: int): Table {
    var left := table - Slugs(replaced);
    if after.Some? then left[after.value := Row(link, content)] else left
  }

  function Tried(m: Mutation, slug: Slug, ok: bool, at: Moment): Mutation
    requires slug in Todo(m.phase)
  {
    var todo := m.phase.todo - {slug};
    var failed := if ok then m.phase.failed else m.phase.failed + {slug};
    m.(phase := if m.phase.Deleting? then m.phase.(todo := todo, failed := failed) else Sweeping(todo, failed),
       cleared := if ok then m.cleared[slug := at] else m.cleared)
  }

  /** A round that deleted everything schedules the second pass; a third failed round gives up. */
  function AfterRound(m: Mutation, now: int): Mutation
    requires m.phase.Deleting?
  {
    if m.phase.failed == {} then m.(phase := Waiting(now))
    else if m.phase.round < MAX_ROUNDS then m.(phase := Deleting(m.phase.failed, {}, m.phase.round + 1))
    else m.(phase := Exhausted)
  }

  ghost function Effect(s: State, step: Step, current: bool): State
    requires s.tables != [] && Enabled(s, step, current)
  {
    match step
    case Advance(time) => s.(now := time)
    case Read(request, slug) =>
      s.(fills := s.fills[request := Fill(slug, Lookup(s.Table(), slug), |s.commits|, s.now)])
    case Write(request) =>
      var f := s.fills[request];
      s.(fills := s.fills - {request}, cache := s.cache[f.slug := Cached(f, s.tick, s.now)])
    case Abandon(request) => s.(fills := s.fills - {request})
    case Expire(slug) => s.(cache := s.cache - {slug})
    case Load(m, link, before) =>
      s.(mutations := s.mutations[m := Mutation(link, before, {}, s.now, Loaded, map[])])
    case Commits(m, replaced, after, content) =>
      var x := s.mutations[m];
      var keys := Slugs(x.before) + Slugs(after);
      s.(tables := s.tables + [Edited(s.Table(), x.link, replaced, after, content)],
         commits := s.commits + [Commit(m, Slugs(replaced) + Slugs(after), s.now)],
         mutations := s.mutations[m := x.(keys := keys, commitTime := s.now, phase := Deleting(keys, {}, 1))])
    case Abort(m) => s.(mutations := s.mutations[m := s.mutations[m].(phase := Aborted)])
    case Delete(m, slug, ok, applied) =>
      s.(mutations := s.mutations[m := Tried(s.mutations[m], slug, ok, Moment(s.tick, s.now))],
         cache := if applied then s.cache - {slug} else s.cache)
    case EndRound(m) => s.(mutations := s.mutations[m := AfterRound(s.mutations[m], s.now)])
    case BeginSweep(m) =>
      s.(mutations := s.mutations[m := s.mutations[m].(phase := Sweeping(s.mutations[m].keys, {}))])
    case EndSweep(m) =>
      s.(mutations := s.mutations[m := s.mutations[m].(
           phase := if s.mutations[m].phase.failed == {} then Swept else SweepFailed)])
  }

  ghost function Next(s: State, step: Step, current: bool): State
    requires s.tables != [] && Enabled(s, step, current)
  {
    Effect(s, step, current).(tick := s.tick + 1)
  }

  /** A cold cache over any table in which every link stands at most once. */
  ghost predicate Initial(s: State) {
    && |s.tables| == 1 && UniqueLinks(s.tables[0])
    && s.commits == [] && s.cache == map[] && s.fills == map[] && s.mutations == map[]
  }

  ghost predicate UniqueLinks(table: Table) {
    forall a, b :: a in table && b in table && table[a].link == table[b].link ==> a == b
  }

  /** `steps` can be taken from `s`, in order, and lead to `t`. */
  ghost predicate Leads(s: State, steps: seq<Step>, t: State, current: bool)
    decreases |steps|
  {
    s.tables != [] &&
    if steps == [] then s == t
    else Enabled(s, steps[0], current) && Leads(Next(s, steps[0], current), steps[1..], t, current)
  }

  // ---------------------------------------------------------------------------------------------
  // The invariant, in five parts
  // ---------------------------------------------------------------------------------------------

  /** A commit changes what is stored at the slugs it touched and nowhere else. */
  ghost predicate Chronicle(s: State) {
    && |s.tables| == |s.commits| + 1
    && UniqueLinks(s.Table())
    && (forall i, k :: 0 <= i < |s.commits| && k !in s.commits[i].touched ==>
          Lookup(s.tables[i], k) == Lookup(s.tables[i + 1], k))
    && (forall i :: 0 <= i < |s.commits| ==> s.commits[i].time <= s.now)
  }

  /** A fill holds what was stored after `readAt` commits, read between that commit and the next. */
  ghost predicate Genuine(s: State, f: Fill) {
    && f.readAt < |s.tables| == |s.commits| + 1
    && f.value == Lookup(s.tables[f.readAt], f.slug)
    && f.readTime <= s.now
    && (forall i :: f.readAt <= i < |s.commits| ==> f.readTime <= s.commits[i].time)
  }

  ghost predicate GenuineFills(s: State) {
    && (forall r :: r in s.fills ==> Genuine(s, s.fills[r]))
    && (forall k :: k in s.cache ==> Genuine(s, s.cache[k].fill) && s.cache[k].fill.slug == k)
  }

  /** Whoever committed a change will delete every key it touched. */
  ghost predicate Accounted(s: State) {
    forall i :: 0 <= i < |s.commits| ==>
      var c := s.commits[i];
      && InPhase(s, c.mutation, false) && !s.mutations[c.mutation].phase.Aborted?
      && c.touched <= s.mutations[c.mutation].keys && s.mutations[c.mutation].commitTime == c.time
  }

  /** The keys a mutation has deleted at least once, and those its second pass has. */
  ghost predicate Progress(x: Mutation, now: int) {
    match x.phase
    case Deleting(todo, failed, _) => x.keys - todo - failed <= x.cleared.Keys && x.commitTime <= now
    case Waiting(since) => x.keys <= x.cleared.Keys && x.commitTime <= since <= now
    case Sweeping(todo, failed) =>
      && x.keys <= x.cleared.Keys && x.commitTime + SECOND_PASS_DELAY_MS <= now
      && forall k :: k in x.keys - todo - failed ==> x.cleared[k].time >= x.commitTime + SECOND_PASS_DELAY_MS
    case Swept =>
      x.keys <= x.cleared.Keys
      && forall k :: k in x.keys ==> x.cleared[k].time >= x.commitTime + SECOND_PASS_DELAY_MS
    case SweepFailed => x.keys <= x.cleared.Keys
    case _ => true
  }

  ghost predicate Passes(s: State) {
    forall m :: m in s.mutations ==> Progress(s.mutations[m], s.now)
  }

  /** An entry still there was written after every successful deletion of its key. */
  ghost predicate WrittenSince(s: State, x: Mutation) {
    forall k :: k in x.cleared ==>
      && x.cleared[k].tick < s.tick && x.cleared[k].time <= s.now
      && (k in s.cache ==> x.cleared[k].tick < s.cache[k].writeTick && x.cleared[k].time <= s.cache[k].writeTime)
  }

  ghost predicate Landed(s: State) {
    && (forall k :: k in s.cache ==> s.cache[k].writeTick < s.tick && s.cache[k].writeTime <= s.now)
    && (forall m :: m in s.mutations ==> WrittenSince(s, s.mutations[m]))
  }

  ghost predicate Inv(s: State) {
    Chronicle(s) && GenuineFills(s) && Accounted(s) && Passes(s) && Landed(s)
  }

  // ---------------------------------------------------------------------------------------------
  // Every step keeps every part
  // ---------------------------------------------------------------------------------------------

  lemma EditTouchesOnly(table: Table, link: nat, replaced: Option<Slug>, after: Option<Slug>, content: int)
    requires UniqueLinks(table) && StandsAt(table, link, replaced)
    requires after.Some? && after != replaced ==> after.value !in table
    ensures UniqueLinks(Edited(table, link, replaced, after, content))
    ensures StandsAt(Edited(table, link, replaced, after, content), link, after)
    ensures forall k :: k !in Slugs(replaced) + Slugs(after) ==>
              Lookup(Edited(table, link, replaced, after, content), k) == Lookup(table, k)
  {
  }

  lemma KeepsChronicle(s: State, step: Step)
    requires Chronicle(s) && s.tables != [] && Enabled(s, step, true)
    ensures Chronicle(Next(s, step, true))
  {
    if step.Commits? {
      EditTouchesOnly(s.Table(), s.mutations[step.mutation].link, step.replaced, step.after, step.content);
    }
  }

  lemma KeepsGenuine(s: State, step: Step, f: Fill)
    requires Chronicle(s) && Genuine(s, f) && Enabled(s, step, true)
    ensures Genuine(Next(s, step, true), f)
  {
  }

  lemma KeepsGenuineFills(s: State, step: Step)
    requires Chronicle(s) && GenuineFills(s) && Enabled(s, step, true)
    ensures GenuineFills(Next(s, step, true))
  {
    var t := Next(s, step, true);
    forall f: Fill | Genuine(s, f) ensures Genuine(t, f) {
      KeepsGenuine(s, step, f);
    }
    forall k | k in t.cache ensures Genuine(t, t.cache[k].fill) && t.cache[k].fill.slug == k {
    }
  }

  /** The key set of a commit that finds its pre-image current covers what the commit touches. */
  lemma KeepsAccounted(s: State, step: Step)
    requires Chronicle(s) && Accounted(s) && Enabled(s, step, true)
    ensures Accounted(Next(s, step, true))
  {
  }

  lemma KeepsPasses(s: State, step: Step)
    requires Passes(s) && s.tables != [] && Enabled(s, step, true)
    ensures Passes(Next(s, step, true))
  {
    var t := Next(s, step, true);
    forall m | m in t.mutations ensures Progress(t.mutations[m], t.now) {
      if m in s.mutations {
        assert Progress(s.mutations[m], s.now);
      }
    }
  }

  lemma KeepsLanded(s: State, step: Step)
    requires Landed(s) && s.tables != [] && Enabled(s, step, true)
    ensures Landed(Next(s, step, true))
  {
    var t := Next(s, step, true);
    forall m | m in t.mutations ensures WrittenSince(t, t.mutations[m]) {
      if m in s.mutations {
        assert WrittenSince(s, s.mutations[m]);
      }
    }
  }

  lemma {:induction false} Reachable(s: State, steps: seq<Step>, t: State)
    requires Inv(s) && Leads(s, steps, t, true)
    ensures Inv(t)
    decreases |steps|
  {
    if steps != [] {
      KeepsChronicle(s, steps[0]);
      KeepsGenuineFills(s, steps[0]);
      KeepsAccounted(s, steps[0]);
      KeepsPasses(s, steps[0]);
      KeepsLanded(s, steps[0]);
      Reachable(Next(s, steps[0], true), steps[1..], t);
    }
  }

  // ---------------------------------------------------------------------------------------------
  // What the cache may hold
  // ---------------------------------------------------------------------------------------------

  /** The mutation's first pass deleted every key. */
  predicate FirstPassRan(p: Phase) { p.Waiting? || p.Sweeping? || p.Swept? || p.SweepFailed? }

  /**
   What the two passes owe an entry, for a commit to its key after its fill's read: once the first pass
   ran, the fill's write landed after the key was deleted; once the second pass ran as well, that write
   came a full delay or more after the read it carries.
   */
  ghost predicate Residual(t: State, slug: Slug, i: nat) {
    slug in t.cache && i < |t.commits| && slug in t.commits[i].touched && t.cache[slug].fill.readAt <= i ==>
      && t.commits[i].mutation in t.mutations
      && var c, x := t.cache[slug], t.mutations[t.commits[i].mutation];
         && (FirstPassRan(x.phase) ==> slug in x.cleared && x.cleared[slug].tick < c.writeTick)
         && (x.phase.Swept? ==> c.writeTime - c.fill.readTime >= 1000)
  }

  /** An entry holds what Postgres held at its fill's read. */
  ghost predicate HeldThen(t: State, slug: Slug) {
    slug in t.cache ==>
      && t.cache[slug].fill.readAt < |t.tables|
      && t.cache[slug].fill.value == Lookup(t.tables[t.cache[slug].fill.readAt], slug)
  }

  ghost predicate Sound(t: State) {
    (forall slug :: HeldThen(t, slug)) && (forall slug, i: nat :: Residual(t, slug, i))
  }

  lemma InvariantIsSound(t: State)
    requires Inv(t)
    ensures Sound(t)
  {
    forall slug ensures HeldThen(t, slug) {
      if slug in t.cache {
        assert Genuine(t, t.cache[slug].fill);
      }
    }
    forall slug, i: nat ensures Residual(t, slug, i) {
      if slug in t.cache && i < |t.commits| && slug in t.commits[i].touched && t.cache[slug].fill.readAt <= i {
        ResidualHolds(t, slug, i);
      }
    }
  }

  lemma ResidualHolds(t: State, slug: Slug, i: nat)
    requires Inv(t) && slug in t.cache
    requires i < |t.commits| && slug in t.commits[i].touched && t.cache[slug].fill.readAt <= i
    ensures Residual(t, slug, i)
  {
    var c := t.commits[i];
    assert InPhase(t, c.mutation, false);
    var x := t.mutations[c.mutation];
    assert Progress(x, t.now) && WrittenSince(t, x);
    assert Genuine(t, t.cache[slug].fill);
    assert slug in x.keys;
  }

  /**
   THE SAFETY THEOREM. Whatever interleaves, as long as every commit finds its pre-image current, each
   cached value is one Postgres held at its fill's read, and for every mutation of that key committed
   after that read only the residual above is left.
   */
  lemma StaleOnlyByALateWrite(s: State, steps: seq<Step>, t: State)
    requires Initial(s) && Leads(s, steps, t, true)
    ensures Sound(t)
  {
    Reachable(s, steps, t);
    InvariantIsSound(t);
  }

  lemma {:induction false} UntouchedSince(s: State, slug: Slug, from: nat)
    requires Chronicle(s) && from <= |s.commits|
    requires forall i :: from <= i < |s.commits| ==> slug !in s.commits[i].touched
    ensures Lookup(s.tables[from], slug) == Lookup(s.Table(), slug)
    decreases |s.commits| - from
  {
    if from < |s.commits| {
      assert slug !in s.commits[from].touched;
      assert Lookup(s.tables[from], slug) == Lookup(s.tables[from + 1], slug);
      UntouchedSince(s, slug, from + 1);
    }
  }

  /**
   FRESHNESS. When the second pass of every mutation of a key has run, and the entry's fill took
   less than the delay between its two steps, the cache holds what Postgres holds now.
   */
  lemma FreshAfterTheSecondPass(s: State, steps: seq<Step>, t: State, slug: Slug)
    requires Initial(s) && Leads(s, steps, t, true) && slug in t.cache
    requires forall i :: 0 <= i < |t.commits| && slug in t.commits[i].touched ==>
               t.commits[i].mutation in t.mutations && t.mutations[t.commits[i].mutation].phase.Swept?
    requires t.cache[slug].writeTime - t.cache[slug].fill.readTime < 1000
    ensures t.tables != [] && t.cache[slug].fill.value == Lookup(t.Table(), slug)
  {
    Reachable(s, steps, t);
    StaleOnlyByALateWrite(s, steps, t);
    assert Genuine(t, t.cache[slug].fill);
    forall i | t.cache[slug].fill.readAt <= i < |t.commits| ensures slug !in t.commits[i].touched {
      assert Residual(t, slug, i);
    }
    UntouchedSince(t, slug, t.cache[slug].fill.readAt);
  }

  // ---------------------------------------------------------------------------------------------
  // Mutations of one link, one after another
  // ---------------------------------------------------------------------------------------------

  /** A mutation about to commit knows where its link stands. */
  ghost predicate Standing(s: State) {
    && s.tables != []
    && (forall m :: InPhase(s, m, true) ==> StandsAt(s.Table(), s.mutations[m].link, s.mutations[m].before))
  }

  /** And is alone in that. */
  ghost predicate Alone(s: State) {
    forall m, n :: InPhase(s, m, true) && InPhase(s, n, true) && s.mutations[m].link == s.mutations[n].link ==> m == n
  }

  lemma EditLeavesOthers(
      table: Table, link: nat, replaced: Option<Slug>, after: Option<Slug>, content: int, other: nat, at: Option<Slug>)
    requires StandsAt(table, link, replaced) && StandsAt(table, other, at) && other != link
    requires after.Some? && after != replaced ==> after.value !in table
    ensures StandsAt(Edited(table, link, replaced, after, content), other, at)
  {
    if at.Some? {
      assert table[at.value].link == other;
    }
  }

  /** No mutation of a link is loaded while another one of it is on its way to its commit. */
  ghost predicate OneAtATime(s: State, steps: seq<Step>)
    decreases |steps|
  {
    s.tables != [] &&
    (steps == [] ||
     (&& Enabled(s, steps[0], false)
      && (steps[0].Load? ==> forall m :: InPhase(s, m, true) ==> s.mutations[m].link != steps[0].link)
      && OneAtATime(Next(s, steps[0], false), steps[1..])))
  }

  lemma KeepsStanding(s: State, step: Step)
    requires Standing(s) && Alone(s) && Enabled(s, step, false)
    ensures Standing(Next(s, step, false))
  {
    var t := Next(s, step, false);
    if step.Commits? {
      var x := s.mutations[step.mutation];
      forall m | InPhase(t, m, true)
        ensures StandsAt(t.Table(), t.mutations[m].link, t.mutations[m].before)
      {
        assert InPhase(s, m, true);
        EditLeavesOthers(s.Table(), x.link, step.replaced, step.after, step.content,
                         s.mutations[m].link, s.mutations[m].before);
      }
    }
  }

  lemma KeepsAlone(s: State, step: Step)
    requires Alone(s) && s.tables != [] && Enabled(s, step, false)
    requires step.Load? ==> forall m :: InPhase(s, m, true) ==> s.mutations[m].link != step.link
    ensures Alone(Next(s, step, false))
  {
    var t := Next(s, step, false);
    forall m, n | InPhase(t, m, true) && InPhase(t, n, true) && t.mutations[m].link == t.mutations[n].link
      ensures m == n
    {
      assert InPhase(s, m, true) || (step.Load? && m == step.mutation);
      assert InPhase(s, n, true) || (step.Load? && n == step.mutation);
    }
  }

  /** The pre-image of a lone mutation is still current at its commit. */
  lemma SerialCommitIsCurrent(s: State, step: Step)
    requires Standing(s) && Enabled(s, step, false)
    ensures Enabled(s, step, true)
  {
    if step.Commits? {
      var x := s.mutations[step.mutation];
      assert StandsAt(s.Table(), x.link, x.before);
      if x.before.Some? {
        assert s.Table()[x.before.value].link == x.link;
      }
    }
  }

  /** So a run that takes the mutations of each link one after another is one the theorems speak of. */
  lemma {:induction false} SerialRunsAreCurrent(s: State, steps: seq<Step>, t: State)
    requires Standing(s) && Alone(s) && OneAtATime(s, steps) && Leads(s, steps, t, false)
    ensures Leads(s, steps, t, true)
    decreases |steps|
  {
    if steps != [] {
      SerialCommitIsCurrent(s, steps[0]);
      KeepsStanding(s, steps[0]);
      KeepsAlone(s, steps[0]);
      assert Next(s, steps[0], true) == Next(s, steps[0], false);
      SerialRunsAreCurrent(Next(s, steps[0], false), steps[1..], t);
    }
  }

  /** The cache is fresh after the second passes of mutations taken one after another on each link. */
  lemma SerialRunsAreFresh(s: State, steps: seq<Step>, t: State, slug: Slug)
    requires Initial(s) && OneAtATime(s, steps) && Leads(s, steps, t, false) && slug in t.cache
    requires forall i :: 0 <= i < |t.commits| && slug in t.commits[i].touched ==>
               t.commits[i].mutation in t.mutations && t.mutations[t.commits[i].mutation].phase.Swept?
    requires t.cache[slug].writeTime - t.cache[slug].fill.readTime < 1000
    ensures t.tables != [] && t.cache[slug].fill.value == Lookup(t.Table(), slug)
  {
    SerialRunsAreCurrent(s, steps, t);
    FreshAfterTheSecondPass(s, steps, t, slug);
  }

  // ---------------------------------------------------------------------------------------------
  // A commit whose pre-image was overtaken
  // ---------------------------------------------------------------------------------------------

  lemma {:induction false} LeadsThen(s: State, p: seq<Step>, t: State, q: seq<Step>, u: State, current: bool)
    requires Leads(s, p, t, current) && Leads(t, q, u, current)
    ensures Leads(s, p + q, u, current)
    decreases |p|
  {
    if p == [] {
      assert p + q == q;
    } else {
      assert (p + q)[1..] == p[1..] + q;
      LeadsThen(Next(s, p[0], current), p[1..], t, q, u, current);
    }
  }

  /** A run extended by one step. */
  lemma Then(s: State, p: seq<Step>, t: State, step: Step, current: bool) returns (q: seq<Step>, u: State)
    requires Leads(s, p, t, current) && t.tables != [] && Enabled(t, step, current)
    ensures u == Next(t, step, current) && Leads(s, q, u, current)
  {
    u := Next(t, step, current);
    q := p + [step];
    assert [step][1..] == [] && u.tables != [];
    LeadsThen(s, p, t, [step], u, current);
  }

  /** A run in which every commit is current is one in which any commit may happen. */
  lemma {:induction false} CurrentRunsAreRuns(s: State, steps: seq<Step>, t: State)
    requires Leads(s, steps, t, true)
    ensures Leads(s, steps, t, false)
    decreases |steps|
  {
    if steps != [] {
      assert Next(s, steps[0], true) == Next(s, steps[0], false);
      CurrentRunsAreRuns(Next(s, steps[0], true), steps[1..], t);
    }
  }

  /** What a pass of `m` leaves as it found it: everything but its own keys and bookkeeping. */
  ghost predicate OnlyPassed(s: State, t: State, m: nat) {
    && t.tables == s.tables && t.commits == s.commits && t.fills == s.fills
    && m in s.mutations && m in t.mutations && t.mutations.Keys == s.mutations.Keys
    && (forall n :: n in s.mutations && n != m ==> t.mutations[n] == s.mutations[n])
    && t.mutations[m].keys == s.mutations[m].keys
    && (forall k :: k in s.cache && k !in s.mutations[m].keys ==> k in t.cache && t.cache[k] == s.cache[k])
  }

  lemma OnlyPassedTwice(s: State, u: State, t: State, m: nat)
    requires OnlyPassed(s, u, m) && OnlyPassed(u, t, m)
    ensures OnlyPassed(s, t, m)
  {
  }

  lemma DeleteOne(s: State, m: nat, k: Slug) returns (steps: seq<Step>, t: State)
    requires s.tables != [] && m in s.mutations && k in Todo(s.mutations[m].phase) && k in s.mutations[m].keys
    ensures Leads(s, steps, t, true) && OnlyPassed(s, t, m)
    ensures t.mutations[m].phase == s.mutations[m].phase.(todo := Todo(s.mutations[m].phase) - {k})
  {
    steps, t := Then(s, [], s, Delete(m, k, true, true), true);
  }

  /** The keys a pass has left are all deleted, with no failure. */
  lemma {:induction false} DeleteAll(s: State, m: nat) returns (steps: seq<Step>, t: State)
    requires s.tables != [] && m in s.mutations && Todo(s.mutations[m].phase) <= s.mutations[m].keys
    requires s.mutations[m].phase.Deleting? || s.mutations[m].phase.Sweeping?
    ensures Leads(s, steps, t, true) && OnlyPassed(s, t, m)
    ensures t.mutations[m].phase == s.mutations[m].phase.(todo := {})
    decreases |Todo(s.mutations[m].phase)|
  {
    if Todo(s.mutations[m].phase) == {} {
      steps, t := [], s;
    } else {
      var k :| k in Todo(s.mutations[m].phase);
      var p, u := DeleteOne(s, m, k);
      var q;
      q, t := DeleteAll(u, m);
      OnlyPassedTwice(s, u, t, m);
      LeadsThen(s, p, u, q, t, true);
      steps := p + q;
    }
  }

  lemma FirstPass(s: State, m: nat) returns (steps: seq<Step>, t: State)
    requires s.tables != [] && m in s.mutations
    requires s.mutations[m].phase == Deleting(s.mutations[m].keys, {}, 1)
    ensures Leads(s, steps, t, true) && OnlyPassed(s, t, m)
    ensures t.mutations[m].phase == Sweeping(s.mutations[m].keys, {})
  {
    var u;
    steps, u := DeleteAll(s, m);
    steps, t := Then(s, steps, u, EndRound(m), true);
    steps, t := Then(s, steps, t, Advance(t.now + SECOND_PASS_DELAY_MS), true);
    steps, t := Then(s, steps, t, BeginSweep(m), true);
  }

  /** Both passes of a mutation that has just committed, with no failure, run to their end. */
  lemma BothPasses(s: State, m: nat) returns (steps: seq<Step>, t: State)
    requires s.tables != [] && m in s.mutations
    requires s.mutations[m].phase == Deleting(s.mutations[m].keys, {}, 1)
    ensures Leads(s, steps, t, true) && OnlyPassed(s, t, m) && t.mutations[m].phase.Swept?
  {
    var p, u := FirstPass(s, m);
    var q, swept := DeleteAll(u, m);
    LeadsThen(s, p, u, q, swept, true);
    steps, t := Then(s, p + q, swept, EndSweep(m), true);
  }

  lemma UpperBound(ids: set<nat>) returns (bound: nat)
    ensures forall x :: x in ids ==> x < bound
  {
    if ids == {} {
      bound := 0;
    } else {
      var x :| x in ids;
      var rest := UpperBound(ids - {x});
      bound := if rest <= x then x + 1 else rest;
      assert forall y :: y in ids ==> y == x || y in ids - {x};
    }
  }

  /** A request reads and fills a slug at once. */
  lemma QuickFill(s: State, slug: Slug) returns (steps: seq<Step>, t: State)
    requires s.tables != []
    ensures Leads(s, steps, t, true) && t.tables == s.tables && t.commits == s.commits && t.mutations == s.mutations
    ensures slug in t.cache && t.cache[slug].writeTime == t.cache[slug].fill.readTime
    ensures t.cache[slug].fill.readAt == |s.commits| && t.cache[slug].fill.value == Lookup(s.Table(), slug)
  {
    var r := UpperBound(s.fills.Keys);
    var p, u := Then(s, [], s, Read(r, slug), true);
    steps, t := Then(s, p, u, Write(r), true);
  }

  /**
   THE CONVERSE. From any state, let a commit move a link off a slug that is neither its pre-image's nor
   its new one. A request that fills the slug just before the commit leaves an entry no pass deletes:
   the mutation's two passes run with no failure, the fill took no time, and the cache goes on serving a
   slug the table no longer holds.
   */
  lemma OvertakenCommitLeavesAKey(s: State, step: Step, slug: Slug)
      returns (p: seq<Step>, u: State, q: seq<Step>, t: State)
    requires s.tables != [] && step.Commits? && Enabled(s, step, false) && step.replaced == Some(slug)
    requires step.replaced != s.mutations[step.mutation].before && step.replaced != step.after
    ensures Leads(s, p, u, true) && u.tables != [] && u.mutations == s.mutations
    ensures Enabled(u, step, false) && Leads(Next(u, step, false), q, t, true)
    ensures step.mutation in t.mutations && t.mutations[step.mutation].phase.Swept?
    ensures forall n :: n in s.mutations && n != step.mutation ==> n in t.mutations && t.mutations[n] == s.mutations[n]
    ensures t.mutations.Keys == s.mutations.Keys
    ensures slug in t.cache && t.cache[slug].writeTime == t.cache[slug].fill.readTime
    ensures t.cache[slug].fill.value == Lookup(s.Table(), slug) && t.cache[slug].fill.readAt == |s.commits|
    ensures |t.commits| == |s.commits| + 1 && slug in t.commits[|s.commits|].touched
         && t.commits[|s.commits|].mutation == step.mutation
    ensures t.tables != [] && Lookup(t.Table(), slug) == None
  {
    p, u := QuickFill(s, slug);
    var v := Next(u, step, false);
    assert slug !in v.mutations[step.mutation].keys;
    q, t := BothPasses(v, step.mutation);
  }

  /** A mutation's pre-image is loaded once and never again. */
  lemma {:induction false} PreImageStays(s: State, steps: seq<Step>, t: State, m: nat)
    requires Leads(s, steps, t, true) && m in s.mutations
    ensures m in t.mutations && t.mutations[m].before == s.mutations[m].before
    decreases |steps|
  {
    if steps != [] {
      PreImageStays(Next(s, steps[0], true), steps[1..], t, m);
    }
  }

  /** Runs of current commits lead from `s` to `u` and on from the commit `step` there to `t`. */
  ghost predicate Continues(s: State, p: seq<Step>, u: State, step: Step, q: seq<Step>, t: State) {
    && Leads(s, p, u, true) && u.tables != [] && Enabled(u, step, false)
    && Leads(Next(u, step, false), q, t, true)
  }

  /**
   EXACTLY THEN. Every run through a commit is safe iff the commit finds its pre-image current: iff the
   slug its link stands at is the one the unlocked load saw, or the one it moves the link to.
   */
  lemma SafeIffPreImageIsCurrent(s: State, step: Step)
    requires Inv(s) && s.tables != [] && step.Commits? && Enabled(s, step, false)
    ensures (forall p, u, q, t :: Continues(s, p, u, step, q, t) ==> Sound(t)) <==>
            step.replaced == s.mutations[step.mutation].before || step.replaced == step.after
  {
    if step.replaced == s.mutations[step.mutation].before || step.replaced == step.after {
      forall p, u, q, t | Continues(s, p, u, step, q, t) ensures Sound(t) {
        CurrentCommitIsSafe(s, p, u, step, q, t);
      }
    } else {
      var slug := step.replaced.value;
      var p, u, q, t := OvertakenCommitLeavesAKey(s, step, slug);
      assert Continues(s, p, u, step, q, t);
      assert !Residual(t, slug, |s.commits|);
    }
  }

  lemma CurrentCommitIsSafe(s: State, p: seq<Step>, u: State, step: Step, q: seq<Step>, t: State)
    requires Inv(s) && step.Commits? && Enabled(s, step, false) && Continues(s, p, u, step, q, t)
    requires step.replaced == s.mutations[step.mutation].before || step.replaced == step.after
    ensures Sound(t)
  {
    PreImageStays(s, p, u, step.mutation);
    assert Next(u, step, true) == Next(u, step, false);
    Reachable(s, p, u);
    assert ([step] + q)[1..] == q;
    Reachable(u, [step] + q, t);
    InvariantIsSound(t);
  }

  // ---------------------------------------------------------------------------------------------
  // How it comes about
  // ---------------------------------------------------------------------------------------------

  lemma LoadTwice(s: State, link: nat, a: Slug) returns (steps: seq<Step>, t: State)
    requires Initial(s) && a in s.Table() && s.Table()[a].link == link
    ensures Leads(s, steps, t, false) && t.tables == s.tables && t.mutations.Keys == {1, 2}
    ensures forall m :: m in t.mutations ==> t.mutations[m] == Mutation(link, Some(a), {}, s.now, Loaded, map[])
  {
    steps, t := Then(s, [], s, Load(1, link, Some(a)), false);
    assert t.mutations == map[1 := Mutation(link, Some(a), {}, s.now, Loaded, map[])];
    steps, t := Then(s, steps, t, Load(2, link, Some(a)), false);
  }

  lemma OverlappingLoads(s: State, link: nat, a: Slug, b: Slug, content: int) returns (steps: seq<Step>, t: State)
    requires Initial(s) && a != b && b !in s.Table() && a in s.Table() && s.Table()[a].link == link
    ensures Leads(s, steps, t, false) && t.mutations.Keys == {1, 2}
    ensures t.tables == s.tables + [Edited(s.Table(), link, Some(a), Some(b), content)]
    ensures t.mutations[1].phase == Deleting(t.mutations[1].keys, {}, 1)
    ensures t.mutations[2] == Mutation(link, Some(a), {}, s.now, Loaded, map[])
  {
    var p, u := LoadTwice(s, link, a);
    steps, t := Then(s, p, u, Commits(1, Some(a), Some(b), content), false);
  }

  /** Two edits of one link load the same pre-image, and the first moves the link and runs its passes. */
  lemma FirstEdit(s: State, link: nat, a: Slug, b: Slug, content: int) returns (steps: seq<Step>, t: State)
    requires Initial(s) && a != b && b !in s.Table() && a in s.Table() && s.Table()[a].link == link
    ensures Leads(s, steps, t, false)
    ensures t.tables == s.tables + [Edited(s.Table(), link, Some(a), Some(b), content)]
    ensures t.mutations.Keys == {1, 2} && t.mutations[1].phase.Swept?
    ensures t.mutations[2].phase.Loaded? && t.mutations[2].link == link && t.mutations[2].before == Some(a)
  {
    var p, u := OverlappingLoads(s, link, a, b, content);
    var q;
    q, t := BothPasses(u, 1);
    CurrentRunsAreRuns(u, q, t);
    LeadsThen(s, p, u, q, t, false);
    steps := p + q;
  }

  /**
   THE COUNTEREXAMPLE. Let two edits of one link load the same pre-image `a`, and let the first move
   the link to `b` and the second to `c`. The second deletes `a` and `c`, so a record filled at `b`
   between the two commits stays: every pass of every mutation ran, no command failed, the fill took
   no time, and the cache still serves a slug the table no longer holds.
   */
  lemma OverlappingEditsLeaveAKey(s: State, link: nat, a: Slug, b: Slug, c: Slug, content: int)
      returns (steps: seq<Step>, t: State)
    requires Initial(s) && a != b && b != c && a != c
    requires a in s.Table() && s.Table()[a].link == link && b !in s.Table() && c !in s.Table()
    ensures Leads(s, steps, t, false)
    ensures forall m :: m in t.mutations ==> t.mutations[m].phase.Swept?
    ensures b in t.cache && t.cache[b].writeTime == t.cache[b].fill.readTime
    ensures t.tables != [] && t.cache[b].fill.value == Some(Row(link, content)) && Lookup(t.Table(), b) == None
  {
    var p, first := FirstEdit(s, link, a, b, content);
    EditTouchesOnly(s.Table(), link, Some(a), Some(b), content);
    var q;
    q, t := SecondEdit(first, link, a, b, c, content);
    LeadsThen(s, p, first, q, t, false);
    steps := p + q;
  }

  lemma SecondEdit(s: State, link: nat, a: Slug, b: Slug, c: Slug, content: int) returns (steps: seq<Step>, t: State)
    requires s.tables != [] && StandsAt(s.Table(), link, Some(b)) && c !in s.Table() && a != b && b != c
    requires s.mutations.Keys == {1, 2} && s.mutations[1].phase.Swept?
    requires s.mutations[2].phase.Loaded? && s.mutations[2].link == link && s.mutations[2].before == Some(a)
    ensures Leads(s, steps, t, false)
    ensures forall m :: m in t.mutations ==> t.mutations[m].phase.Swept?
    ensures b in t.cache && t.cache[b].writeTime == t.cache[b].fill.readTime
    ensures t.cache[b].fill.value == Lookup(s.Table(), b)
    ensures t.tables != [] && Lookup(t.Table(), b) == None
  {
    var step := Commits(2, Some(b), Some(c), content);
    var p, u, q, last := OvertakenCommitLeavesAKey(s, step, b);
    CurrentRunsAreRuns(s, p, u);
    var v;
    steps, v := Then(s, p, u, step, false);
    CurrentRunsAreRuns(v, q, last);
    LeadsThen(s, steps, v, q, last, false);
    steps, t := steps + q, last;
  }
}
