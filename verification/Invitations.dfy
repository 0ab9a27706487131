/** Accepting and revoking one invitation, as one call and as concurrent transactions. */
module Invitations {
  import opened Options

  datatype InvitationState = Pending | Accepted | Revoked | Expired

  datatype Invitation = Invitation(
    digest: string, state: InvitationState, expiresAt: int, acceptedAt: Option<int>, acceptedBy: Option<string>,
    revokedAt: Option<int>)

  datatype Grant = Grant(workspace: string, role: string)

  /** A workspace membership's row, under its workspace and user. */
  datatype Membership = Membership(tenant: string, role: string)

  type Memberships = map<(string, string), Membership>

  /** `tenants` is the tenant membership of each user, whose index admits one row a user. */
  datatype Tables = Tables(invitation: Invitation, memberships: Memberships, tenants: map<string, string>)

  /** What an invitation never changes: its tenant and the workspaces it names. */
  datatype Offer = Offer(tenant: string, grants: seq<Grant>)

  datatype Mode = Require | Create

  datatype Error = NotFound | AlreadyAccepted | IsRevoked | IsExpired | TenantConflict | ConnectionLost

  datatype Token = Token(tenant: string, digest: string)

  // ---------------------------------------------------------------------------------------------
  // The statements
  // ---------------------------------------------------------------------------------------------

  /** The verified read's answer for a row as it stands. */
  function Refusal(row: Invitation, now: int): Option<Error> {
    match row.state
    case Accepted => Some(AlreadyAccepted)
    case Revoked => Some(IsRevoked)
    case Expired => Some(IsExpired)
    case Pending => if row.expiresAt < now then Some(IsExpired) else None
  }

  /** The conditional update: no row unless it is pending and has not expired. */
  function Consumed(row: Invitation, user: string, now: int): Option<Invitation> {
    if row.state.Pending? && row.expiresAt >= now
    then Some(row.(state := Accepted, acceptedAt := Some(now), acceptedBy := Some(user)))
    else None
  }

  /** Any row but an accepted one; the first revocation's time survives. */
  function RevokedRow(row: Invitation, now: int): Option<Invitation> {
    if row.state.Accepted? then None
    else Some(row.(state := Revoked, revokedAt := if row.revokedAt.Some? then row.revokedAt else Some(now)))
  }

  function InsertIgnoring(m: Memberships, workspace: string, user: string, row: Membership): Memberships {
    if (workspace, user) in m then m else m[(workspace, user) := row]
  }

  function WithGrants(m: Memberships, grants: seq<Grant>, user: string, tenant: string): Memberships {
    if grants == [] then m
    else
      var last := grants[|grants| - 1];
      InsertIgnoring(WithGrants(m, grants[..|grants| - 1], user, tenant),
                     last.workspace, user, Membership(tenant, last.role))
  }

  predicate MemberOf(tenants: map<string, string>, user: string, tenant: string) {
    user in tenants && tenants[user] == tenant
  }

  // ---------------------------------------------------------------------------------------------
  // One call, alone
  // ---------------------------------------------------------------------------------------------

  /** What an accept leaves, and its error if it refuses, in which case it leaves everything. */
  function Accept(t: Tables, o: Offer, user: string, mode: Mode, now: int): (Tables, Option<Error>) {
    if Refusal(t.invitation, now).Some? then (t, Refusal(t.invitation, now))
    else if mode.Require? && !MemberOf(t.tenants, user, o.tenant) then (t, Some(TenantConflict))
    else if mode.Create? && user in t.tenants && t.tenants[user] != o.tenant then (t, Some(TenantConflict))
    else
      (Tables(Consumed(t.invitation, user, now).value,
              WithGrants(t.memberships, o.grants, user, o.tenant),
              if mode.Create? then t.tenants[user := o.tenant] else t.tenants), None)
  }

  /** What a revoke leaves, and its error if the invitation was accepted. */
  function Revocation(t: Tables, now: int): (Tables, Option<Error>) {
    var row := RevokedRow(t.invitation, now);
    if row.None? then (t, Some(AlreadyAccepted)) else (t.(invitation := row.value), None)
  }

  /** The user may not enter: a member of another tenant, or of none where membership is required. */
  ghost predicate Conflicts(tenants: map<string, string>, user: string, mode: Mode, tenant: string) {
    if user in tenants then tenants[user] != tenant else mode.Require?
  }

  /** Why an accept is refused, for each reason and for no other. */
  ghost predicate SaysWhy(error: Option<Error>, t: Tables, o: Offer, user: string, mode: Mode, now: int) {
    var row := t.invitation;
    var open := row.state.Pending? && now <= row.expiresAt;
    && (error == Some(AlreadyAccepted) <==> row.state.Accepted?)
    && (error == Some(IsRevoked) <==> row.state.Revoked?)
    && (error == Some(IsExpired) <==> row.state.Expired? || (row.state.Pending? && row.expiresAt < now))
    && (error == Some(TenantConflict) <==> open && Conflicts(t.tenants, user, mode, o.tenant))
    && (error.None? <==> open && !Conflicts(t.tenants, user, mode, o.tenant))
  }

  /** The first grant for the workspace, in the invitation's order, gives the role. */
  ghost predicate FirstOffer(grants: seq<Grant>, workspace: string, role: string) {
    exists i :: 0 <= i < |grants| && grants[i] == Grant(workspace, role)
                && forall j :: 0 <= j < i ==> grants[j].workspace != workspace
  }

  /** Every workspace named has the user as a member; who was one already keeps the role held. */
  ghost predicate Granted(m: Memberships, m': Memberships, grants: seq<Grant>, user: string, tenant: string) {
    && (forall k :: k in m ==> k in m' && m'[k] == m[k])
    && (forall g :: g in grants ==> (g.workspace, user) in m')
    && (forall k :: k in m' && k !in m ==>
          k.1 == user && m'[k].tenant == tenant && FirstOffer(grants, k.0, m'[k].role))
  }

  /** What a successful accept leaves. */
  ghost predicate Taken(t: Tables, t': Tables, o: Offer, user: string, mode: Mode, now: int) {
    && t'.invitation == t.invitation.(state := Accepted, acceptedAt := Some(now), acceptedBy := Some(user))
    && Granted(t.memberships, t'.memberships, o.grants, user, o.tenant)
    && user in t'.tenants && t'.tenants[user] == o.tenant
    && (forall u :: u != user ==> (u in t'.tenants <==> u in t.tenants))
    && (forall u :: u in t.tenants ==> t'.tenants[u] == t.tenants[u])
  }

  lemma FirstOfferStays(front: seq<Grant>, last: Grant, workspace: string, role: string)
    requires FirstOffer(front, workspace, role)
    ensures FirstOffer(front + [last], workspace, role)
  {
    var i :| 0 <= i < |front| && front[i] == Grant(workspace, role)
             && forall j :: 0 <= j < i ==> front[j].workspace != workspace;
    assert (front + [last])[i] == front[i];
    assert forall j :: 0 <= j < i ==> (front + [last])[j] == front[j];
  }

  lemma NewOfferIsFirst(front: seq<Grant>, last: Grant)
    requires forall g :: g in front ==> g.workspace != last.workspace
    ensures FirstOffer(front + [last], last.workspace, last.role)
  {
    var all := front + [last];
    assert all[|front|] == Grant(last.workspace, last.role);
    assert forall j :: 0 <= j < |front| ==> all[j] in front;
  }

  lemma {:induction false} GrantsAreGiven(m: Memberships, grants: seq<Grant>, user: string, tenant: string)
    ensures Granted(m, WithGrants(m, grants, user, tenant), grants, user, tenant)
  {
    if grants != [] {
      var front, last := grants[..|grants| - 1], grants[|grants| - 1];
      assert grants == front + [last];
      GrantsAreGiven(m, front, user, tenant);
      OneMoreGiven(m, WithGrants(m, front, user, tenant), front, last, user, tenant);
    }
  }

  lemma OneMoreGiven(
      m: Memberships, before: Memberships, front: seq<Grant>, last: Grant, user: string, tenant: string)
    requires Granted(m, before, front, user, tenant)
    ensures Granted(m, InsertIgnoring(before, last.workspace, user, Membership(tenant, last.role)),
                    front + [last], user, tenant)
  {
    var after := InsertIgnoring(before, last.workspace, user, Membership(tenant, last.role));
    forall k | k in after && k !in m ensures FirstOffer(front + [last], k.0, after[k].role) {
      if k in before {
        FirstOfferStays(front, last, k.0, after[k].role);
      } else {
        NewOfferIsFirst(front, last);
      }
    }
  }

  /** An accept says why it is refused and then changes nothing, or takes the invitation up in full. */
  lemma AcceptSaysWhy(t: Tables, o: Offer, user: string, mode: Mode, now: int)
    ensures var (left, error) := Accept(t, o, user, mode, now);
            && SaysWhy(error, t, o, user, mode, now)
            && (if error.Some? then left == t else Taken(t, left, o, user, mode, now))
  {
    GrantsAreGiven(t.memberships, o.grants, user, o.tenant);
  }

  /** What the caller is told: the tenant entered and every workspace named, new to the user or not. */
  datatype Acceptance = Refused(error: Error) | Entered(tenant: string, workspaces: seq<Grant>)

  function Answer(o: Offer, error: Option<Error>): Acceptance {
    if error.Some? then Refused(error.value) else Entered(o.tenant, o.grants)
  }

  class InvitationStore {
    const offer: Offer
    var tables: Tables

    constructor (offer: Offer, tables: Tables)
      ensures this.offer == offer && this.tables == tables
    {
      this.offer := offer;
      this.tables := tables;
    }

    method AcceptInvitation(token: Option<Token>, active: Option<string>, user: string, mode: Mode, now: int)
        returns (result: Acceptance)
      modifies this
      ensures var conflict := token.Some? && active.Some? && active.value != token.value.tenant;
              var known := token == Some(Token(offer.tenant, old(tables).invitation.digest));
              var accept := Accept(old(tables), offer, user, mode, now);
              if conflict then tables == old(tables) && result == Refused(TenantConflict)
              else if !known then tables == old(tables) && result == Refused(NotFound)
              else tables == accept.0 && result == Answer(offer, accept.1)
      ensures token == Some(Token(offer.tenant, old(tables).invitation.digest))
              && active in {None, Some(offer.tenant)} ==>
                && SaysWhy(if result.Refused? then Some(result.error) else None, old(tables), offer, user, mode, now)
                && (if result.Refused? then tables == old(tables)
                    else && Taken(old(tables), tables, offer, user, mode, now)
                         && result == Entered(offer.tenant, offer.grants))
    {
      AcceptSaysWhy(tables, offer, user, mode, now);
      if token.None? {
        return Refused(NotFound);
      }
      if active.Some? && active.value != token.value.tenant {
        return Refused(TenantConflict);
      }
      if token.value != Token(offer.tenant, tables.invitation.digest) {
        return Refused(NotFound);
      }
      var refusal := Refusal(tables.invitation, now);
      if refusal.Some? {
        return Refused(refusal.value);
      }
      if mode.Require? && !MemberOf(tables.tenants, user, offer.tenant) {
        return Refused(TenantConflict);
      }
      var consumed := Consumed(tables.invitation, user, now);
      var memberships := tables.memberships;
      for i := 0 to |offer.grants|
        invariant memberships == WithGrants(tables.memberships, offer.grants[..i], user, offer.tenant)
        invariant tables == old(tables)
      {
        assert offer.grants[..i + 1][..i] == offer.grants[..i];
        var named := offer.grants[i];
        if (named.workspace, user) !in memberships {
          memberships := memberships[(named.workspace, user) := Membership(offer.tenant, named.role)];
        }
      }
      assert offer.grants[..|offer.grants|] == offer.grants;
      var tenants := tables.tenants;
      if mode.Create? {
        if user !in tenants {
          tenants := tenants[user := offer.tenant];
        } else if tenants[user] != offer.tenant {
          return Refused(TenantConflict);
        }
        assert tenants == tables.tenants[user := offer.tenant];
      }
      tables := Tables(consumed.value, memberships, tenants);
      result := Entered(offer.tenant, offer.grants);
    }

    method Revoke(now: int) returns (error: Option<Error>)
      modifies this
      ensures (tables, error) == Revocation(old(tables), now)
    {
      if tables.invitation.state.Accepted? {
        return Some(AlreadyAccepted);
      }
      var row := tables.invitation;
      if row.revokedAt.None? {
        row := row.(revokedAt := Some(now));
      }
      tables := tables.(invitation := row.(state := InvitationState.Revoked));
      error := None;
    }
  }

  /** Any calls, one after another. */
  datatype Request = Accepting(user: string, mode: Mode, now: int) | Revoking(now: int)

  function Served(t: Tables, o: Offer, requests: seq<Request>): Tables {
    if requests == [] then t
    else
      var before := Served(t, o, requests[..|requests| - 1]);
      match requests[|requests| - 1]
      case Accepting(user, mode, now) => Accept(before, o, user, mode, now).0
      case Revoking(now) => Revocation(before, now).0
  }

  /** A revocation stands, with the time of the first: no later accept or revoke changes the row. */
  lemma {:induction false} RevocationStands(t: Tables, o: Offer, now: int, requests: seq<Request>)
    requires !t.invitation.state.Accepted?
    ensures var row := Served(Revocation(t, now).0, o, requests).invitation;
            && row.state.Revoked?
            && row.acceptedBy == t.invitation.acceptedBy && row.acceptedAt == t.invitation.acceptedAt
            && row.revokedAt == Some(if t.invitation.revokedAt.Some? then t.invitation.revokedAt.value else now)
    ensures var left := Served(Revocation(t, now).0, o, requests);
            && Revocation(t, now).1.None? && left.memberships == t.memberships && left.tenants == t.tenants
            && forall user, mode, later :: Accept(left, o, user, mode, later) == (left, Some(IsRevoked))
  {
    if requests != [] {
      RevocationStands(t, o, now, requests[..|requests| - 1]);
    }
  }

  /** An acceptance stands too: every later accept is refused and every later revoke reports it. */
  lemma {:induction false} AcceptanceStands(t: Tables, o: Offer, requests: seq<Request>)
    requires t.invitation.state.Accepted?
    ensures Served(t, o, requests) == t
    ensures forall user, mode, now :: Accept(t, o, user, mode, now) == (t, Some(AlreadyAccepted))
    ensures forall now :: Revocation(t, now) == (t, Some(AlreadyAccepted))
  {
    if requests != [] {
      AcceptanceStands(t, o, requests[..|requests| - 1]);
    }
  }

  // ---------------------------------------------------------------------------------------------
  // Concurrent transactions
  // ---------------------------------------------------------------------------------------------

  datatype Kind = Accepts(user: string, mode: Mode) | Revokes

  /**
   `Holding` is a transaction between its update, which locks the invitation's row, and its end: the
   row it will commit, how many grants it inserted, the memberships among them that are new, whether
   the tenant is settled and whether that row is new.
   */
  datatype Phase =
    | Begun
    | Seen
    | Cleared
    | Holding(row: Invitation, inserted: nat, added: Memberships, settled: bool, enrols: bool)
    | Done
    | Failed(error: Error)

  /** `now` is the transaction's own clock, read once when it begins. */
  datatype Tx = Tx(kind: Kind, now: int, phase: Phase)

  /** `accepts` are the accepts that committed, `elsewhere` the memberships other code made meanwhile. */
  datatype World = World(
    tables: Tables, txs: map<nat, Tx>, lock: Option<nat>, accepts: seq<nat>, elsewhere: set<(string, string)>)

  datatype Step =
    | Begin(x: nat, kind: Kind, now: int)
    | Verify(x: nat)
    | Check(x: nat)
    | Update(x: nat)
    | Insert(x: nat)
    | Enrol(x: nat)
    | Commit(x: nat)
    | Abort(x: nat)
    | SignUp(user: string, tenant: string)
    | Join(workspace: string, user: string, role: string)

  /** An index entry somebody has inserted and not committed makes any other insert of it wait. */
  ghost predicate Untaken(w: World, user: string, workspace: string) {
    forall x :: x in w.txs && w.txs[x].phase.Holding? ==>
      (workspace, user) !in w.txs[x].phase.added
  }

  ghost predicate TenantUntaken(w: World, user: string) {
    forall x :: x in w.txs && w.txs[x].phase.Holding? && w.txs[x].phase.enrols && w.txs[x].kind.Accepts? ==>
      w.txs[x].kind.user != user
  }

  ghost predicate Enabled(w: World, o: Offer, step: Step) {
    match step
    case Begin(x, _, _) => x !in w.txs
    case Verify(x) => x in w.txs && w.txs[x].kind.Accepts? && w.txs[x].phase.Begun?
    case Check(x) => x in w.txs && w.txs[x].kind.Accepts? && w.txs[x].phase.Seen?
    case Update(x) =>
      x in w.txs && w.lock.None? && (if w.txs[x].kind.Accepts? then w.txs[x].phase.Cleared? else w.txs[x].phase.Begun?)
    case Insert(x) =>
      x in w.txs && w.txs[x].kind.Accepts? && w.txs[x].phase.Holding? && w.txs[x].phase.inserted < |o.grants|
    case Enrol(x) =>
      && x in w.txs && w.txs[x].kind.Accepts? && w.txs[x].phase.Holding?
      && w.txs[x].phase.inserted == |o.grants| && !w.txs[x].phase.settled
    case Commit(x) => x in w.txs && w.txs[x].phase.Holding? && w.txs[x].phase.settled
    case Abort(x) => x in w.txs && !w.txs[x].phase.Done? && !w.txs[x].phase.Failed?
    case SignUp(user, _) => user !in w.tables.tenants && TenantUntaken(w, user)
    case Join(workspace, user, _) =>
      user in w.tables.tenants && (workspace, user) !in w.tables.memberships && Untaken(w, user, workspace)
  }

  function Moved(w: World, x: nat, phase: Phase): World
    requires x in w.txs
  {
    w.(txs := w.txs[x := w.txs[x].(phase := phase)])
  }

  /** A transaction that ends without committing gives back the lock, if it holds it. */
  function Dropped(w: World, x: nat, error: Error): World
    requires x in w.txs
  {
    Moved(w, x, Failed(error)).(lock := if w.txs[x].phase.Holding? then None else w.lock)
  }

  ghost function Next(w: World, o: Offer, step: Step): World
    requires Enabled(w, o, step)
  {
    match step
    case Begin(x, kind, now) => w.(txs := w.txs[x := Tx(kind, now, Begun)])
    case Verify(x) =>
      var refusal := Refusal(w.tables.invitation, w.txs[x].now);
      if refusal.Some? then Dropped(w, x, refusal.value) else Moved(w, x, Seen)
    case Check(x) =>
      if w.txs[x].kind.mode.Require? && !MemberOf(w.tables.tenants, w.txs[x].kind.user, o.tenant)
      then Dropped(w, x, TenantConflict) else Moved(w, x, Cleared)
    case Update(x) =>
      var tx := w.txs[x];
      var row := if tx.kind.Accepts? then Consumed(w.tables.invitation, tx.kind.user, tx.now)
                 else RevokedRow(w.tables.invitation, tx.now);
      if row.None? then Dropped(w, x, AlreadyAccepted)
      else Moved(w, x, Holding(row.value, 0, map[], tx.kind.Revokes?, false)).(lock := Some(x))
    case Insert(x) =>
      var tx := w.txs[x];
      var named := o.grants[tx.phase.inserted];
      var key := (named.workspace, tx.kind.user);
      var added := if key in w.tables.memberships || key in tx.phase.added then tx.phase.added
                   else tx.phase.added[key := Membership(o.tenant, named.role)];
      Moved(w, x, tx.phase.(inserted := tx.phase.inserted + 1, added := added))
    case Enrol(x) =>
      var tx := w.txs[x];
      if tx.kind.mode.Require? then Moved(w, x, tx.phase.(settled := true))
      else if tx.kind.user !in w.tables.tenants then Moved(w, x, tx.phase.(settled := true, enrols := true))
      else if w.tables.tenants[tx.kind.user] == o.tenant then Moved(w, x, tx.phase.(settled := true))
      else Dropped(w, x, TenantConflict)
    case Commit(x) =>
      var tx := w.txs[x];
      Moved(w, x, Done).(
        lock := None,
        accepts := if tx.kind.Accepts? then w.accepts + [x] else w.accepts,
        tables := Tables(tx.phase.row, w.tables.memberships + tx.phase.added,
                         if tx.phase.enrols && tx.kind.Accepts? then w.tables.tenants[tx.kind.user := o.tenant]
                         else w.tables.tenants))
    case Abort(x) => Dropped(w, x, ConnectionLost)
    case SignUp(user, tenant) => w.(tables := w.tables.(tenants := w.tables.tenants[user := tenant]))
    case Join(workspace, user, role) =>
      w.(tables := w.tables.(
           memberships := w.tables.memberships[(workspace, user) := Membership(w.tables.tenants[user], role)]),
         elsewhere := w.elsewhere + {(workspace, user)})
  }

  ghost predicate Leads(w: World, o: Offer, steps: seq<Step>, v: World)
    decreases |steps|
  {
    if steps == [] then w == v else Enabled(w, o, steps[0]) && Leads(Next(w, o, steps[0]), o, steps[1..], v)
  }

  // ---------------------------------------------------------------------------------------------
  // The invariant
  // ---------------------------------------------------------------------------------------------

  /** The row's times and its state say the same. */
  predicate WellFormed(row: Invitation) {
    && (row.state.Accepted? <==> row.acceptedAt.Some?) && (row.acceptedAt.Some? <==> row.acceptedBy.Some?)
    && (row.state.Revoked? <==> row.revokedAt.Some?)
  }

  /** The lock's holder is the one transaction past its update, and its row follows the committed one. */
  ghost predicate Locked(w: World) {
    && (w.lock.Some? ==> w.lock.value in w.txs && w.txs[w.lock.value].phase.Holding?)
    && (forall x :: x in w.txs && w.txs[x].phase.Holding? ==> w.lock == Some(x) && Follows(w, w.txs[x]))
  }

  ghost predicate Follows(w: World, tx: Tx) {
    tx.phase.Holding? &&
    Some(tx.phase.row) == (if tx.kind.Accepts? then Consumed(w.tables.invitation, tx.kind.user, tx.now)
                           else RevokedRow(w.tables.invitation, tx.now))
  }

  /** The invitation offers a role in a workspace. */
  ghost predicate Offers(o: Offer, workspace: string, row: Membership) {
    row.tenant == o.tenant && Grant(workspace, row.role) in o.grants
  }

  /** What a holder has inserted: its user's, as the invitation offers it, none of it there before. */
  ghost predicate Added(w: World, o: Offer, tx: Tx) {
    tx.phase.Holding? ==>
      forall k :: k in tx.phase.added ==>
        && k !in w.tables.memberships && tx.kind.Accepts? && k.1 == tx.kind.user
        && Offers(o, k.0, tx.phase.added[k])
  }

  /** And how far it is: the grants it has passed are all there, committed or inserted. */
  ghost predicate Passed(w: World, o: Offer, tx: Tx) {
    tx.phase.Holding? && tx.kind.Accepts? ==>
      && tx.phase.inserted <= |o.grants| && (tx.phase.settled ==> tx.phase.inserted == |o.grants|)
      && forall j :: 0 <= j < tx.phase.inserted ==>
           (o.grants[j].workspace, tx.kind.user) in tx.phase.added
           || (o.grants[j].workspace, tx.kind.user) in w.tables.memberships
  }

  ghost predicate Staged(w: World, o: Offer, tx: Tx) {
    Added(w, o, tx) && Passed(w, o, tx)
  }

  ghost predicate AllStaged(w: World, o: Offer) {
    forall x :: x in w.txs ==> Staged(w, o, w.txs[x])
  }

  /** A membership lies in the one tenant its user has. */
  ghost predicate Tenanted(w: World) {
    forall k :: k in w.tables.memberships ==> MemberOf(w.tables.tenants, k.1, w.tables.memberships[k].tenant)
  }

  /** Past its check a requiring accept's user is in the tenant; once settled, so will any be. */
  ghost predicate Entitled(w: World, o: Offer, tx: Tx) {
    tx.kind.Accepts? ==>
      && (tx.kind.mode.Require? && (tx.phase.Cleared? || tx.phase.Holding?) ==>
            MemberOf(w.tables.tenants, tx.kind.user, o.tenant))
      && (tx.phase.Holding? && tx.phase.enrols ==> tx.kind.user !in w.tables.tenants)
      && (tx.phase.Holding? && tx.phase.settled && !tx.phase.enrols ==>
            MemberOf(w.tables.tenants, tx.kind.user, o.tenant))
  }

  ghost predicate AllEntitled(w: World, o: Offer) {
    forall x :: x in w.txs ==> Entitled(w, o, w.txs[x])
  }

  /** At most one accept committed; one did iff the row is accepted, and then its grants are all there. */
  ghost predicate Single(w: World, o: Offer) {
    && WellFormed(w.tables.invitation)
    && |w.accepts| == (if w.tables.invitation.state.Accepted? then 1 else 0)
    && (w.tables.invitation.acceptedBy.Some? ==>
          && w.accepts[0] in w.txs && w.txs[w.accepts[0]].phase.Done?
          && w.txs[w.accepts[0]].kind.Accepts? && w.tables.invitation.acceptedBy.value == w.txs[w.accepts[0]].kind.user
          && forall g :: g in o.grants ==> (g.workspace, w.tables.invitation.acceptedBy.value) in w.tables.memberships)
  }

  /** Where a membership came from: it was there, it was made elsewhere, or the committed accept made it. */
  ghost predicate Sourced(w: World, o: Offer, initial: Memberships) {
    forall k :: k in w.tables.memberships ==>
      || k in initial || k in w.elsewhere
      || (w.tables.invitation.acceptedBy == Some(k.1) && Offers(o, k.0, w.tables.memberships[k]))
  }

  ghost predicate Inv(w: World, o: Offer, initial: Memberships) {
    Locked(w) && AllStaged(w, o) && Tenanted(w) && AllEntitled(w, o) && Single(w, o) && Sourced(w, o, initial)
  }

  // ---------------------------------------------------------------------------------------------
  // Every step keeps it
  // ---------------------------------------------------------------------------------------------

  lemma KeepsLocked(w: World, o: Offer, step: Step)
    requires Locked(w) && Enabled(w, o, step)
    ensures Locked(Next(w, o, step))
  {
    var v := Next(w, o, step);
    forall x | x in v.txs && v.txs[x].phase.Holding? ensures v.lock == Some(x) && Follows(v, v.txs[x]) {
      if x in w.txs && w.txs[x].phase.Holding? {
        assert Follows(w, w.txs[x]);
      }
    }
  }

  lemma KeepsAdded(w: World, o: Offer, step: Step, x: nat)
    requires Locked(w) && Enabled(w, o, step) && x in Next(w, o, step).txs
    requires x in w.txs ==> Added(w, o, w.txs[x])
    ensures Added(Next(w, o, step), o, Next(w, o, step).txs[x])
  {
  }

  lemma KeepsPassed(w: World, o: Offer, step: Step, x: nat)
    requires Enabled(w, o, step) && x in Next(w, o, step).txs
    requires x in w.txs ==> Passed(w, o, w.txs[x])
    ensures Passed(Next(w, o, step), o, Next(w, o, step).txs[x])
  {
  }

  lemma KeepsStaged(w: World, o: Offer, step: Step)
    requires Locked(w) && AllStaged(w, o) && Enabled(w, o, step)
    ensures AllStaged(Next(w, o, step), o)
  {
    var v := Next(w, o, step);
    forall x | x in v.txs ensures Staged(v, o, v.txs[x]) {
      assert x in w.txs ==> Staged(w, o, w.txs[x]);
      KeepsAdded(w, o, step, x);
      KeepsPassed(w, o, step, x);
    }
  }

  lemma KeepsTenanted(w: World, o: Offer, step: Step)
    requires Tenanted(w) && AllStaged(w, o) && AllEntitled(w, o) && Enabled(w, o, step)
    ensures Tenanted(Next(w, o, step))
  {
    if step.Commit? {
      assert Staged(w, o, w.txs[step.x]) && Entitled(w, o, w.txs[step.x]);
    }
  }

  lemma KeepsEntitled(w: World, o: Offer, step: Step)
    requires Locked(w) && AllEntitled(w, o) && Enabled(w, o, step)
    ensures AllEntitled(Next(w, o, step), o)
  {
    var v := Next(w, o, step);
    forall x | x in v.txs ensures Entitled(v, o, v.txs[x]) {
      if x in w.txs {
        assert Entitled(w, o, w.txs[x]);
      }
    }
  }

  lemma KeepsSingle(w: World, o: Offer, step: Step)
    requires Locked(w) && AllStaged(w, o) && Single(w, o) && Enabled(w, o, step)
    ensures Single(Next(w, o, step), o)
  {
    if step.Commit? {
      assert Follows(w, w.txs[step.x]) && Staged(w, o, w.txs[step.x]);
    }
  }

  lemma KeepsSourced(w: World, o: Offer, initial: Memberships, step: Step)
    requires Locked(w) && AllStaged(w, o) && Single(w, o) && Sourced(w, o, initial) && Enabled(w, o, step)
    ensures Sourced(Next(w, o, step), o, initial)
  {
    if step.Commit? {
      assert Follows(w, w.txs[step.x]) && Staged(w, o, w.txs[step.x]);
    }
  }

  lemma {:induction false} Reachable(w: World, o: Offer, initial: Memberships, steps: seq<Step>, v: World)
    requires Inv(w, o, initial) && Leads(w, o, steps, v)
    ensures Inv(v, o, initial)
    decreases |steps|
  {
    if steps != [] {
      KeepsLocked(w, o, steps[0]);
      KeepsStaged(w, o, steps[0]);
      KeepsTenanted(w, o, steps[0]);
      KeepsEntitled(w, o, steps[0]);
      KeepsSingle(w, o, steps[0]);
      KeepsSourced(w, o, initial, steps[0]);
      Reachable(Next(w, o, steps[0]), o, initial, steps[1..], v);
    }
  }

  /** A pending, revoked or expired invitation, and memberships that lie in their users' tenants. */
  ghost predicate Initial(w: World) {
    && w.txs == map[] && w.lock == None && w.accepts == [] && w.elsewhere == {}
    && WellFormed(w.tables.invitation) && !w.tables.invitation.state.Accepted? && Tenanted(w)
  }

  /**
   ACCEPTED AT MOST ONCE. Whatever interleaves, at most one accept commits, and one did iff the row is
   accepted; then every workspace the invitation names has a membership of that accept's user. Every
   membership lies in its user's single tenant, and those that were neither there before nor made
   elsewhere are the accepting user's, with a role the invitation offers, in the invitation's tenant.
   */
  lemma AcceptedAtMostOnce(w: World, o: Offer, steps: seq<Step>, v: World)
    requires Initial(w) && Leads(w, o, steps, v)
    ensures |v.accepts| <= 1 && (|v.accepts| == 1 <==> v.tables.invitation.state.Accepted?)
    ensures !(v.tables.invitation.acceptedAt.Some? && v.tables.invitation.revokedAt.Some?)
    ensures forall g :: g in o.grants && v.tables.invitation.acceptedBy.Some? ==>
              (g.workspace, v.tables.invitation.acceptedBy.value) in v.tables.memberships
    ensures forall k :: k in v.tables.memberships ==>
              MemberOf(v.tables.tenants, k.1, v.tables.memberships[k].tenant)
    ensures forall k :: k in v.tables.memberships && k !in w.tables.memberships && k !in v.elsewhere ==>
              v.tables.invitation.acceptedBy == Some(k.1) && Offers(o, k.0, v.tables.memberships[k])
  {
    Reachable(w, o, w.tables.memberships, steps, v);
  }

  lemma StepIsFinal(w: World, o: Offer, step: Step)
    requires Locked(w) && AllStaged(w, o) && AllEntitled(w, o) && Enabled(w, o, step) && WellFormed(w.tables.invitation)
    ensures w.tables.invitation.state.Accepted? || w.tables.invitation.state.Revoked? ==>
              Next(w, o, step).tables.invitation == w.tables.invitation
    ensures forall k :: k in w.tables.memberships ==>
              k in Next(w, o, step).tables.memberships
              && Next(w, o, step).tables.memberships[k] == w.tables.memberships[k]
    ensures forall u :: u in w.tables.tenants ==>
              u in Next(w, o, step).tables.tenants && Next(w, o, step).tables.tenants[u] == w.tables.tenants[u]
  {
    if step.Commit? {
      assert Follows(w, w.txs[step.x]) && Staged(w, o, w.txs[step.x]) && Entitled(w, o, w.txs[step.x]);
    }
  }

  /**
   TERMINAL. An accepted row and a revoked row never change again, the first revocation's time
   included, and no membership, role or tenant that was there changes or goes.
   */
  lemma {:induction false} DecidedIsFinal(w: World, o: Offer, initial: Memberships, steps: seq<Step>, v: World)
    requires Inv(w, o, initial) && Leads(w, o, steps, v)
    ensures w.tables.invitation.state.Accepted? || w.tables.invitation.state.Revoked? ==>
              v.tables.invitation == w.tables.invitation
    ensures forall k :: k in w.tables.memberships ==>
              k in v.tables.memberships && v.tables.memberships[k] == w.tables.memberships[k]
    ensures forall u :: u in w.tables.tenants ==>
              u in v.tables.tenants && v.tables.tenants[u] == w.tables.tenants[u]
    decreases |steps|
  {
    if steps != [] {
      StepIsFinal(w, o, steps[0]);
      var u := Next(w, o, steps[0]);
      Reachable(w, o, initial, [steps[0]], u) by {
        assert [steps[0]][1..] == [];
      }
      DecidedIsFinal(u, o, initial, steps[1..], v);
    }
  }

  // ---------------------------------------------------------------------------------------------
  // A call alone is an uninterrupted run
  // ---------------------------------------------------------------------------------------------

  lemma {:induction false} LeadsThen(w: World, o: Offer, p: seq<Step>, v: World, q: seq<Step>, u: World)
    requires Leads(w, o, p, v) && Leads(v, o, q, u)
    ensures Leads(w, o, p + q, u)
    decreases |p|
  {
    if p == [] {
      assert p + q == q;
    } else {
      assert (p + q)[1..] == p[1..] + q;
      LeadsThen(Next(w, o, p[0]), o, p[1..], v, q, u);
    }
  }

  lemma Then(w: World, o: Offer, p: seq<Step>, v: World, step: Step) returns (q: seq<Step>, u: World)
    requires Leads(w, o, p, v) && Enabled(v, o, step)
    ensures u == Next(v, o, step) && q == p + [step] && Leads(w, o, q, u)
  {
    u := Next(v, o, step);
    q := p + [step];
    assert [step][1..] == [];
    LeadsThen(w, o, p, v, [step], u);
  }

  /** The memberships committed and inserted so far are the grants taken in order. */
  lemma {:induction false} InsertsAll(w: World, o: Offer, x: nat, n: nat) returns (steps: seq<Step>, v: World)
    requires x in w.txs && w.txs[x].kind.Accepts? && w.txs[x].phase.Holding? && n <= |o.grants|
    requires w.txs[x].phase.inserted == 0 && w.txs[x].phase.added == map[]
    ensures Leads(w, o, steps, v) && x in v.txs
    ensures v == Moved(w, x, v.txs[x].phase) && v.txs[x].phase.Holding?
    ensures v.txs[x].phase == w.txs[x].phase.(inserted := n, added := v.txs[x].phase.added)
    ensures w.tables.memberships + v.txs[x].phase.added ==
            WithGrants(w.tables.memberships, o.grants[..n], w.txs[x].kind.user, o.tenant)
    ensures forall k :: k in v.txs[x].phase.added ==> k !in w.tables.memberships
    decreases n
  {
    if n == 0 {
      steps, v := [], w;
      assert w.tables.memberships + map[] == w.tables.memberships;
      assert w.txs == w.txs[x := w.txs[x]];
    } else {
      var p, u := InsertsAll(w, o, x, n - 1);
      steps, v := Then(w, o, p, u, Insert(x));
      assert o.grants[..n][..n - 1] == o.grants[..n - 1];
      var last := o.grants[n - 1];
      var user := w.txs[x].kind.user;
      var before := w.tables.memberships + u.txs[x].phase.added;
      assert w.tables.memberships + v.txs[x].phase.added ==
             InsertIgnoring(before, last.workspace, user, Membership(o.tenant, last.role));
      assert v.txs == w.txs[x := v.txs[x]];
    }
  }

  /** Begin, verify and check, uninterrupted: either refused as the call is, or ready to consume. */
  lemma Opens(w: World, o: Offer, x: nat, user: string, mode: Mode, now: int) returns (steps: seq<Step>, v: World)
    requires x !in w.txs
    ensures Leads(w, o, steps, v) && x in v.txs && v == w.(txs := w.txs[x := v.txs[x]])
    ensures v.txs[x].kind == Accepts(user, mode) && v.txs[x].now == now
    ensures var refusal := Refusal(w.tables.invitation, now);
            var member := mode.Require? ==> MemberOf(w.tables.tenants, user, o.tenant);
            v.txs[x].phase == (if refusal.Some? then Failed(refusal.value)
                               else if !member then Failed(TenantConflict) else Phase.Cleared)
  {
    steps, v := Then(w, o, [], w, Begin(x, Accepts(user, mode), now));
    steps, v := Then(w, o, steps, v, Verify(x));
    if v.txs[x].phase.Seen? {
      steps, v := Then(w, o, steps, v, Check(x));
    }
  }

  /** An accept no other transaction interrupts has the outcome of the call. */
  lemma UninterruptedAcceptIsTheCall(w: World, o: Offer, x: nat, user: string, mode: Mode, now: int)
      returns (steps: seq<Step>, v: World)
    requires x !in w.txs && w.lock.None?
    ensures Leads(w, o, steps, v) && x in v.txs
    ensures v.tables == Accept(w.tables, o, user, mode, now).0
    ensures v.txs[x].phase ==
            (var error := Accept(w.tables, o, user, mode, now).1; if error.Some? then Failed(error.value) else Done)
  {
    steps, v := Opens(w, o, x, user, mode, now);
    if v.txs[x].phase.Failed? {
      return;
    }
    steps, v := Then(w, o, steps, v, Update(x));
    var held := v;
    var inserts;
    inserts, v := InsertsAll(held, o, x, |o.grants|);
    assert o.grants[..|o.grants|] == o.grants;
    LeadsThen(w, o, steps, held, inserts, v);
    steps, v := Then(w, o, steps + inserts, v, Enrol(x));
    if v.txs[x].phase.Failed? {
      return;
    }
    steps, v := Then(w, o, steps, v, Commit(x));
    if mode.Create? && user in w.tables.tenants {
      assert w.tables.tenants[user := o.tenant] == w.tables.tenants;
    }
  }

  // ---------------------------------------------------------------------------------------------
  // The error of an accept that comes too late
  // ---------------------------------------------------------------------------------------------

  /** A revocation that committed. */
  ghost predicate RevokedBy(w: World, y: nat) {
    y in w.txs && w.txs[y].kind.Revokes? && w.txs[y].phase.Done?
  }

  ghost predicate AcceptedBy(w: World, y: nat) {
    y in w.txs && w.txs[y].kind.Accepts? && w.txs[y].phase.Done?
  }

  /** A row that some transaction's commit decided is decided so. */
  ghost predicate Decisive(w: World) {
    forall y :: && (RevokedBy(w, y) ==> w.tables.invitation.state.Revoked?)
                && (AcceptedBy(w, y) ==> w.tables.invitation.state.Accepted?)
  }

  lemma KeepsDecisive(w: World, o: Offer, step: Step)
    requires Locked(w) && Decisive(w) && Enabled(w, o, step)
    ensures Decisive(Next(w, o, step))
  {
    var v := Next(w, o, step);
    if step.Commit? {
      assert Follows(w, w.txs[step.x]);
    }
    forall y ensures RevokedBy(v, y) ==> v.tables.invitation.state.Revoked?
             ensures AcceptedBy(v, y) ==> v.tables.invitation.state.Accepted? {
      assert RevokedBy(w, y) ==> w.tables.invitation.state.Revoked?;
      assert AcceptedBy(w, y) ==> w.tables.invitation.state.Accepted?;
    }
  }

  lemma {:induction false} ReachableDecisive(w: World, o: Offer, initial: Memberships, steps: seq<Step>, v: World)
    requires Inv(w, o, initial) && Decisive(w) && Leads(w, o, steps, v)
    ensures Decisive(v)
    decreases |steps|
  {
    if steps != [] {
      var u := Next(w, o, steps[0]);
      KeepsDecisive(w, o, steps[0]);
      assert [steps[0]][1..] == [];
      Reachable(w, o, initial, [steps[0]], u);
      ReachableDecisive(u, o, initial, steps[1..], v);
    }
  }

  lemma {:induction false} FailedStays(w: World, o: Offer, steps: seq<Step>, v: World, x: nat)
    requires Leads(w, o, steps, v) && x in w.txs && w.txs[x].phase.Failed?
    ensures x in v.txs && v.txs[x] == w.txs[x]
    decreases |steps|
  {
    if steps != [] {
      FailedStays(Next(w, o, steps[0]), o, steps[1..], v, x);
    }
  }

  /**
   Over every run, an accept whose verified read follows a committed revocation ends "revoked", and one
   whose read follows a committed accept ends "already accepted", whatever comes after.
   */
  lemma LateAcceptSaysWhy(
      w: World, o: Offer, steps: seq<Step>, v: World, x: nat, y: nat, rest: seq<Step>, end: World)
    requires Initial(w) && Leads(w, o, steps, v) && Enabled(v, o, Verify(x))
    requires Leads(Next(v, o, Verify(x)), o, rest, end)
    ensures RevokedBy(v, y) ==> x in end.txs && end.txs[x].phase == Failed(IsRevoked)
    ensures AcceptedBy(v, y) ==> x in end.txs && end.txs[x].phase == Failed(AlreadyAccepted)
  {
    ReachableDecisive(w, o, w.tables.memberships, steps, v);
    var u := Next(v, o, Verify(x));
    if RevokedBy(v, y) || AcceptedBy(v, y) {
      FailedStays(u, o, rest, end, x);
    }
  }

  // ---------------------------------------------------------------------------------------------
  // The error of an accept that lost
  // ---------------------------------------------------------------------------------------------

  /** Past its verified read an accept knows the row had not expired, and no row expires by itself. */
  ghost predicate Timely(w: World, tx: Tx) {
    tx.kind.Accepts? && (tx.phase.Seen? || tx.phase.Cleared?) ==>
      !w.tables.invitation.state.Expired? && tx.now <= w.tables.invitation.expiresAt
  }

  ghost predicate AllTimely(w: World) {
    forall x :: x in w.txs ==> Timely(w, w.txs[x])
  }

  lemma KeepsTimely(w: World, o: Offer, step: Step)
    requires Locked(w) && AllTimely(w) && Enabled(w, o, step)
    ensures AllTimely(Next(w, o, step))
  {
    var v := Next(w, o, step);
    if step.Commit? {
      assert Follows(w, w.txs[step.x]);
    }
    forall x | x in v.txs ensures Timely(v, v.txs[x]) {
      if x in w.txs {
        assert Timely(w, w.txs[x]);
      }
    }
  }

  lemma {:induction false} ReachableTimely(w: World, o: Offer, initial: Memberships, steps: seq<Step>, v: World)
    requires Inv(w, o, initial) && AllTimely(w) && Leads(w, o, steps, v)
    ensures AllTimely(v)
    decreases |steps|
  {
    if steps != [] {
      var u := Next(w, o, steps[0]);
      KeepsTimely(w, o, steps[0]);
      assert [steps[0]][1..] == [];
      Reachable(w, o, initial, [steps[0]], u);
      ReachableTimely(u, o, initial, steps[1..], v);
    }
  }

  /**
   Over every run, an accept fails at its consume iff the invitation is no longer pending, always with
   "already accepted". Then it was accepted or revoked meanwhile, and the report is true iff it was
   accepted: iff some accept committed.
   */
  lemma ConsumeFailsIffDecided(w: World, o: Offer, steps: seq<Step>, v: World, x: nat)
    requires Initial(w) && Leads(w, o, steps, v) && Enabled(v, o, Update(x)) && v.txs[x].kind.Accepts?
    ensures var state, phase := v.tables.invitation.state, Next(v, o, Update(x)).txs[x].phase;
            && (phase.Failed? <==> !state.Pending?)
            && (phase.Failed? ==> phase.error == AlreadyAccepted && (state.Accepted? || state.Revoked?))
            && (state.Accepted? <==> |v.accepts| == 1)
            && (state.Revoked? <==> v.tables.invitation.revokedAt.Some?)
  {
    Reachable(w, o, w.tables.memberships, steps, v);
    ReachableTimely(w, o, w.tables.memberships, steps, v);
    assert Timely(v, v.txs[x]);
  }

  /** So it says "already accepted" even when what decided it was a revocation. */
  lemma LosingToARevokeReportsAccepted(w: World, o: Offer, user: string, now: int) returns (steps: seq<Step>, v: World)
    requires Initial(w) && w.tables.invitation.state.Pending? && w.tables.invitation.expiresAt >= now
    ensures Leads(w, o, steps, v) && v.accepts == [] && v.tables.invitation.state.Revoked?
    ensures 1 in v.txs && v.txs[1] == Tx(Accepts(user, Create), now, Failed(AlreadyAccepted))
  {
    steps, v := Opens(w, o, 1, user, Create, now);
    steps, v := Then(w, o, steps, v, Begin(2, Revokes, now));
    steps, v := Then(w, o, steps, v, Update(2));
    steps, v := Then(w, o, steps, v, Commit(2));
    steps, v := Then(w, o, steps, v, Update(1));
  }
}
