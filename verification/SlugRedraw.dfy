/** Creating a link under a generated slug, each draw a real insert inside its own savepoint. */
module SlugRedraw {
  // A draw the unique index refuses leaves the transaction as it was.

  import opened Options
  import SlugKeys

  const SLUG_GENERATION_MAX_ATTEMPTS := 5

  const UNIQUE_VIOLATION := "23505"
  const FOREIGN_KEY_VIOLATION := "23503"
  const CHECK_VIOLATION := "23514"
  const IN_FAILED_TRANSACTION := "25P02"
  const SLUG_UNIQUE_CONSTRAINT := "links_domain_id_slug_unique"
  const DOMAIN_PAIR_CONSTRAINTS := {"links_domain_tenant_fk", "links_domain_owner_check"}
  const WORKSPACE_PAIR_CONSTRAINT := "links_workspace_tenant_fk"
  const SLUG_SAVEPOINT := "slug_try"

  datatype PgError = PgError(code: string, constraint: Option<string>)

  datatype LinkError =
    | WorkspaceNotFound
    | LinkDomainUnavailable(cause: PgError)
    | InvalidSlug(violation: SlugKeys.SlugViolation)
    | SlugTaken
    | SlugGenerationExhausted
    | Rethrown(error: PgError)

  datatype LinkRow = LinkRow(domainId: string, slug: string, workspaceId: string, destinationUrl: string)

  datatype Savepoint = Savepoint(name: string, rows: seq<LinkRow>)

  /** The links index: no two rows share a domain and a slug. */
  ghost predicate Unique(rows: seq<LinkRow>) {
    forall i, j :: 0 <= i < j < |rows| ==> (rows[i].domainId, rows[i].slug) != (rows[j].domainId, rows[j].slug)
  }

  predicate Taken(rows: seq<LinkRow>, domainId: string, slug: string) {
    exists i :: 0 <= i < |rows| && rows[i].domainId == domainId && rows[i].slug == slug
  }

  /** What else can be wrong with an insert: the checks run before the unique index, foreign keys after. */
  datatype Defect = Sound | Before(error: PgError) | Later(error: PgError)

  predicate IsSlugCollision(e: PgError) {
    e == PgError(UNIQUE_VIOLATION, Some(SLUG_UNIQUE_CONSTRAINT))
  }

  /** What an insert of a row answers; the index also holds slugs other transactions have just taken. */
  function InsertAnswer(rows: seq<LinkRow>, row: LinkRow, elsewhere: set<string>, defect: Defect): Option<PgError> {
    if defect.Before? then Some(defect.error)
    else if Taken(rows, row.domainId, row.slug) || row.slug in elsewhere
    then Some(PgError(UNIQUE_VIOLATION, Some(SLUG_UNIQUE_CONSTRAINT)))
    else if defect.Later? then Some(defect.error) else None
  }

  function MappedRefusal(e: PgError): LinkError {
    if e.code == FOREIGN_KEY_VIOLATION && e.constraint == Some(WORKSPACE_PAIR_CONSTRAINT) then WorkspaceNotFound
    else if (e.code == FOREIGN_KEY_VIOLATION || e.code == CHECK_VIOLATION)
            && e.constraint.Some? && e.constraint.value in DOMAIN_PAIR_CONSTRAINTS
    then LinkDomainUnavailable(e)
    else Rethrown(e)
  }

  /** Which refusal is which: by SQLSTATE and constraint, and any other as it came. */
  lemma RefusalMeans(e: PgError)
    ensures MappedRefusal(e) == WorkspaceNotFound <==> e == PgError("23503", Some("links_workspace_tenant_fk"))
    ensures MappedRefusal(e) == LinkDomainUnavailable(e) <==>
              && (e.code == "23503" || e.code == "23514")
              && (e.constraint == Some("links_domain_tenant_fk") || e.constraint == Some("links_domain_owner_check"))
    ensures MappedRefusal(e) in {WorkspaceNotFound, LinkDomainUnavailable(e), Rethrown(e)}
    ensures IsSlugCollision(e) <==> e == PgError("23505", Some("links_domain_id_slug_unique"))
  {
  }

  class PgTransaction {
    var rows: seq<LinkRow>
    var savepoints: seq<Savepoint>
    /** Every statement but a rollback is refused once one has failed. */
    var aborted: bool

    constructor (rows: seq<LinkRow>, savepoints: seq<Savepoint>)
      ensures this.rows == rows && this.savepoints == savepoints && !aborted
    {
      this.rows := rows;
      this.savepoints := savepoints;
      aborted := false;
    }

    method SavepointNamed(name: string) returns (error: Option<PgError>)
      modifies this
      ensures rows == old(rows) && aborted == old(aborted)
      ensures error.None? <==> !old(aborted)
      ensures error.Some? ==> error.value.code == IN_FAILED_TRANSACTION
      ensures savepoints == old(savepoints) + (if old(aborted) then [] else [Savepoint(name, old(rows))])
    {
      if aborted {
        return Some(PgError(IN_FAILED_TRANSACTION, None));
      }
      savepoints := savepoints + [Savepoint(name, rows)];
      error := None;
    }

    method Insert(row: LinkRow, elsewhere: set<string>, defect: Defect) returns (error: Option<PgError>)
      modifies this
      ensures savepoints == old(savepoints)
      ensures error == (if old(aborted) then Some(PgError(IN_FAILED_TRANSACTION, None))
                        else InsertAnswer(old(rows), row, elsewhere, defect))
      ensures aborted <==> error.Some?
      ensures rows == (if error.Some? then old(rows) else old(rows) + [row])
    {
      if aborted {
        return Some(PgError(IN_FAILED_TRANSACTION, None));
      }
      error := InsertAnswer(rows, row, elsewhere, defect);
      if error.Some? {
        aborted := true;
      } else {
        rows := rows + [row];
      }
    }

    /** Back to the savepoint's rows; the savepoint itself stays, and the transaction is usable again. */
    method RollbackToLast()
      requires savepoints != []
      modifies this
      ensures rows == old(savepoints)[|old(savepoints)| - 1].rows && !aborted && savepoints == old(savepoints)
    {
      rows := savepoints[|savepoints| - 1].rows;
      aborted := false;
    }

    method ReleaseLast()
      requires savepoints != [] && !aborted
      modifies this
      ensures rows == old(rows) && !aborted && savepoints == old(savepoints)[..|old(savepoints)| - 1]
    {
      savepoints := savepoints[..|savepoints| - 1];
    }
  }

  class LinkRepository {
    const tx: PgTransaction

    constructor (tx: PgTransaction)
      ensures this.tx == tx
    {
      this.tx := tx;
    }

    /**
     One insert attempt. Either the row is there; or the slug was taken and the transaction is exactly
     what it was; or the insert was refused for another reason and the transaction has to be rolled back.
     */
    method CreateIfSlugFree(row: LinkRow, elsewhere: set<string>, defect: Defect)
        returns (created: bool, error: Option<LinkError>)
      modifies tx
      ensures old(tx.aborted) ==>
                && !created && error == Some(Rethrown(PgError(IN_FAILED_TRANSACTION, None)))
                && Same(old(tx.rows), old(tx.savepoints), true)
      ensures !old(tx.aborted) ==>
                var answer := InsertAnswer(old(tx.rows), row, elsewhere, defect);
                && (created <==> answer.None?)
                && (error.None? <==> answer.None? || IsSlugCollision(answer.value))
                && (created ==> Same(old(tx.rows) + [row], old(tx.savepoints), false))
                && (!created && error.None? ==> Same(old(tx.rows), old(tx.savepoints), false))
                && (error.Some? ==>
                      && error == Some(MappedRefusal(answer.value))
                      && defect != Sound && answer == Some(defect.error)
                      && Same(old(tx.rows), old(tx.savepoints) + [Savepoint(SLUG_SAVEPOINT, old(tx.rows))], true))
      ensures created <==> !old(tx.aborted) && defect.Sound? && !Taken(old(tx.rows), row.domainId, row.slug)
                           && row.slug !in elsewhere
      ensures !defect.Before? && !old(tx.aborted)
              && (Taken(old(tx.rows), row.domainId, row.slug) || row.slug in elsewhere) ==>
                !created && error.None?
    {
      var failure := tx.SavepointNamed(SLUG_SAVEPOINT);
      if failure.Some? {
        return false, Some(Rethrown(PgError(IN_FAILED_TRANSACTION, None)));
      }
      var refused := tx.Insert(row, elsewhere, defect);
      if refused.None? {
        tx.ReleaseLast();
        return true, None;
      }
      if refused.value.code == UNIQUE_VIOLATION && refused.value.constraint == Some(SLUG_UNIQUE_CONSTRAINT) {
        tx.RollbackToLast();
        tx.ReleaseLast();
        return false, None;
      }
      return false, Some(MappedRefusal(refused.value));
    }

    predicate Same(rows: seq<LinkRow>, savepoints: seq<Savepoint>, aborted: bool)
      reads tx
    {
      tx.rows == rows && tx.savepoints == savepoints && tx.aborted == aborted
    }

    /**
     A slug the operator chose: validated before anything is sent, and then one attempt. It is created
     iff it is valid, free and nothing else is wrong with the row; `slug_taken` leaves the transaction
     as it was, any other refusal leaves it to be rolled back.
     */
    method CreateSupplied(row: LinkRow, elsewhere: set<string>, defect: Defect) returns (error: Option<LinkError>)
      requires !tx.aborted
      modifies tx
      ensures var valid := SlugKeys.ValidateSlug(row.slug);
              var answer := InsertAnswer(old(tx.rows), row, elsewhere, defect);
              error == (if valid.Refused? then Some(InvalidSlug(valid.violation))
                        else if answer.None? then None
                        else if IsSlugCollision(answer.value) then Some(SlugTaken)
                        else Some(MappedRefusal(answer.value)))
      ensures error.None? ==> Same(old(tx.rows) + [row], old(tx.savepoints), false)
      ensures error.Some? && (error.value.InvalidSlug? || error.value.SlugTaken?) ==>
                Same(old(tx.rows), old(tx.savepoints), false)
      ensures error.Some? ==> tx.rows == old(tx.rows)
      ensures error.None? <==> SlugKeys.ValidateSlug(row.slug).Accepted? && defect.Sound?
                               && !Taken(old(tx.rows), row.domainId, row.slug) && row.slug !in elsewhere
      ensures SlugKeys.ValidateSlug(row.slug).Accepted? && !defect.Before?
              && (Taken(old(tx.rows), row.domainId, row.slug) || row.slug in elsewhere) ==>
                error == Some(SlugTaken)
    {
      var valid := SlugKeys.ValidateSlug(row.slug);
      if valid.Refused? {
        return Some(InvalidSlug(valid.violation));
      }
      var created, refused := CreateIfSlugFree(row, elsewhere, defect);
      error := if refused.Some? then refused else if created then None else Some(SlugTaken);
    }

    /**
     Up to five draws. An insert with nothing else wrong creates the link under the first draw that is
     free when it is tried, alone, and fails with exhaustion exactly when all five were taken; either
     way the transaction is usable and its savepoints are the ones it had. An insert the database
     refuses for another reason fails with that reason, before any draw or at the first free one.
     */
    method CreateGenerated(row: LinkRow, draws: seq<string>, elsewhere: seq<set<string>>, defect: Defect)
        returns (error: Option<LinkError>, attempts: nat)
      requires |draws| == |elsewhere| == 5 && !tx.aborted
      requires !defect.Sound? ==> !IsSlugCollision(defect.error)
      modifies tx
      ensures 1 <= attempts <= |draws|
      ensures var f := FirstFree(old(tx.rows), row.domainId, draws, elsewhere, 0);
              && error == (if defect.Before? then Some(MappedRefusal(defect.error))
                           else if f == |draws| then Some(SlugGenerationExhausted)
                           else if defect.Later? then Some(MappedRefusal(defect.error)) else None)
              && attempts == (if defect.Before? then 1 else if f == |draws| then |draws| else f + 1)
      ensures error.None? ==> Same(old(tx.rows) + [row.(slug := draws[attempts - 1])], old(tx.savepoints), false)
      ensures error == Some(SlugGenerationExhausted) ==> Same(old(tx.rows), old(tx.savepoints), false)
      ensures error.Some? && error != Some(SlugGenerationExhausted) ==> tx.aborted && tx.rows == old(tx.rows)
    {
      attempts := 0;
      while attempts < SLUG_GENERATION_MAX_ATTEMPTS
        invariant 0 <= attempts <= |draws|
        invariant attempts > 0 ==> !defect.Before?
        invariant Same(old(tx.rows), old(tx.savepoints), false)
        invariant FirstFree(tx.rows, row.domainId, draws, elsewhere, 0) ==
                  FirstFree(tx.rows, row.domainId, draws, elsewhere, attempts)
      {
        var created, refused := CreateIfSlugFree(row.(slug := draws[attempts]), elsewhere[attempts], defect);
        attempts := attempts + 1;
        if refused.Some? {
          return refused, attempts;
        }
        if created {
          return None, attempts;
        }
      }
      error := Some(SlugGenerationExhausted);
    }
  }

  /** The first draw from `i` on that no row and no other transaction holds. */
  function FirstFree(rows: seq<LinkRow>, domainId: string, draws: seq<string>, elsewhere: seq<set<string>>, i: nat): nat
    requires |draws| == |elsewhere| && i <= |draws|
    decreases |draws| - i
  {
    if i == |draws| then i
    else if Taken(rows, domainId, draws[i]) || draws[i] in elsewhere[i]
    then FirstFree(rows, domainId, draws, elsewhere, i + 1)
    else i
  }

  lemma {:induction false} FirstFreeIsFirst(
      rows: seq<LinkRow>, domainId: string, draws: seq<string>, elsewhere: seq<set<string>>, i: nat)
    requires |draws| == |elsewhere| && i <= |draws|
    ensures i <= FirstFree(rows, domainId, draws, elsewhere, i) <= |draws|
    ensures forall k :: i <= k < FirstFree(rows, domainId, draws, elsewhere, i) ==>
              Taken(rows, domainId, draws[k]) || draws[k] in elsewhere[k]
    ensures var f := FirstFree(rows, domainId, draws, elsewhere, i);
            f < |draws| ==> !Taken(rows, domainId, draws[f]) && draws[f] !in elsewhere[f]
    decreases |draws| - i
  {
    if i < |draws| && (Taken(rows, domainId, draws[i]) || draws[i] in elsewhere[i]) {
      FirstFreeIsFirst(rows, domainId, draws, elsewhere, i + 1);
    }
  }

  /** Exhaustion is all five taken, no fewer; and a created link keeps domain and slug unique. */
  lemma CreatedLinkIsUnique(rows: seq<LinkRow>, row: LinkRow, draws: seq<string>, elsewhere: seq<set<string>>)
    requires |draws| == |elsewhere| == 5 && Unique(rows)
    ensures var f := FirstFree(rows, row.domainId, draws, elsewhere, 0);
            && (f == |draws| <==>
                  forall k :: 0 <= k < |draws| ==> Taken(rows, row.domainId, draws[k]) || draws[k] in elsewhere[k])
            && (f < |draws| ==> Unique(rows + [row.(slug := draws[f])]))
  {
    FirstFreeIsFirst(rows, row.domainId, draws, elsewhere, 0);
  }

  /** Why the savepoint is there: without it, the attempt after a collision is refused whatever it draws. */
  method RetryWithoutSavepoint(tx: PgTransaction, row: LinkRow, elsewhere: set<string>, slug: string)
      returns (first: Option<PgError>, second: Option<PgError>)
    requires !tx.aborted && (Taken(tx.rows, row.domainId, row.slug) || row.slug in elsewhere)
    modifies tx
    ensures first.Some? && IsSlugCollision(first.value)
    ensures second == Some(PgError(IN_FAILED_TRANSACTION, None))
  {
    first := tx.Insert(row, elsewhere, Sound);
    second := tx.Insert(row.(slug := slug), {}, Sound);
  }
}
