/** The redirect decision with the cache in front, and the decision from Postgres alone. */
module ReadThrough {
  /*
   With entries that agree with the database the two are the same, whatever the cache answers and
   whichever of its commands fail.
   */

  import opened Options
  import opened CacheRecords
  import opened RedirectCache
  import opened SlugKeys

  // ---------------------------------------------------------------------------------------------
  // Postgres
  // ---------------------------------------------------------------------------------------------

  datatype DomainRow = DomainRow(id: string, tenantId: string, workspaceId: string)

  /** The active domains by hostname, and the links by domain and slug. */
  datatype Database = Database(active: map<string, DomainRow>, links: map<(string, string), ResolvedLink>)

  ghost predicate Keyed(db: Database) {
    forall k :: k in db.links ==> db.links[k].domainId == k.0
  }

  function ToHost(row: DomainRow): ResolvedHost {
    ResolvedHost(row.id, row.tenantId, row.workspaceId, None)
  }

  function ActiveHost(db: Database, hostname: string): Option<ResolvedHost> {
    if hostname in db.active then Some(ToHost(db.active[hostname])) else None
  }

  function LinkOn(db: Database, domainId: string, slug: string): Option<ResolvedLink> {
    if (domainId, slug) in db.links then Some(db.links[(domainId, slug)]) else None
  }

  /** `set transaction read only` and the redirect flag, before either read. */
  const PREAMBLE := 2

  class RedirectReadRepository {
    var db: Database
    /** Transactions opened and statements issued. */
    var transactions: nat
    var statements: nat

    constructor (db: Database)
      ensures this.db == db && transactions == 0 && statements == 0
    {
      this.db := db;
      transactions, statements := 0, 0;
    }

    method WithRedirectRead()
      modifies this`transactions, this`statements
      ensures transactions == old(transactions) + 1 && statements == old(statements) + PREAMBLE
    {
      transactions := transactions + 1;
      statements := statements + PREAMBLE;
    }

    method ResolveByHostAndSlug(hostname: string, slug: string)
        returns (host: Option<ResolvedHost>, link: Option<ResolvedLink>)
      modifies this`transactions, this`statements
      ensures host == ActiveHost(db, hostname)
      ensures link == (if host.Some? then LinkOn(db, host.value.domainId, slug) else None)
      ensures transactions == old(transactions) + 1
      ensures statements == old(statements) + PREAMBLE + 1 + (if host.Some? then 1 else 0)
    {
      WithRedirectRead();
      statements := statements + 1;
      if hostname !in db.active {
        return None, None;
      }
      var found := ToHost(db.active[hostname]);
      statements := statements + 1;
      host, link := Some(found), LinkOn(db, found.domainId, slug);
    }

    /** The link too, in the same transaction, unless the domain is the one the caller's record names. */
    method ResolveHostKeepingLinkOn(hostname: string, slug: string, keptDomainId: string)
        returns (host: Option<ResolvedHost>, link: Option<ResolvedLink>)
      modifies this`transactions, this`statements
      ensures host == ActiveHost(db, hostname)
      ensures link == (if host.Some? && host.value.domainId != keptDomainId
                       then LinkOn(db, host.value.domainId, slug) else None)
      ensures transactions == old(transactions) + 1
      ensures statements ==
              old(statements) + PREAMBLE + 1 + (if host.Some? && host.value.domainId != keptDomainId then 1 else 0)
    {
      WithRedirectRead();
      statements := statements + 1;
      if hostname !in db.active {
        return None, None;
      }
      var found := ToHost(db.active[hostname]);
      if found.domainId == keptDomainId {
        return Some(found), None;
      }
      statements := statements + 1;
      host, link := Some(found), LinkOn(db, found.domainId, slug);
    }

    method ResolveHost(hostname: string) returns (host: Option<ResolvedHost>)
      modifies this`transactions, this`statements
      ensures host == ActiveHost(db, hostname)
      ensures transactions == old(transactions) + 1 && statements == old(statements) + PREAMBLE + 1
    {
      WithRedirectRead();
      statements := statements + 1;
      host := ActiveHost(db, hostname);
    }

    method ResolveLinkOnDomain(domainId: string, slug: string) returns (link: Option<ResolvedLink>)
      modifies this`transactions, this`statements
      ensures link == LinkOn(db, domainId, slug)
      ensures Keyed(db) && link.Some? ==> link.value.domainId == domainId
      ensures transactions == old(transactions) + 1 && statements == old(statements) + PREAMBLE + 1
    {
      WithRedirectRead();
      statements := statements + 1;
      link := LinkOn(db, domainId, slug);
    }
  }

  // ---------------------------------------------------------------------------------------------
  // The decision from Postgres alone
  // ---------------------------------------------------------------------------------------------

  datatype Decision =
    | NotFound(host: Option<ResolvedHost>)
    | Redirect(location: string, link: ResolvedLink)
    | Fallback(location: string, branded: ResolvedHost)

  datatype PortReply = Threw | Answer(branding: Option<Branding>)

  type BrandingPort = (string, string) -> PortReply

  /** What the port makes of a host: nothing when it is unbound, throws, or has no branding. */
  function PortBranding(port: Option<BrandingPort>, host: ResolvedHost): Option<Branding> {
    if port.None? then None
    else
      var reply := port.value(host.domainId, host.tenantId);
      if reply.Threw? then None else reply.branding
  }

  function NotFoundOn(host: ResolvedHost, branding: Option<Branding>): Decision {
    if branding.None? then NotFound(Some(host))
    else
      var withBranding := host.(branding := branding);
      if branding.value.fallbackUrl.None? then NotFound(Some(withBranding))
      else Fallback(branding.value.fallbackUrl.value, withBranding)
  }

  /** Steps 0 to 6 with no cache at all; `hostname` is the normalised header, if it is one. */
  function DirectResolve(
      db: Database, port: Option<BrandingPort>, hostname: Option<string>, segment: string, now: int): Decision
  {
    if !IsResolvableSlug(segment) || hostname.None? then NotFound(None)
    else
      var host := ActiveHost(db, hostname.value);
      if host.None? then NotFound(None)
      else
        var link := LinkOn(db, host.value.domainId, segment);
        if link.Some? && IsLinkActive(link.value, now) then Redirect(link.value.destinationUrl, link.value)
        else NotFoundOn(host.value, PortBranding(port, host.value))
  }

  /** The request names an active domain and a slug that can be one. */
  ghost predicate Addressed(db: Database, hostname: Option<string>, segment: string) {
    IsResolvableSlug(segment) && hostname.Some? && hostname.value in db.active
  }

  /** And a link stands on that domain under the segment, with the clock inside its window. */
  ghost predicate Serving(db: Database, hostname: Option<string>, segment: string, now: int) {
    && Addressed(db, hostname, segment)
    && var key := (db.active[hostname.value].id, segment);
       && key in db.links
       && (db.links[key].activatesAt.Unbounded?
           || (db.links[key].activatesAt.At? && db.links[key].activatesAt.ms <= now))
       && (db.links[key].expiresAt.Unbounded? || (db.links[key].expiresAt.At? && now < db.links[key].expiresAt.ms))
  }

  /** The branding a 404 is rendered with: the port's, when it is asked and answers with one. */
  ghost predicate Brands(port: Option<BrandingPort>, asked: bool, row: DomainRow, branding: Branding) {
    asked && port.Some? && port.value(row.id, row.tenantId) == Answer(Some(branding))
  }

  ghost predicate IsRow(host: ResolvedHost, row: DomainRow) {
    host.domainId == row.id && host.tenantId == row.tenantId && host.workspaceId == row.workspaceId
  }

  /** What each answer means of the database, the clock and the port. */
  ghost predicate Decided(
      d: Decision, db: Database, port: Option<BrandingPort>, asked: bool, hostname: Option<string>, segment: string,
      now: int)
  {
    match d
    case Redirect(location, link) =>
      && Serving(db, hostname, segment, now)
      && link == db.links[(db.active[hostname.value].id, segment)] && location == link.destinationUrl
    case Fallback(location, host) =>
      && Addressed(db, hostname, segment) && !Serving(db, hostname, segment, now)
      && IsRow(host, db.active[hostname.value])
      && host.branding.Some? && Brands(port, asked, db.active[hostname.value], host.branding.value)
      && host.branding.value.fallbackUrl == Some(location)
    case NotFound(None) => !Addressed(db, hostname, segment)
    case NotFound(Some(host)) =>
      && Addressed(db, hostname, segment) && !Serving(db, hostname, segment, now)
      && IsRow(host, db.active[hostname.value])
      && (forall b :: Brands(port, asked, db.active[hostname.value], b) <==> host.branding == Some(b))
      && (host.branding.Some? ==> host.branding.value.fallbackUrl.None?)
  }

  /** That leaves exactly one answer. */
  lemma DecidedOnce(
      d: Decision, e: Decision, db: Database, port: Option<BrandingPort>, asked: bool, hostname: Option<string>,
      segment: string, now: int)
    requires Decided(d, db, port, asked, hostname, segment, now) && Decided(e, db, port, asked, hostname, segment, now)
    ensures d == e
  {
    if d.NotFound? && d.host.Some? && d.host.value.branding.Some? {
      assert Brands(port, asked, db.active[hostname.value], d.host.value.branding.value);
    }
    if e.NotFound? && e.host.Some? && e.host.value.branding.Some? {
      assert Brands(port, asked, db.active[hostname.value], e.host.value.branding.value);
    }
  }

  /** And the resolution from Postgres alone gives it. */
  lemma DirectIsDecided(
      db: Database, port: Option<BrandingPort>, hostname: Option<string>, segment: string, now: int)
    ensures Decided(DirectResolve(db, port, hostname, segment, now), db, port, true, hostname, segment, now)
  {
    if Addressed(db, hostname, segment) && !Serving(db, hostname, segment, now) {
      NotFoundIsDecided(db, port, true, hostname, segment, now);
    }
  }

  lemma NotFoundIsDecided(
      db: Database, port: Option<BrandingPort>, asked: bool, hostname: Option<string>, segment: string, now: int)
    requires Addressed(db, hostname, segment) && !Serving(db, hostname, segment, now)
    ensures var host := ToHost(db.active[hostname.value]);
            Decided(NotFoundOn(host, if asked then PortBranding(port, host) else None),
                    db, port, asked, hostname, segment, now)
  {
  }

  // ---------------------------------------------------------------------------------------------
  // Agreement
  // ---------------------------------------------------------------------------------------------

  /** A host entry is right when it is the current active domain, or rightly says there is none. */
  predicate HostAgrees(entry: Lookup<CachedHost>, db: Database, hostname: string) {
    match entry
    case Record(r) => hostname in db.active && r == ToCachedHost(ToHost(db.active[hostname]))
    case Miss => hostname !in db.active
    case Unavailable => true
  }

  /** A link record is the current row of the domain it names; the sentinel speaks of the current domain. */
  predicate LinkAgrees(entry: Lookup<CachedLink>, db: Database, hostname: string, slug: string) {
    match entry
    case Record(r) => (r.dm, slug) in db.links && ToCachedLink(db.links[(r.dm, slug)]) == Some(r)
    case Miss => hostname in db.active ==> (db.active[hostname].id, slug) !in db.links
    case Unavailable => true
  }

  ghost predicate HostsAgree(cache: RedisRedirectCache, store: Store, db: Database) {
    forall h :: HostAgrees(cache.HostIn(store, h), db, h)
  }

  ghost predicate LinksAgree(cache: RedisRedirectCache, store: Store, db: Database) {
    forall h, s :: ColonFree(s) ==> LinkAgrees(cache.LinkIn(store, h, s), db, h, s)
  }

  ghost predicate Agrees(cache: RedisRedirectCache, store: Store, db: Database) {
    HostsAgree(cache, store, db) && LinksAgree(cache, store, db)
  }

  /** Expiry and eviction cannot break agreement. */
  lemma LosingKeysKeepsAgreement(cache: RedisRedirectCache, store: Store, left: Store, db: Database)
    requires Agrees(cache, store, db)
    requires forall k :: k in left ==> k in store && left[k] == store[k]
    ensures Agrees(cache, left, db)
  {
    forall h ensures HostAgrees(cache.HostIn(left, h), db, h) {
      assert HostAgrees(cache.HostIn(store, h), db, h);
    }
    forall h, s | ColonFree(s) ensures LinkAgrees(cache.LinkIn(left, h, s), db, h, s) {
      assert LinkAgrees(cache.LinkIn(store, h, s), db, h, s);
    }
  }

  // ---------------------------------------------------------------------------------------------
  // The decision with the cache in front
  // ---------------------------------------------------------------------------------------------

  /** How Redis answers the four commands a request may issue. */
  datatype Weather = Weather(getHost: Reply, getLink: Reply, setHost: Reply, setLink: Reply)

  datatype Resolution = Resolution(host: Option<ResolvedHost>, link: Option<ResolvedLink>, brandingKnown: bool)

  function Heard<T>(entry: Lookup<T>, reply: Reply): Lookup<T> {
    if reply.Answered? then entry else Unavailable
  }

  /** The transactions a request opens, from what the cache said. */
  function Transactions(host: Lookup<CachedHost>, link: Lookup<CachedLink>): nat {
    match host
    case Miss => 0
    case Unavailable => 1
    case Record(h) => if link.Miss? || (link.Record? && link.value.dm == h.dm) then 0 else 1
  }

  /** The statements it issues, from what the cache said and the domain that resolves. */
  function Statements(host: Lookup<CachedHost>, link: Lookup<CachedLink>, active: Option<ResolvedHost>): nat {
    if Transactions(host, link) == 0 then 0
    else if host.Record? then PREAMBLE + 1
    else
      var second := active.Some? && (link.Unavailable? || (link.Record? && link.value.dm != active.value.domainId));
      PREAMBLE + 1 + (if second then 1 else 0)
  }

  /** A link whose bounds can be read, or none at all. */
  predicate CanCache(link: Option<ResolvedLink>) {
    link.Some? ==> ToCachedLink(link.value).Some?
  }

  predicate Clear(weather: Weather) {
    weather.getHost.Answered? && weather.getLink.Answered? && weather.setHost.Answered? && weather.setLink.Answered?
  }

  class RedirectService {
    const repository: RedirectReadRepository
    const cache: RedisRedirectCache
    const port: Option<BrandingPort>

    constructor (repository: RedirectReadRepository, cache: RedisRedirectCache, port: Option<BrandingPort>)
      ensures this.repository == repository && this.cache == cache && this.port == port
    {
      this.repository := repository;
      this.cache := cache;
      this.port := port;
    }

    ghost predicate Ready()
      reads repository, cache
    {
      cache.Valid() && Keyed(repository.db) && Agrees(cache, cache.store, repository.db)
    }

    method PutHost(hostname: string, host: Option<ResolvedHost>, now: int, reply: Reply)
      requires Ready() && host == ActiveHost(repository.db, hostname)
      modifies cache
      ensures Ready()
      ensures reply.Answered? ==> cache.HostIn(cache.store, hostname) ==
                                  (if host.None? then Miss else Record(ToCachedHost(host.value)))
      ensures forall h, s :: cache.LinkIn(cache.store, h, s) == cache.LinkIn(old(cache.store), h, s)
    {
      var value := if host.None? then Negative else Positive(ToCachedHost(host.value));
      ghost var before := cache.store;
      var applied := cache.SetHost(hostname, value, now, reply);
      forall h ensures HostAgrees(cache.HostIn(cache.store, h), repository.db, h) {
        assert HostAgrees(cache.HostIn(before, h), repository.db, h);
      }
      forall h, s | ColonFree(s) ensures LinkAgrees(cache.LinkIn(cache.store, h, s), repository.db, h, s) {
        assert LinkAgrees(cache.LinkIn(before, h, s), repository.db, h, s);
      }
    }

    /** A link with a bound that cannot be read is never written. */
    method PutLink(hostname: string, slug: string, domainId: string, link: Option<ResolvedLink>, now: int, reply: Reply)
      requires Ready() && ColonFree(slug)
      requires link == LinkOn(repository.db, domainId, slug)
      requires hostname in repository.db.active && repository.db.active[hostname].id == domainId
      modifies cache
      ensures Ready()
      ensures link.Some? && ToCachedLink(link.value).None? ==> cache.store == old(cache.store)
      ensures reply.Answered? && CanCache(link) ==>
                cache.LinkIn(cache.store, hostname, slug) ==
                (if link.None? then Miss else Record(ToCachedLink(link.value).value))
      ensures forall h :: cache.HostIn(cache.store, h) == cache.HostIn(old(cache.store), h)
    {
      var value := if link.None? then Some(Negative) else
        var record := ToCachedLink(link.value);
        if record.None? then None else Some(Positive(record.value));
      if value.None? {
        return;
      }
      ghost var before := cache.store;
      var applied := cache.SetLink(hostname, slug, value.value, now, reply);
      forall h ensures HostAgrees(cache.HostIn(cache.store, h), repository.db, h) {
        assert HostAgrees(cache.HostIn(before, h), repository.db, h);
      }
      forall h, s | ColonFree(s) ensures LinkAgrees(cache.LinkIn(cache.store, h, s), repository.db, h, s) {
        assert LinkAgrees(cache.LinkIn(before, h, s), repository.db, h, s);
      }
    }

    /** The next request for the slug will need no transaction. */
    ghost predicate Warm(hostname: string, slug: string)
      reads cache
    {
      Transactions(cache.HostIn(cache.store, hostname), cache.LinkIn(cache.store, hostname, slug)) == 0
    }

    /** Both keys cold. */
    method FillBoth(hostname: string, slug: string, now: int, weather: Weather) returns (r: Resolution)
      requires Ready() && ColonFree(slug)
      modifies cache, repository`transactions, repository`statements
      ensures Ready()
      ensures r == Resolution(ActiveHost(repository.db, hostname), Direct(hostname, slug), false)
      ensures repository.transactions == old(repository.transactions) + 1
      ensures repository.statements ==
              old(repository.statements) + Statements(Unavailable, Unavailable, ActiveHost(repository.db, hostname))
      ensures weather.setHost.Answered? && weather.setLink.Answered? && CanCache(Direct(hostname, slug)) ==>
                Warm(hostname, slug)
      ensures r.host.None? ==> forall h, s :: cache.LinkIn(cache.store, h, s) == cache.LinkIn(old(cache.store), h, s)
    {
      var host, link := repository.ResolveByHostAndSlug(hostname, slug);
      PutHost(hostname, host, now, weather.setHost);
      if host.None? {
        return Resolution(None, None, false);
      }
      PutLink(hostname, slug, host.value.domainId, link, now, weather.setLink);
      r := Resolution(host, link, false);
    }

    ghost function Direct(hostname: string, slug: string): Option<ResolvedLink>
      reads repository
    {
      var host := ActiveHost(repository.db, hostname);
      if host.None? then None else LinkOn(repository.db, host.value.domainId, slug)
    }

    /** The host key is cold and the link key is not. */
    method FillHost(hostname: string, slug: string, cachedLink: Lookup<CachedLink>, now: int, weather: Weather)
        returns (r: Resolution)
      requires Ready() && ColonFree(slug)
      requires !cachedLink.Unavailable? && LinkAgrees(cachedLink, repository.db, hostname, slug)
      requires cachedLink == cache.LinkIn(cache.store, hostname, slug)
      modifies cache, repository`transactions, repository`statements
      ensures Ready()
      ensures r == Resolution(ActiveHost(repository.db, hostname), Direct(hostname, slug), false)
      ensures repository.transactions == old(repository.transactions) + 1
      ensures repository.statements ==
              old(repository.statements) + Statements(Unavailable, cachedLink, ActiveHost(repository.db, hostname))
      ensures weather.setHost.Answered? && weather.setLink.Answered? && CanCache(Direct(hostname, slug)) ==>
                Warm(hostname, slug)
      ensures r.host.None? ==> forall h, s :: cache.LinkIn(cache.store, h, s) == cache.LinkIn(old(cache.store), h, s)
    {
      var host, link;
      if cachedLink.Miss? {
        host := repository.ResolveHost(hostname);
        link := None;
      } else {
        host, link := repository.ResolveHostKeepingLinkOn(hostname, slug, cachedLink.value.dm);
      }
      PutHost(hostname, host, now, weather.setHost);
      if host.None? {
        return Resolution(None, None, false);
      }
      if cachedLink.Miss? {
        return Resolution(host, None, false);
      }
      if cachedLink.value.dm == host.value.domainId {
        LinkRoundTrip(repository.db.links[(cachedLink.value.dm, slug)]);
        return Resolution(host, Some(FromCachedLink(cachedLink.value)), false);
      }
      PutLink(hostname, slug, host.value.domainId, link, now, weather.setLink);
      r := Resolution(host, link, false);
    }

    /** The host came from the cache, so only the link can still need Postgres. */
    method LinkForCachedHost(
        hostname: string, slug: string, host: ResolvedHost, cachedLink: Lookup<CachedLink>, now: int, weather: Weather)
        returns (r: Resolution)
      requires Ready() && ColonFree(slug)
      requires ActiveHost(repository.db, hostname) == Some(host)
      requires LinkAgrees(cachedLink, repository.db, hostname, slug)
      requires cache.HostIn(cache.store, hostname) == Record(ToCachedHost(host))
      requires cachedLink.Unavailable? || cachedLink == cache.LinkIn(cache.store, hostname, slug)
      modifies cache, repository`transactions, repository`statements
      ensures Ready()
      ensures r == Resolution(Some(host), Direct(hostname, slug), true)
      ensures repository.transactions ==
              old(repository.transactions) + Transactions(Record(ToCachedHost(host)), cachedLink)
      ensures repository.statements ==
              old(repository.statements) + Statements(Record(ToCachedHost(host)), cachedLink, Some(host))
      ensures weather.setLink.Answered? && CanCache(Direct(hostname, slug)) ==> Warm(hostname, slug)
    {
      if cachedLink.Miss? {
        return Resolution(Some(host), None, true);
      }
      if !cachedLink.Unavailable? && cachedLink.value.dm == host.domainId {
        LinkRoundTrip(repository.db.links[(cachedLink.value.dm, slug)]);
        return Resolution(Some(host), Some(FromCachedLink(cachedLink.value)), true);
      }
      var link := repository.ResolveLinkOnDomain(host.domainId, slug);
      PutLink(hostname, slug, host.domainId, link, now, weather.setLink);
      r := Resolution(Some(host), link, true);
    }

    ghost function HeardHost(hostname: string, weather: Weather): Lookup<CachedHost>
      reads cache
    {
      Heard(cache.HostIn(cache.store, hostname), weather.getHost)
    }

    ghost function HeardLink(hostname: string, slug: string, weather: Weather): Lookup<CachedLink>
      reads cache
    {
      Heard(cache.LinkIn(cache.store, hostname, slug), weather.getLink)
    }

    /**
     Steps 2 and 3. Whatever the cache says, the host and link are the ones Postgres holds, agreement
     is kept, and the request costs what the two lookups leave necessary: never two transactions. When
     Redis answers every command, the same request again costs none, unless the link cannot be cached.
     */
    method ReadThrough(hostname: string, slug: string, now: int, weather: Weather) returns (r: Resolution)
      requires Ready() && ColonFree(slug)
      modifies cache, repository`transactions, repository`statements
      ensures Ready()
      ensures r.host == ActiveHost(repository.db, hostname) && r.link == Direct(hostname, slug)
      ensures r.brandingKnown <==> old(HeardHost(hostname, weather)).Record?
      ensures repository.transactions == old(repository.transactions)
              + Transactions(old(HeardHost(hostname, weather)), old(HeardLink(hostname, slug, weather)))
      ensures repository.statements == old(repository.statements)
              + Statements(old(HeardHost(hostname, weather)), old(HeardLink(hostname, slug, weather)),
                           ActiveHost(repository.db, hostname))
      ensures if repository.transactions == old(repository.transactions)
              then repository.statements == old(repository.statements)
              else && repository.transactions == old(repository.transactions) + 1
                   && old(repository.statements) + 3 <= repository.statements <= old(repository.statements) + 4
      ensures Clear(weather) && CanCache(Direct(hostname, slug)) ==> Warm(hostname, slug)
    {
      assert HostAgrees(cache.HostIn(cache.store, hostname), repository.db, hostname);
      assert LinkAgrees(cache.LinkIn(cache.store, hostname, slug), repository.db, hostname, slug);
      var cachedHost := cache.GetHost(hostname, weather.getHost);
      if cachedHost.Miss? {
        return Resolution(None, None, false);
      }
      var cachedLink := cache.GetLink(hostname, slug, weather.getLink);
      if cachedHost.Unavailable? {
        if cachedLink.Unavailable? {
          r := FillBoth(hostname, slug, now, weather);
        } else {
          r := FillHost(hostname, slug, cachedLink, now, weather);
        }
        return;
      }
      HostRoundTrip(ToHost(repository.db.active[hostname]));
      r := LinkForCachedHost(hostname, slug, FromCachedHost(cachedHost.value), cachedLink, now, weather);
    }

    /** Step 6: a host from a cached record answers for its own branding, any other asks the port. */
    method NotFoundFor(host: ResolvedHost, brandingKnown: bool) returns (d: Decision)
      ensures d == NotFoundOn(host, if brandingKnown then host.branding else PortBranding(port, host))
    {
      var branding := host.branding;
      if !brandingKnown {
        branding := None;
        if port.Some? {
          var reply := port.value(host.domainId, host.tenantId);
          if reply.Answer? {
            branding := reply.branding;
          }
        }
      }
      if branding.None? {
        return NotFound(Some(host));
      }
      var withBranding := host.(branding := branding);
      if branding.value.fallbackUrl.None? {
        return NotFound(Some(withBranding));
      }
      d := Fallback(branding.value.fallbackUrl.value, withBranding);
    }

    /** A request whose host record came from the cache and which found no link to redirect to. */
    ghost predicate RendersFromCache(hostname: Option<string>, segment: string, now: int, weather: Weather)
      reads repository, cache
    {
      && IsResolvableSlug(segment) && hostname.Some? && HeardHost(hostname.value, weather).Record?
      && !(Direct(hostname.value, segment).Some? && IsLinkActive(Direct(hostname.value, segment).value, now))
    }

    /**
     READ-THROUGH REFINES DIRECT RESOLUTION. With no branding port bound the decision is always the
     database's own. With one bound it is the database's unless a 404 is rendered from a cached host,
     whose record says "no branding", while the port has branding for that host.
     */
    method Resolve(hostname: Option<string>, segment: string, now: int, weather: Weather) returns (d: Decision)
      requires Ready()
      modifies cache, repository`transactions, repository`statements
      ensures Ready() && repository.transactions <= old(repository.transactions) + 1
      ensures port.None? ==> d == DirectResolve(repository.db, port, hostname, segment, now)
      ensures d == DirectResolve(repository.db, port, hostname, segment, now) <==>
              (old(RendersFromCache(hostname, segment, now, weather)) ==>
               PortBranding(port, ToHost(repository.db.active[hostname.value])).None?)
      ensures Decided(d, repository.db, port, hostname.None? || !old(HeardHost(hostname.value, weather)).Record?,
                      hostname, segment, now)
      ensures !IsResolvableSlug(segment) || hostname.None? ==>
                repository.transactions == old(repository.transactions) && cache.store == old(cache.store)
    {
      if !IsResolvableSlug(segment) {
        return NotFound(None);
      }
      if hostname.None? {
        return NotFound(None);
      }
      ResolvableIsColonFree(segment);
      assert HostAgrees(cache.HostIn(cache.store, hostname.value), repository.db, hostname.value);
      var r := ReadThrough(hostname.value, segment, now, weather);
      if r.host.None? {
        return NotFound(None);
      }
      if r.link.Some? && IsLinkActive(r.link.value, now) {
        return Redirect(r.link.value.destinationUrl, r.link.value);
      }
      NotFoundIsDecided(repository.db, port, !r.brandingKnown, hostname, segment, now);
      d := NotFoundFor(r.host.value, r.brandingKnown);
    }
  }
}
