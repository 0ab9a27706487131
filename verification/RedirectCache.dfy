/** The Redis-backed redirect cache: what a read answers, what a write leaves and what a deletion reports. */
module RedirectCache {
  import opened Options
  import opened CacheRecords
  import opened SlugKeys

  /** One NUL character, which no JSON text is. */
  const MISS_SENTINEL: string := "\0"

  /** JSON text: `parse` is `None` where the source's throws. */
  datatype Codec = Codec(stringify: Json -> string, parse: string -> Option<Json>)

  ghost predicate Lossless(codec: Codec) {
    codec.parse(MISS_SENTINEL) == None && forall j :: codec.parse(codec.stringify(j)) == Some(j)
  }

  datatype Lookup<T> = Record(value: T) | Miss | Unavailable

  /** A value to cache: a record, or the negative. */
  datatype Cacheable<T> = Positive(value: T) | Negative

  /** How Redis answers one command; a rejected write may still have been applied. */
  datatype Reply = Answered | NotReady | Rejected(applied: bool)

  /** A stored string and the instant its TTL runs out. */
  datatype Entry = Entry(raw: string, deadline: int)

  type Store = map<string, Entry>

  function HostOf(raw: string, codec: Codec): Lookup<CachedHost> {
    if raw == MISS_SENTINEL then Miss
    else
      var parsed := codec.parse(raw);
      if parsed.Some? && IsCachedHost(parsed.value) then Record(AsHost(parsed.value)) else Unavailable
  }

  function LinkOf(raw: string, codec: Codec): Lookup<CachedLink> {
    if raw == MISS_SENTINEL then Miss
    else
      var parsed := codec.parse(raw);
      if parsed.Some? && IsCachedLink(parsed.value) then Record(AsLink(parsed.value)) else Unavailable
  }

  /** What the cache says of a value just written. */
  function AsLookup<T>(value: Cacheable<T>): Lookup<T> {
    if value.Positive? then Record(value.value) else Miss
  }

  function WriteHost(value: Cacheable<CachedHost>, codec: Codec): string {
    if value.Positive? then codec.stringify(EncodeHost(value.value)) else MISS_SENTINEL
  }

  function WriteLink(value: Cacheable<CachedLink>, codec: Codec): string {
    if value.Positive? then codec.stringify(EncodeLink(value.value)) else MISS_SENTINEL
  }

  lemma EncodedHostDecodes(r: CachedHost)
    ensures IsCachedHost(EncodeHost(r)) && AsHost(EncodeHost(r)) == r
  {
    HostRoundTrip(FromCachedHost(r));
    assert ToCachedHost(FromCachedHost(r)) == r;
  }

  /** Whatever is written is read back, the sentinel as a miss and never as a record. */
  lemma WrittenIsRead(host: Cacheable<CachedHost>, link: Cacheable<CachedLink>, codec: Codec)
    requires Lossless(codec)
    ensures HostOf(WriteHost(host, codec), codec) == AsLookup(host)
    ensures LinkOf(WriteLink(link, codec), codec) == AsLookup(link)
  {
    if host.Positive? {
      EncodedHostDecodes(host.value);
    }
    if link.Positive? {
      LinkDecoderIsExact(EncodeLink(link.value), link.value);
    }
  }

  class RedisRedirectCache {
    const namespace: string
    const codec: Codec
    var store: Store

    constructor (namespace: string, codec: Codec)
      requires ColonFree(namespace) && Lossless(codec)
      ensures Valid() && this.namespace == namespace && this.codec == codec && store == map[]
    {
      this.namespace := namespace;
      this.codec := codec;
      store := map[];
    }

    ghost predicate Valid() { ColonFree(namespace) && Lossless(codec) }

    /** What a store says of a hostname: an absent key is no evidence of anything. */
    function HostIn(store: Store, hostname: string): Lookup<CachedHost> {
      var key := HostKey(namespace, hostname);
      if key in store then HostOf(store[key].raw, codec) else Unavailable
    }

    function LinkIn(store: Store, hostname: string, slug: string): Lookup<CachedLink> {
      var key := LinkKey(namespace, hostname, slug);
      if key in store then LinkOf(store[key].raw, codec) else Unavailable
    }

    method GetHost(hostname: string, reply: Reply) returns (r: Lookup<CachedHost>)
      ensures r == (if reply.Answered? then HostIn(store, hostname) else Unavailable)
      ensures var key := HostKey(namespace, hostname);
              && (r.Miss? <==> reply.Answered? && key in store && store[key].raw == "\0")
              && (forall record :: r == Record(record) <==>
                    && reply.Answered? && key in store && store[key].raw != "\0"
                    && codec.parse(store[key].raw).Some? && CarriesHost(codec.parse(store[key].raw).value, record))
    {
      forall j, record {
        HostDecoderIsExact(j, record);
      }
      if !reply.Answered? {
        return Unavailable;
      }
      var key := HostKey(namespace, hostname);
      if key !in store {
        return Unavailable;
      }
      var raw := store[key].raw;
      if raw == MISS_SENTINEL {
        return Miss;
      }
      var parsed := codec.parse(raw);
      if parsed.None? || !IsCachedHost(parsed.value) {
        return Unavailable;
      }
      r := Record(AsHost(parsed.value));
    }

    method GetLink(hostname: string, slug: string, reply: Reply) returns (r: Lookup<CachedLink>)
      ensures r == (if reply.Answered? then LinkIn(store, hostname, slug) else Unavailable)
      ensures var key := LinkKey(namespace, hostname, slug);
              && (r.Miss? <==> reply.Answered? && key in store && store[key].raw == "\0")
              && (forall record :: r == Record(record) <==>
                    && reply.Answered? && key in store && store[key].raw != "\0"
                    && codec.parse(store[key].raw).Some?
                    && Carries(codec.parse(store[key].raw).value, EncodeLink(record)))
    {
      forall j, record {
        LinkDecoderIsExact(j, record);
      }
      if !reply.Answered? {
        return Unavailable;
      }
      var key := LinkKey(namespace, hostname, slug);
      if key !in store {
        return Unavailable;
      }
      var raw := store[key].raw;
      if raw == MISS_SENTINEL {
        return Miss;
      }
      var parsed := codec.parse(raw);
      if parsed.None? || !IsCachedLink(parsed.value) {
        return Unavailable;
      }
      r := Record(AsLink(parsed.value));
    }

    /** `SET key value EX ttl`; a failure is swallowed. */
    method Write(key: string, raw: string, ttl: int, now: int, reply: Reply) returns (applied: bool)
      modifies this
      ensures applied <==> reply.Answered? || reply == Rejected(true)
      ensures store == (if applied then old(store)[key := Entry(raw, now + 1000 * ttl)] else old(store))
    {
      applied := reply.Answered? || (reply.Rejected? && reply.applied);
      if applied {
        store := store[key := Entry(raw, now + 1000 * ttl)];
      }
    }

    /** A host write changes what the cache says of that hostname and of nothing else. */
    method SetHost(hostname: string, value: Cacheable<CachedHost>, now: int, reply: Reply) returns (applied: bool)
      requires Valid()
      modifies this
      ensures applied <==> reply.Answered? || reply == Rejected(true)
      ensures HostIn(store, hostname) == (if applied then AsLookup(value) else HostIn(old(store), hostname))
      ensures forall h :: h != hostname ==> HostIn(store, h) == HostIn(old(store), h)
      ensures forall h, s :: LinkIn(store, h, s) == LinkIn(old(store), h, s)
      ensures applied ==>
                && HostKey(namespace, hostname) in store
                && store[HostKey(namespace, hostname)].deadline == now + 300_000
    {
      WrittenIsRead(value, Negative, codec);
      var ttl := if value.Negative? then HOST_MISS_TTL_S else HOST_TTL_S;
      applied := Write(HostKey(namespace, hostname), WriteHost(value, codec), ttl, now, reply);
      forall h | h != hostname ensures HostKey(namespace, h) != HostKey(namespace, hostname) {
        if HostKey(namespace, h) == HostKey(namespace, hostname) {
          HostKeyInjective(namespace, h, namespace, hostname);
        }
      }
      forall h, s ensures LinkKey(namespace, h, s) != HostKey(namespace, hostname) {
        LinkKeyIsNoHostKey(namespace, h, s, namespace, hostname);
      }
    }

    /** A link write changes what the cache says of that hostname and slug and of nothing else. */
    method SetLink(hostname: string, slug: string, value: Cacheable<CachedLink>, now: int, reply: Reply)
        returns (applied: bool)
      requires Valid() && ColonFree(slug)
      modifies this
      ensures applied <==> reply.Answered? || reply == Rejected(true)
      ensures LinkIn(store, hostname, slug) == (if applied then AsLookup(value) else LinkIn(old(store), hostname, slug))
      ensures forall h, s :: ColonFree(s) && (h != hostname || s != slug) ==>
                LinkIn(store, h, s) == LinkIn(old(store), h, s)
      ensures forall h :: HostIn(store, h) == HostIn(old(store), h)
      ensures applied ==>
                && LinkKey(namespace, hostname, slug) in store
                && store[LinkKey(namespace, hostname, slug)].deadline ==
                   now + 1000 * (if value.Negative? then 60 else LinkTtlSeconds(value.value, now))
    {
      WrittenIsRead(Negative, value, codec);
      var ttl := if value.Negative? then LINK_MISS_TTL_S else LinkTtlSeconds(value.value, now);
      applied := Write(LinkKey(namespace, hostname, slug), WriteLink(value, codec), ttl, now, reply);
      forall h, s | ColonFree(s) && (h != hostname || s != slug)
        ensures LinkKey(namespace, h, s) != LinkKey(namespace, hostname, slug)
      {
        if LinkKey(namespace, h, s) == LinkKey(namespace, hostname, slug) {
          LinkKeyInjective(namespace, h, s, namespace, hostname, slug);
        }
      }
      forall h ensures HostKey(namespace, h) != LinkKey(namespace, hostname, slug) {
        LinkKeyIsNoHostKey(namespace, hostname, slug, namespace, h);
      }
    }

    /** A deletion that does not report success rejects, and then the key may be there or not. */
    method DelLink(hostname: string, slug: string, reply: Reply) returns (rejected: bool)
      requires Valid() && ColonFree(slug)
      modifies this
      ensures rejected <==> !reply.Answered?
      ensures LinkIn(store, hostname, slug) ==
              (if reply.Answered? || reply == Rejected(true) then Unavailable else LinkIn(old(store), hostname, slug))
      ensures forall h, s :: ColonFree(s) && (h != hostname || s != slug) ==>
                LinkIn(store, h, s) == LinkIn(old(store), h, s)
      ensures forall h :: HostIn(store, h) == HostIn(old(store), h)
    {
      if reply.Answered? || (reply.Rejected? && reply.applied) {
        store := store - {LinkKey(namespace, hostname, slug)};
      }
      rejected := !reply.Answered?;
      forall h, s | ColonFree(s) && (h != hostname || s != slug)
        ensures LinkKey(namespace, h, s) != LinkKey(namespace, hostname, slug)
      {
        if LinkKey(namespace, h, s) == LinkKey(namespace, hostname, slug) {
          LinkKeyInjective(namespace, h, s, namespace, hostname, slug);
        }
      }
      forall h ensures HostKey(namespace, h) != LinkKey(namespace, hostname, slug) {
        LinkKeyIsNoHostKey(namespace, hostname, slug, namespace, h);
      }
    }
  }
}
