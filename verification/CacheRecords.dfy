/** What the redirect decides from and caches: records, their lifetime, their JSON and its decoders. */
module CacheRecords {
  import opened Options

  /** The epoch milliseconds a JavaScript `Date` can hold. */
  type Instant = ms: int | -8_640_000_000_000_000 <= ms <= 8_640_000_000_000_000

  /** A validity bound: none, an instant, or a timestamp that did not parse. */
  datatype Bound = Unbounded | At(ms: Instant) | Unreadable

  datatype Branding = Branding(logoUrl: Option<string>, brandColor: Option<string>, fallbackUrl: Option<string>)

  datatype ResolvedHost = ResolvedHost(
    domainId: string, tenantId: string, workspaceId: string, branding: Option<Branding>)

  datatype ResolvedLink = ResolvedLink(
    id: string, destinationUrl: string, domainId: string, workspaceId: string, tenantId: string,
    expiresAt: Bound, activatesAt: Bound)

  datatype CachedBranding = CachedBranding(lg: Option<string>, bc: Option<string>, fb: Option<string>)

  datatype CachedHost = CachedHost(dm: string, t: string, w: string, b: Option<CachedBranding>)

  /** Bounds are numbers here: what is written is whole milliseconds, what is read need not be. */
  datatype CachedLink = CachedLink(
    id: string, d: string, dm: string, w: string, t: string, ea: Option<real>, aa: Option<real>)

  /** Active from `activatesAt` up to but not at `expiresAt`, and never on a bound that is unreadable. */
  predicate IsLinkActive(link: ResolvedLink, now: int) {
    && !link.activatesAt.Unreadable? && !link.expiresAt.Unreadable?
    && (link.activatesAt.At? ==> link.activatesAt.ms <= now)
    && (link.expiresAt.At? ==> now < link.expiresAt.ms)
  }

  // ---------------------------------------------------------------------------------------------
  // Decision shapes and cached shapes
  // ---------------------------------------------------------------------------------------------

  function ToCachedHost(host: ResolvedHost): CachedHost {
    CachedHost(host.domainId, host.tenantId, host.workspaceId,
               if host.branding.None? then None
               else Some(CachedBranding(host.branding.value.logoUrl, host.branding.value.brandColor,
                                        host.branding.value.fallbackUrl)))
  }

  function FromCachedHost(record: CachedHost): ResolvedHost {
    ResolvedHost(record.dm, record.t, record.w,
                 if record.b.None? then None
                 else Some(Branding(record.b.value.lg, record.b.value.bc, record.b.value.fb)))
  }

  function EpochOrNull(bound: Bound): Option<real> {
    if bound.At? then Some(bound.ms as real) else None
  }

  function ToCachedLink(link: ResolvedLink): Option<CachedLink> {
    if link.expiresAt.Unreadable? || link.activatesAt.Unreadable? then None
    else Some(CachedLink(link.id, link.destinationUrl, link.domainId, link.workspaceId, link.tenantId,
                         EpochOrNull(link.expiresAt), EpochOrNull(link.activatesAt)))
  }

  /** `new Date(epoch)`: the fraction goes, and a number out of range is a date that reads as none. */
  function BoundOf(epoch: Option<real>): Bound {
    if epoch.None? then Unbounded
    else if epoch.value > 8_640_000_000_000_000.0 || epoch.value < -8_640_000_000_000_000.0 then Unreadable
    else At(if epoch.value >= 0.0 then epoch.value.Floor else -((-epoch.value).Floor))
  }

  /** The whole part, towards zero, of a number a date can hold, and an unreadable bound for any other. */
  lemma BoundMeans(epoch: real)
    ensures BoundOf(Some(epoch)).Unreadable? <==> epoch > 8.64e15 || epoch < -8.64e15
    ensures var bound := BoundOf(Some(epoch));
            bound.At? ==>
              && (epoch >= 0.0 ==> bound.ms as real <= epoch < bound.ms as real + 1.0)
              && (epoch < 0.0 ==> bound.ms as real - 1.0 < epoch <= bound.ms as real)
    ensures !BoundOf(Some(epoch)).Unbounded? && BoundOf(None).Unbounded?
  {
  }

  function FromCachedLink(record: CachedLink): ResolvedLink {
    ResolvedLink(record.id, record.d, record.dm, record.w, record.t, BoundOf(record.ea), BoundOf(record.aa))
  }

  // ---------------------------------------------------------------------------------------------
  // Lifetimes
  // ---------------------------------------------------------------------------------------------

  const HOST_TTL_S := 300
  const HOST_MISS_TTL_S := 300
  const LINK_TTL_S := 3600
  const LINK_MISS_TTL_S := 60

  /** `Math.ceil(ms / 1000)`. */
  function CeilSeconds(ms: real): int {
    -((-(ms / 1000.0)).Floor)
  }

  function Min(a: int, b: int): int { if a < b then a else b }

  function MinOf(bounds: seq<int>): int
    requires bounds != []
  {
    if |bounds| == 1 then bounds[0] else Min(bounds[0], MinOf(bounds[1..]))
  }

  function LinkTtlSeconds(link: CachedLink, now: int): int {
    var bounds := [LINK_TTL_S]
                  + (if link.ea.Some? then [CeilSeconds(link.ea.value - now as real)] else [])
                  + (if link.aa.Some? && link.aa.value > now as real
                     then [CeilSeconds(link.aa.value - now as real)] else []);
    var least := MinOf(bounds);
    if least < 1 then 1 else least
  }

  lemma {:induction false} MinOfIsLeast(bounds: seq<int>)
    requires bounds != []
    ensures forall i :: 0 <= i < |bounds| ==> MinOf(bounds) <= bounds[i]
    ensures exists i :: 0 <= i < |bounds| && MinOf(bounds) == bounds[i]
  {
    if |bounds| == 1 {
      assert MinOf(bounds) == bounds[0];
    } else {
      MinOfIsLeast(bounds[1..]);
      assert forall i :: 1 <= i < |bounds| ==> bounds[i] == bounds[1..][i - 1];
      var j :| 0 <= j < |bounds[1..]| && MinOf(bounds[1..]) == bounds[1..][j];
      assert MinOf(bounds) == bounds[0] || MinOf(bounds) == bounds[j + 1];
    }
  }

  /** The bounds still ahead of `now`. */
  ghost predicate Ahead(link: CachedLink, now: int, bound: real) {
    now as real < bound && (link.ea == Some(bound) || link.aa == Some(bound))
  }

  /** When a key written at `now` runs out. */
  function RunsOut(link: CachedLink, now: int): int {
    now + 1000 * LinkTtlSeconds(link, now)
  }

  lemma CeilSecondsBounds(ms: real)
    ensures CeilSeconds(ms) as real * 1000.0 >= ms > CeilSeconds(ms) as real * 1000.0 - 1000.0
  {
  }

  /**
   A lifetime is one second to an hour. A key written before a bound outlives that bound by less than
   a second, and falls short of an hour only to end with a bound: it lasts until one is reached, or,
   one second, when the expiry has passed already.
   */
  lemma TtlEndsWithTheWindow(link: CachedLink, now: int)
    ensures 1 <= LinkTtlSeconds(link, now) <= 3600
    ensures forall bound :: Ahead(link, now, bound) ==> RunsOut(link, now) as real < bound + 1000.0
    ensures LinkTtlSeconds(link, now) < 3600 ==>
              || (exists bound :: Ahead(link, now, bound) && bound <= RunsOut(link, now) as real)
              || (link.ea.Some? && link.ea.value <= now as real && LinkTtlSeconds(link, now) == 1)
  {
    var fromExpiry := if link.ea.Some? then [CeilSeconds(link.ea.value - now as real)] else [];
    var fromActivation := if link.aa.Some? && link.aa.value > now as real
      then [CeilSeconds(link.aa.value - now as real)] else [];
    var bounds := [LINK_TTL_S] + fromExpiry + fromActivation;
    MinOfIsLeast(bounds);
    assert bounds[0] == LINK_TTL_S;
    if link.ea.Some? {
      assert bounds[1] == fromExpiry[0];
      CeilSecondsBounds(link.ea.value - now as real);
      assert link.ea.value > now as real ==> Ahead(link, now, link.ea.value);
    }
    if fromActivation != [] {
      assert bounds[|bounds| - 1] == fromActivation[0];
      CeilSecondsBounds(link.aa.value - now as real);
      assert Ahead(link, now, link.aa.value);
    }
  }

  // ---------------------------------------------------------------------------------------------
  // JSON
  // ---------------------------------------------------------------------------------------------

  /** A parsed value. `Overflow` is a numeral that reads as an infinity. */
  datatype Json =
    | Null
    | Boolean(b: bool)
    | Number(n: real)
    | Overflow
    | Text(s: string)
    | Array(items: seq<Json>)
    | Object(fields: map<string, Json>)

  function OrNull(s: Option<string>): Json { if s.Some? then Text(s.value) else Null }

  function EpochJson(e: Option<real>): Json { if e.Some? then Number(e.value) else Null }

  function EncodeBranding(b: Option<CachedBranding>): Json {
    if b.None? then Null
    else Object(map["lg" := OrNull(b.value.lg), "bc" := OrNull(b.value.bc), "fb" := OrNull(b.value.fb)])
  }

  function EncodeHost(r: CachedHost): Json {
    Object(map["v" := Number(1.0), "dm" := Text(r.dm), "t" := Text(r.t), "w" := Text(r.w), "b" := EncodeBranding(r.b)])
  }

  function EncodeLink(r: CachedLink): Json {
    Object(map["v" := Number(1.0), "id" := Text(r.id), "d" := Text(r.d), "dm" := Text(r.dm), "w" := Text(r.w),
               "t" := Text(r.t), "ea" := EpochJson(r.ea), "aa" := EpochJson(r.aa)])
  }

  /** A field of an object; an absent one is `undefined`, which none of the decoders admits. */
  function Field(j: Json, name: string): Option<Json>
    requires j.Object?
  {
    if name in j.fields then Some(j.fields[name]) else None
  }

  predicate IsString(j: Option<Json>) { j.Some? && j.value.Text? }

  predicate IsStringOrNull(j: Option<Json>) { j.Some? && (j.value.Text? || j.value.Null?) }

  predicate IsEpochOrNull(j: Option<Json>) { j.Some? && (j.value.Number? || j.value.Null?) }

  /** `typeof null` is no record, but an array is one, with none of the fields. */
  predicate IsBrandingOrNull(j: Option<Json>) {
    && j.Some?
    && (j.value.Null?
        || (&& j.value.Object? && IsStringOrNull(Field(j.value, "lg")) && IsStringOrNull(Field(j.value, "bc"))
            && IsStringOrNull(Field(j.value, "fb"))))
  }

  predicate IsCachedHost(j: Json) {
    && j.Object? && Field(j, "v") == Some(Number(1.0))
    && IsString(Field(j, "dm")) && IsString(Field(j, "t")) && IsString(Field(j, "w"))
    && IsBrandingOrNull(Field(j, "b"))
  }

  predicate IsCachedLink(j: Json) {
    && j.Object? && Field(j, "v") == Some(Number(1.0))
    && IsString(Field(j, "id")) && IsString(Field(j, "d")) && IsString(Field(j, "dm"))
    && IsString(Field(j, "w")) && IsString(Field(j, "t"))
    && IsEpochOrNull(Field(j, "ea")) && IsEpochOrNull(Field(j, "aa"))
  }

  function TextOrNone(j: Json): Option<string> { if j.Text? then Some(j.s) else None }

  function NumberOrNone(j: Json): Option<real> { if j.Number? then Some(j.n) else None }

  /** A value the decoder admitted, read as the record it is used as. */
  function AsHost(j: Json): CachedHost
    requires IsCachedHost(j)
  {
    var f, b := j.fields, j.fields["b"];
    CachedHost(f["dm"].s, f["t"].s, f["w"].s,
               if b.Null? then None
               else Some(CachedBranding(TextOrNone(b.fields["lg"]), TextOrNone(b.fields["bc"]),
                                        TextOrNone(b.fields["fb"]))))
  }

  function AsLink(j: Json): CachedLink
    requires IsCachedLink(j)
  {
    var f := j.fields;
    CachedLink(f["id"].s, f["d"].s, f["dm"].s, f["w"].s, f["t"].s, NumberOrNone(f["ea"]), NumberOrNone(f["aa"]))
  }

  /** The object has these fields, among others perhaps. */
  ghost predicate Carries(j: Json, record: Json) {
    j.Object? && record.Object? && forall k :: k in record.fields ==> k in j.fields && j.fields[k] == record.fields[k]
  }

  lemma CarriedLinkDecodes(j: Json, r: CachedLink)
    requires Carries(j, EncodeLink(r))
    ensures IsCachedLink(j) && AsLink(j) == r
  {
    var names := EncodeLink(r).fields;
    assert "v" in names && "id" in names && "d" in names && "dm" in names;
    assert "w" in names && "t" in names && "ea" in names && "aa" in names;
  }

  lemma DecodedLinkIsCarried(j: Json)
    requires IsCachedLink(j)
    ensures Carries(j, EncodeLink(AsLink(j)))
  {
  }

  /** The link decoder admits exactly the objects that carry some record's fields, and reads that record. */
  lemma LinkDecoderIsExact(j: Json, r: CachedLink)
    ensures Carries(j, EncodeLink(r)) <==> IsCachedLink(j) && AsLink(j) == r
  {
    if Carries(j, EncodeLink(r)) {
      CarriedLinkDecodes(j, r);
    }
    if IsCachedLink(j) {
      DecodedLinkIsCarried(j);
    }
  }

  /** The stored text's fields, and where each comes from. */
  lemma LinkJson(link: ResolvedLink)
    requires ToCachedLink(link).Some?
    ensures var json := EncodeLink(ToCachedLink(link).value);
            && json.Object? && json.fields.Keys == {"v", "id", "d", "dm", "w", "t", "ea", "aa"}
            && json.fields["v"] == Number(1.0) && json.fields["id"] == Text(link.id)
            && json.fields["d"] == Text(link.destinationUrl) && json.fields["dm"] == Text(link.domainId)
            && json.fields["w"] == Text(link.workspaceId) && json.fields["t"] == Text(link.tenantId)
            && json.fields["ea"] == (if link.expiresAt.At? then Number(link.expiresAt.ms as real) else Null)
            && json.fields["aa"] == (if link.activatesAt.At? then Number(link.activatesAt.ms as real) else Null)
  {
  }

  lemma HostJson(host: ResolvedHost)
    ensures var json := EncodeHost(ToCachedHost(host));
            && json.Object? && json.fields.Keys == {"v", "dm", "t", "w", "b"}
            && json.fields["v"] == Number(1.0) && json.fields["dm"] == Text(host.domainId)
            && json.fields["t"] == Text(host.tenantId) && json.fields["w"] == Text(host.workspaceId)
            && (if host.branding.None? then json.fields["b"] == Null
                else
                  var b, branding := json.fields["b"], host.branding.value;
                  && b.Object? && b.fields.Keys == {"lg", "bc", "fb"}
                  && b.fields["lg"] == OrNull(branding.logoUrl) && b.fields["bc"] == OrNull(branding.brandColor)
                  && b.fields["fb"] == OrNull(branding.fallbackUrl))
  {
  }

  /** The object carries the record's fields, its branding's among its branding's. */
  ghost predicate CarriesHost(j: Json, r: CachedHost) {
    && j.Object? && "b" in j.fields
    && Carries(j, Object(EncodeHost(r).fields - {"b"}))
    && (if r.b.None? then j.fields["b"] == Null else Carries(j.fields["b"], EncodeBranding(r.b)))
  }

  /** The host decoder admits exactly the objects that carry some record's fields, and reads that record. */
  lemma HostDecoderIsExact(j: Json, r: CachedHost)
    ensures CarriesHost(j, r) <==> IsCachedHost(j) && AsHost(j) == r
  {
    var fields := EncodeHost(r).fields - {"b"};
    assert "v" in fields && "dm" in fields && "t" in fields && "w" in fields;
    if CarriesHost(j, r) && r.b.Some? {
      var b := EncodeBranding(r.b).fields;
      assert "lg" in b && "bc" in b && "fb" in b;
    }
  }

  /** Every link the cache is given passes its decoder and maps back to the link it came from. */
  lemma LinkRoundTrip(link: ResolvedLink)
    ensures ToCachedLink(link).None? <==> link.expiresAt.Unreadable? || link.activatesAt.Unreadable?
    ensures ToCachedLink(link).Some? ==>
              && IsCachedLink(EncodeLink(ToCachedLink(link).value))
              && FromCachedLink(AsLink(EncodeLink(ToCachedLink(link).value))) == link
  {
    if ToCachedLink(link).Some? {
      var r := ToCachedLink(link).value;
      LinkDecoderIsExact(EncodeLink(r), r);
    }
  }

  lemma HostRoundTrip(host: ResolvedHost)
    ensures IsCachedHost(EncodeHost(ToCachedHost(host)))
    ensures AsHost(EncodeHost(ToCachedHost(host))) == ToCachedHost(host)
    ensures FromCachedHost(AsHost(EncodeHost(ToCachedHost(host)))) == host
  {
    var r := ToCachedHost(host);
    var f := EncodeHost(r).fields;
    assert f["v"] == Number(1.0) && f["dm"] == Text(r.dm) && f["t"] == Text(r.t) && f["w"] == Text(r.w);
    if r.b.Some? {
      var b := f["b"].fields;
      assert b["lg"] == OrNull(r.b.value.lg) && b["bc"] == OrNull(r.b.value.bc) && b["fb"] == OrNull(r.b.value.fb);
    }
  }
}
