/**
 The analytics ingestion endpoint (POST /api/analytics/collect): sanitising of the
 untyped event payload, validation of the event kind and ids, clamping of heartbeat
 engagement time, client-IP extraction from proxy headers, and the cache-first
 geo lookup. The request body, the headers, the clock, the geo cache, the reply
 of the external geolocation service and the outcome of the database write are
 all explicit inputs.
 */
module Collect {
  import opened Js

  // ---------------------------------------------------------------------------
  // Event kinds

  datatype EventKind = SessionStart | PageView | Heartbeat

  function KindName(k: EventKind): string {
    match k
    case SessionStart => "session_start"
    case PageView => "page_view"
    case Heartbeat => "heartbeat"
  }

  /** The accepted kinds are exactly the three names; anything else is refused. */
  function ParseKind(s: string): (r: Option<EventKind>)
    ensures r.Some? <==> s == "session_start" || s == "page_view" || s == "heartbeat"
    ensures r.Some? ==> KindName(r.value) == s
  {
    if s == "session_start" then Some(SessionStart)
    else if s == "page_view" then Some(PageView)
    else if s == "heartbeat" then Some(Heartbeat)
    else None
  }

  lemma ParseKindName(k: EventKind)
    ensures ParseKind(KindName(k)) == Some(k)
  {
  }

  // ---------------------------------------------------------------------------
  // Sanitising

  /** `safeStr(v, max)`: a non-string or blank value becomes null; otherwise the
      trimmed string cut to at most `max` characters. */
  function SafeStr(v: Json, max: nat): (r: Option<string>)
    ensures !v.JStr? ==> r.None?
    ensures v.JStr? ==> (r.None? <==> Trim(v.s) == "")
    ensures r.Some? ==> |r.value| == Min(max, |Trim(v.s)|) && StartsWith(Trim(v.s), r.value)
  {
    if !v.JStr? then None
    else
      var s := Trim(v.s);
      if s == "" then None
      else Some(s[..Min(max, |s|)])
  }

  /** Sanitising a string that is already short and trimmed gives it back. */
  lemma SafeStrKeepsClean(s: string, max: nat)
    requires s != "" && |s| <= max
    requires !IsSpace(s[0]) && !IsSpace(s[|s| - 1])
    ensures SafeStr(JStr(s), max) == Some(s)
  {
    TrimOfTrimmed(s);
  }

  /** Sanitising a value that was not cut is idempotent. */
  lemma SafeStrIdempotent(v: Json, max: nat)
    requires SafeStr(v, max).Some? && 0 < |Trim(v.s)| <= max
    ensures SafeStr(JStr(SafeStr(v, max).value), max) == SafeStr(v, max)
  {
    var t := Trim(v.s);
    var r := SafeStr(v, max).value;
    assert r == t[..|r|];
    SafeStrKeepsClean(r, max);
  }

  // ---------------------------------------------------------------------------
  // Engagement time and timestamps

  /** A heartbeat's reported seconds, floored and clamped into [0, 60]. */
  function ClampSeconds(x: real): (r: int)
    ensures 0 <= r <= 60
    ensures 0 <= x.Floor <= 60 ==> r == x.Floor
    ensures x.Floor < 0 ==> r == 0
    ensures x.Floor > 60 ==> r == 60
  {
    Max(0, Min(60, x.Floor))
  }

  /** The `activeSeconds` stored for an event: only a heartbeat with a numeric
      `engagement.activeSeconds` reports engagement time. */
  function ActiveSeconds(kind: EventKind, body: Json): (r: nat)
    ensures r <= 60
    ensures kind != Heartbeat ==> r == 0
    ensures !OptGet(OptGet(body, "engagement"), "activeSeconds").JNum? ==> r == 0
    ensures kind == Heartbeat && OptGet(OptGet(body, "engagement"), "activeSeconds").JNum? ==>
              r == ClampSeconds(OptGet(OptGet(body, "engagement"), "activeSeconds").n)
  {
    var v := OptGet(OptGet(body, "engagement"), "activeSeconds");
    if kind == Heartbeat && v.JNum? then ClampSeconds(v.n) else 0
  }

  /** The largest magnitude of a valid `Date` time value, in milliseconds. */
  const MaxTimeValue: int := 8_640_000_000_000_000

  /** `new Date(t).getTime()`: TimeClip truncates toward zero and yields an invalid
      date (None) beyond the representable range. */
  function TimeClip(t: real): (r: Option<int>)
    ensures r.None? <==> t < -(MaxTimeValue as real) || t > MaxTimeValue as real
    ensures r.Some? ==> -MaxTimeValue <= r.value <= MaxTimeValue
    ensures r.Some? && t >= 0.0 ==> r.value as real <= t < r.value as real + 1.0
    ensures r.Some? && t < 0.0 ==> r.value as real - 1.0 < t <= r.value as real
  {
    if t < -(MaxTimeValue as real) || t > MaxTimeValue as real then None
    else if t >= 0.0 then Some(t.Floor)
    else Some(-((-t).Floor))
  }

  // ---------------------------------------------------------------------------
  // Client IP

  /** Request headers by lower-case name; `Headers.get` is case-insensitive. */
  type Headers = map<string, string>

  function Header(h: Headers, name: string): Option<string> {
    if name in h then Some(h[name]) else None
  }

  /** The trimmed text before the first comma of a forwarded-for chain. */
  function FirstEntry(xff: string): (r: string)
    ensures ',' !in r
  {
    var cut := match IndexOf(xff, ',') case Some(i) => i case None => |xff|;
    var r := Trim(xff[..cut]);
    TrimIsInfix(xff[..cut]);
    assert forall k :: 0 <= k < |r| ==> r[k] in xff[..cut];
    r
  }

  /** The first entry of a forwarded-for chain, trimmed, is what the handler reads
      from the header. */
  lemma SplitHeadIsFirstEntry(xff: string)
    ensures Trim(Split(xff, ',')[0]) == FirstEntry(xff)
  {
    SplitHead(xff, ',');
    assert xff[..|xff|] == xff;
  }

  /** `getClientIp`: the first entry of a non-empty `x-forwarded-for`, trimmed, if it
      is not blank; otherwise a non-empty `x-real-ip`, trimmed; otherwise none. */
  function ClientIp(h: Headers): (r: Option<string>)
    ensures ForwardedFirst(h) != "" ==> r == Some(ForwardedFirst(h))
    ensures ForwardedFirst(h) == "" && "x-real-ip" in h && h["x-real-ip"] != "" ==>
              r == Some(Trim(h["x-real-ip"]))
    ensures ForwardedFirst(h) == "" && ("x-real-ip" !in h || h["x-real-ip"] == "") ==> r.None?
  {
    var xff := Header(h, "x-forwarded-for");
    var first := if xff.Some? && xff.value != "" then Trim(Split(xff.value, ',')[0]) else "";
    assert first == ForwardedFirst(h) by {
      if xff.Some? { SplitHeadIsFirstEntry(xff.value); }
    }
    if first != "" then Some(first)
    else
      var realIp := Header(h, "x-real-ip");
      if realIp.Some? && realIp.value != "" then Some(Trim(realIp.value)) else None
  }

  /** The first forwarded-for entry, or "" when the header is absent. */
  function ForwardedFirst(h: Headers): string {
    if "x-forwarded-for" in h then FirstEntry(h["x-forwarded-for"]) else ""
  }

  /** The address taken from the headers is always trimmed. */
  lemma ClientIpTrimmed(h: Headers)
    requires ClientIp(h).Some?
    ensures Trim(ClientIp(h).value) == ClientIp(h).value
  {
    if ForwardedFirst(h) != "" {
      var xff := h["x-forwarded-for"];
      TrimIdempotent(xff[..match IndexOf(xff, ',') case Some(i) => i case None => |xff|]);
    } else {
      TrimIdempotent(Header(h, "x-real-ip").value);
    }
  }

  /** A usable forwarded-for entry wins: `x-real-ip` is then never consulted. */
  lemma ForwardedForTakesPrecedence(h: Headers, realIp: string)
    requires ForwardedFirst(h) != ""
    ensures ClientIp(h["x-real-ip" := realIp]) == ClientIp(h)
  {
    assert ForwardedFirst(h["x-real-ip" := realIp]) == ForwardedFirst(h);
  }

  // ---------------------------------------------------------------------------
  // Geo lookup

  datatype GeoRow = GeoRow(
    ip: string,
    country: Option<string>,
    city: Option<string>,
    region: Option<string>,
    lat: Option<real>,
    lon: Option<real>,
    isp: Option<string>)

  /** The geo cache table, one row per IP. */
  type GeoCache = map<string, GeoRow>

  /** What the lookup gives back: a row, null (a non-success reply), or an
      exception from the external call, which propagates to the request. */
  datatype GeoOutcome = Found(row: GeoRow) | NotFound | Failed

  datatype GeoStep = GeoStep(outcome: GeoOutcome, cache: GeoCache)

  function StrOrNull(v: Json): Option<string> {
    if v.JStr? then Some(v.s) else None
  }

  function NumOrNull(v: Json): Option<real> {
    if v.JNum? then Some(v.n) else None
  }

  predicate IsSuccessReply(reply: Json) {
    OptGet(reply, "status") == JStr("success")
  }

  /** The cache row built from a successful ip-api reply. */
  function RowFromReply(ip: string, reply: Json): (r: GeoRow)
    ensures r.ip == ip
  {
    GeoRow(ip,
           StrOrNull(OptGet(reply, "country")),
           StrOrNull(OptGet(reply, "city")),
           StrOrNull(OptGet(reply, "regionName")),
           NumOrNull(OptGet(reply, "lat")),
           NumOrNull(OptGet(reply, "lon")),
           StrOrNull(OptGet(reply, "isp")))
  }

  /** `geoLookup(ip)`. `reply` is what the external service would answer for
      `ip` (None when the call or the JSON decoding throws); it is consulted only on
      a cache miss. */
  function GeoLookup(cache: GeoCache, ip: string, reply: Option<Json>): (g: GeoStep)
    ensures ip in cache ==> g == GeoStep(Found(cache[ip]), cache)
    ensures ip !in cache && reply.None? ==> g == GeoStep(Failed, cache)
    ensures ip !in cache && reply.Some? && !IsSuccessReply(reply.value) ==> g == GeoStep(NotFound, cache)
    ensures ip !in cache && reply.Some? && IsSuccessReply(reply.value) ==>
              && g.outcome.Found? && g.outcome.row.ip == ip
              && g.cache == cache[ip := g.outcome.row]
              && g.outcome.row.country == StrOrNull(OptGet(reply.value, "country"))
              && g.outcome.row.city == StrOrNull(OptGet(reply.value, "city"))
  {
    if ip in cache then GeoStep(Found(cache[ip]), cache)
    else match reply
      case None => GeoStep(Failed, cache)
      case Some(json) =>
        if !IsSuccessReply(json) then GeoStep(NotFound, cache)
        else
          var row := RowFromReply(ip, json);
          GeoStep(Found(row), cache[ip := row])
  }

  /** A cache hit never depends on the external service: whatever it would have
      answered, the outcome is the same. */
  lemma GeoHitIgnoresService(cache: GeoCache, ip: string, reply1: Option<Json>, reply2: Option<Json>)
    requires ip in cache
    ensures GeoLookup(cache, ip, reply1) == GeoLookup(cache, ip, reply2)
  {
  }

  /** Once an IP has been resolved, a second lookup with the updated cache returns
      the same row without consulting the service again. */
  lemma GeoRepeatHits(cache: GeoCache, ip: string, reply: Option<Json>, later: Option<Json>)
    requires GeoLookup(cache, ip, reply).outcome.Found?
    ensures var g := GeoLookup(cache, ip, reply);
            GeoLookup(g.cache, ip, later) == GeoStep(g.outcome, g.cache)
  {
  }

  /** A lookup only ever adds the row for its own IP; existing rows never change. */
  lemma GeoOnlyAdds(cache: GeoCache, ip: string, reply: Option<Json>)
    ensures var g := GeoLookup(cache, ip, reply);
            && (forall k :: k in cache ==> k in g.cache && g.cache[k] == cache[k])
            && g.cache.Keys <= cache.Keys + {ip}
  {
  }

  /** Geo lookup is attempted only for non-heartbeat events from a known,
      non-loopback address (`127.` prefix or `::1`). */
  function GeoGate(kind: EventKind, ip: Option<string>): (open: bool)
    ensures kind == Heartbeat || ip.None? ==> !open
    ensures ip.Some? && (ip.value == "" || StartsWith(ip.value, "127.") || ip.value == "::1") ==> !open
    ensures kind != Heartbeat && ip.Some? && ip.value != "" && !StartsWith(ip.value, "127.") && ip.value != "::1"
            ==> open
  {
    && kind != Heartbeat
    && ip.Some? && ip.value != ""
    && !StartsWith(ip.value, "127.")
    && ip.value != "::1"
  }

  // ---------------------------------------------------------------------------
  // Validation and the POST handler

  datatype EventRow = EventRow(
    ts: Option<int>,
    kind: EventKind,
    visitorId: string,
    sessionId: string,
    userId: Option<string>,
    path: string,
    title: Option<string>,
    referrer: Option<string>,
    utmSource: Option<string>,
    utmMedium: Option<string>,
    utmCampaign: Option<string>,
    deviceType: Option<string>,
    browser: Option<string>,
    os: Option<string>,
    screen: Option<string>,
    lang: Option<string>,
    activeSeconds: nat,
    country: Option<string>,
    city: Option<string>)

  datatype Checked = Valid(row: EventRow) | Invalid(error: string)

  function Field(body: Json, group: string, key: string): Json {
    OptGet(OptGet(body, group), key)
  }

  lemma KindNameShort(k: EventKind)
    ensures 0 < |KindName(k)| <= 13
  {
  }

  /** A sanitised event that names a kind was not cut: it is the whole trimmed
      text, since every name is far shorter than 50 characters. */
  lemma SafeKindUncut(v: Json)
    ensures SafeStr(v, 50).Some? && ParseKind(SafeStr(v, 50).value).Some? ==>
              v.JStr? && Trim(v.s) == SafeStr(v, 50).value
  {
    if SafeStr(v, 50).Some? && ParseKind(SafeStr(v, 50).value).Some? {
      var e := SafeStr(v, 50).value;
      KindNameShort(ParseKind(e).value);
      var t := Trim(v.s);
      assert |e| == |t|;
      assert t == t[..|e|];
    }
  }

  /** A trimmed text that is a kind's name survives sanitising unchanged. */
  lemma SafeKindName(v: Json, k: EventKind)
    requires v.JStr? && Trim(v.s) == KindName(k)
    ensures SafeStr(v, 50) == Some(KindName(k))
  {
    KindNameShort(k);
    assert Trim(v.s)[..|KindName(k)|] == KindName(k);
  }

  /** The sanitised event kind of a body, if it is one of the three kinds. */
  function KindOf(body: Json): (r: Option<EventKind>)
    ensures r.Some? ==> OptGet(body, "event").JStr? && Trim(OptGet(body, "event").s) == KindName(r.value)
    ensures forall k :: OptGet(body, "event").JStr? && Trim(OptGet(body, "event").s) == KindName(k) ==> r == Some(k)
  {
    var v := OptGet(body, "event");
    SafeKindUncut(v);
    assert forall k :: v.JStr? && Trim(v.s) == KindName(k) ==>
             SafeStr(v, 50) == Some(KindName(k)) && ParseKind(KindName(k)) == Some(k) by {
      forall k | v.JStr? && Trim(v.s) == KindName(k)
        ensures SafeStr(v, 50) == Some(KindName(k)) && ParseKind(KindName(k)) == Some(k)
      {
        SafeKindName(v, k);
        ParseKindName(k);
      }
    }
    match SafeStr(v, 50)
    case None => None
    case Some(e) => ParseKind(e)
  }

  /** The validation and normalisation half of the POST handler: the row it would
      store, before geo enrichment, or the error it answers with. */
  function Validate(body: Json, now: int): (c: Checked)
    ensures KindOf(body).None? <==> c == Invalid("Invalid event")
    ensures KindOf(body).Some?
            && (SafeStr(OptGet(body, "visitorId"), 100).None? || SafeStr(OptGet(body, "sessionId"), 100).None?)
            <==> c == Invalid("Missing ids")
    ensures c.Valid? ==>
              && Some(c.row.kind) == KindOf(body)
              && Some(c.row.visitorId) == SafeStr(OptGet(body, "visitorId"), 100)
              && Some(c.row.sessionId) == SafeStr(OptGet(body, "sessionId"), 100)
              && c.row.userId == SafeStr(OptGet(body, "userId"), 100)
              && c.row.path == SafeStr(Field(body, "page", "path"), 1000).GetOr("/")
              && c.row.title == SafeStr(Field(body, "page", "title"), 300)
              && c.row.referrer == SafeStr(Field(body, "page", "referrer"), 1000)
              && c.row.utmSource == SafeStr(Field(body, "utm", "source"), 120)
              && c.row.utmMedium == SafeStr(Field(body, "utm", "medium"), 120)
              && c.row.utmCampaign == SafeStr(Field(body, "utm", "campaign"), 120)
              && c.row.deviceType == SafeStr(Field(body, "device", "type"), 50)
              && c.row.browser == SafeStr(Field(body, "device", "browser"), 80)
              && c.row.os == SafeStr(Field(body, "device", "os"), 80)
              && c.row.screen == SafeStr(Field(body, "device", "screen"), 50)
              && c.row.lang == SafeStr(Field(body, "device", "lang"), 30)
              && c.row.activeSeconds == ActiveSeconds(c.row.kind, body)
              && c.row.activeSeconds <= 60
              && (c.row.kind != Heartbeat ==> c.row.activeSeconds == 0)
              && (OptGet(body, "ts").JNum? ==> c.row.ts == TimeClip(OptGet(body, "ts").n))
              && (!OptGet(body, "ts").JNum? ==> c.row.ts == TimeClip(now as real))
              && c.row.country.None? && c.row.city.None?
  {
    match KindOf(body)
    case None => Invalid("Invalid event")
    case Some(kind) =>
      var visitorId := SafeStr(OptGet(body, "visitorId"), 100);
      var sessionId := SafeStr(OptGet(body, "sessionId"), 100);
      if visitorId.None? || sessionId.None? then Invalid("Missing ids")
      else
        var tsv := OptGet(body, "ts");
        var tsNum := if tsv.JNum? then tsv.n else now as real;
        Valid(EventRow(
          TimeClip(tsNum),
          kind,
          visitorId.value,
          sessionId.value,
          SafeStr(OptGet(body, "userId"), 100),
          SafeStr(Field(body, "page", "path"), 1000).GetOr("/"),
          SafeStr(Field(body, "page", "title"), 300),
          SafeStr(Field(body, "page", "referrer"), 1000),
          SafeStr(Field(body, "utm", "source"), 120),
          SafeStr(Field(body, "utm", "medium"), 120),
          SafeStr(Field(body, "utm", "campaign"), 120),
          SafeStr(Field(body, "device", "type"), 50),
          SafeStr(Field(body, "device", "browser"), 80),
          SafeStr(Field(body, "device", "os"), 80),
          SafeStr(Field(body, "device", "screen"), 50),
          SafeStr(Field(body, "device", "lang"), 30),
          ActiveSeconds(kind, body),
          None,
          None))
  }

  /** `{ ok: true }` with 200, or `{ ok: false, error? }` with 400. */
  datatype Response = Ack | Reject(error: Option<string>) {
    function Status(): int {
      if Ack? then 200 else 400
    }
  }

  /** The request as the handler sees it: the parsed JSON body (None when
      `req.json()` throws) and the headers. */
  datatype Request = Request(body: Option<Json>, headers: Headers)

  datatype IngestResult = IngestResult(response: Response, written: Option<EventRow>, cache: GeoCache)

  /** The geo half of the handler: the row with country and city filled in from
      the lookup when the gate lets the lookup happen; `ok` is false when the
      lookup threw. */
  datatype Enriched = Enriched(ok: bool, row: EventRow, cache: GeoCache)

  function Enrich(row: EventRow, ip: Option<string>, cache: GeoCache, reply: Option<Json>): (e: Enriched)
    ensures e.row == row.(country := e.row.country, city := e.row.city)
    ensures !GeoGate(row.kind, ip) ==> e == Enriched(true, row, cache)
    ensures !e.ok ==> e.cache == cache
    ensures GeoGate(row.kind, ip) ==> (e.ok <==> !GeoLookup(cache, ip.value, reply).outcome.Failed?)
    ensures GeoGate(row.kind, ip) ==> e.cache == GeoLookup(cache, ip.value, reply).cache
    ensures GeoGate(row.kind, ip) && GeoLookup(cache, ip.value, reply).outcome.Found? ==>
              e.ok && e.row.country == GeoLookup(cache, ip.value, reply).outcome.row.country
              && e.row.city == GeoLookup(cache, ip.value, reply).outcome.row.city
    ensures GeoGate(row.kind, ip) && GeoLookup(cache, ip.value, reply).outcome.NotFound? ==>
              e.ok && e.row == row
    ensures forall k :: k in cache ==> k in e.cache && e.cache[k] == cache[k]
  {
    if !GeoGate(row.kind, ip) then Enriched(true, row, cache)
    else
      var g := GeoLookup(cache, ip.value, reply);
      GeoOnlyAdds(cache, ip.value, reply);
      match g.outcome
      case Failed => Enriched(false, row, cache)
      case NotFound => Enriched(true, row, g.cache)
      case Found(geo) => Enriched(true, row.(country := geo.country, city := geo.city), g.cache)
  }

  /** `POST(req)`. `now` stands for `Date.now()`, `reply` for the geolocation
      service's answer about the client IP, `dbAccepts` for whether the database
      takes the insert of a row with a valid timestamp. An invalid `Date` (a
      numeric `ts` beyond the representable range) makes the insert throw, which
      the handler answers with 400. Nothing is written unless the answer is the
      acknowledgement. */
  function Ingest(req: Request, now: int, cache: GeoCache, reply: Option<Json>, dbAccepts: bool): (res: IngestResult)
    ensures res.response.Ack? <==> res.written.Some?
    ensures req.body.None? ==> res == IngestResult(Reject(None), None, cache)
    ensures req.body.Some? && Validate(req.body.value, now).Invalid? ==>
              res == IngestResult(Reject(Some(Validate(req.body.value, now).error)), None, cache)
    ensures req.body.Some? && Validate(req.body.value, now).Valid? ==>
              var row := Validate(req.body.value, now).row;
              var e := Enrich(row, ClientIp(req.headers), cache, reply);
              && (res.response.Ack? <==> e.ok && row.ts.Some? && dbAccepts)
              && (res.response.Reject? ==> res.response.error.None?)
              && res.cache == e.cache
    ensures res.written.Some? ==>
              && req.body.Some? && Validate(req.body.value, now).Valid?
              && res.written.value == Enrich(Validate(req.body.value, now).row, ClientIp(req.headers), cache, reply).row
              && res.written.value.ts.Some?
    ensures forall k :: k in cache ==> k in res.cache && res.cache[k] == cache[k]
  {
    match req.body
    case None => IngestResult(Reject(None), None, cache)
    case Some(body) =>
      match Validate(body, now)
      case Invalid(e) => IngestResult(Reject(Some(e)), None, cache)
      case Valid(row) =>
        var e := Enrich(row, ClientIp(req.headers), cache, reply);
        if !e.ok then IngestResult(Reject(None), None, cache)
        else if row.ts.Some? && dbAccepts then IngestResult(Ack, Some(e.row), e.cache)
        else IngestResult(Reject(None), None, e.cache)
  }

  /** A well-formed event is stored: with a readable body, a valid kind and both
      ids, a timestamp in range, a geo lookup that does not throw and a database
      that takes the insert, the answer is 200 and the enriched row is written. */
  lemma ValidEventIsStored(req: Request, now: int, cache: GeoCache, reply: Option<Json>)
    requires req.body.Some? && Validate(req.body.value, now).Valid?
    requires Validate(req.body.value, now).row.ts.Some?
    requires !GeoGate(Validate(req.body.value, now).row.kind, ClientIp(req.headers))
             || !GeoLookup(cache, ClientIp(req.headers).value, reply).outcome.Failed?
    ensures var res := Ingest(req, now, cache, reply, true);
            && res.response == Ack && res.response.Status() == 200
            && res.written == Some(Enrich(Validate(req.body.value, now).row, ClientIp(req.headers), cache, reply).row)
  {
  }

  /** A geolocation call that throws makes the whole request fail: 400, nothing
      written and the cache as it was. */
  lemma GeoFailureRejects(req: Request, now: int, cache: GeoCache, reply: Option<Json>, dbAccepts: bool)
    requires req.body.Some? && Validate(req.body.value, now).Valid?
    requires GeoGate(Validate(req.body.value, now).row.kind, ClientIp(req.headers))
    requires ClientIp(req.headers).value !in cache && reply.None?
    ensures Ingest(req, now, cache, reply, dbAccepts) == IngestResult(Reject(None), None, cache)
    ensures Ingest(req, now, cache, reply, dbAccepts).response.Status() == 400
  {
  }

  /** Every row the handler writes carries the sanitised fields of its payload; its
      country and city stay null whenever the geo gate is closed. */
  lemma WrittenRowIsSanitised(req: Request, now: int, cache: GeoCache, reply: Option<Json>, dbAccepts: bool)
    requires Ingest(req, now, cache, reply, dbAccepts).written.Some?
    ensures var w := Ingest(req, now, cache, reply, dbAccepts).written.value;
            var v := Validate(req.body.value, now).row;
            && w == v.(country := w.country, city := w.city)
            && w.activeSeconds <= 60 && w.ts.Some?
            && (w.kind != Heartbeat ==> w.activeSeconds == 0)
            && (w.kind == Heartbeat && Field(req.body.value, "engagement", "activeSeconds").JNum? ==>
                  w.activeSeconds == ClampSeconds(Field(req.body.value, "engagement", "activeSeconds").n))
            && (!GeoGate(w.kind, ClientIp(req.headers)) ==> w.country.None? && w.city.None?)
  {
  }

  /** Heartbeats never touch the geo cache or the external service. */
  lemma HeartbeatSkipsGeo(req: Request, now: int, cache: GeoCache, reply1: Option<Json>,
                          reply2: Option<Json>, dbAccepts: bool)
    requires req.body.Some? && KindOf(req.body.value) == Some(Heartbeat)
    ensures Ingest(req, now, cache, reply1, dbAccepts) == Ingest(req, now, cache, reply2, dbAccepts)
    ensures Ingest(req, now, cache, reply1, dbAccepts).cache == cache
  {
  }

  /** A payload missing either id is refused with "Missing ids" and writes nothing. */
  lemma MissingIdsWritesNothing(req: Request, now: int, cache: GeoCache, reply: Option<Json>, dbAccepts: bool)
    requires req.body.Some? && KindOf(req.body.value).Some?
    requires SafeStr(OptGet(req.body.value, "sessionId"), 100).None?
    ensures Ingest(req, now, cache, reply, dbAccepts) == IngestResult(Reject(Some("Missing ids")), None, cache)
    ensures Ingest(req, now, cache, reply, dbAccepts).response.Status() == 400
  {
  }
}
