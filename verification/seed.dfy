/**
 The blog seeding script: normalisation of each record of `BlogPost.json` into a
 row (category, content, title, slug, dates as strings, truthy-or-null fields),
 the lookup keys, and the create-or-update loop with its counters. The database
 is a sequence of rows in insertion order; parsing dates into `Date` values and
 `Number(...)` conversions are not modelled.
 */
module Seed {
  import opened Js
  import Lists

  // ---------------------------------------------------------------------------
  // Image URLs

  const BaseUrl: string := "https://movingquotetexas.com"

  /** The number of `../` groups at the start of `s`. */
  function ParentRun(s: string): (n: nat)
    ensures 3 * n <= |s|
    ensures !StartsWith(s[3 * n..], "../")
    decreases |s|
  {
    if StartsWith(s, "../") then
      assert s[3..][3 * ParentRun(s[3..])..] == s[3 * (1 + ParentRun(s[3..]))..];
      1 + ParentRun(s[3..])
    else 0
  }

  /** A leading run of `../` groups replaced by a single `/`. */
  function CollapseParents(u: string): (r: string)
    ensures ParentRun(u) == 0 ==> r == u
    ensures ParentRun(u) > 0 ==> r == "/" + u[3 * ParentRun(u)..]
  {
    var n := ParentRun(u);
    if n > 0 then "/" + u[3 * n..] else u
  }

  predicate IsAbsoluteHttp(u: string) {
    StartsWith(u, "http://") || StartsWith(u, "https://")
  }

  /** An http(s) URL starts with "h". */
  lemma AbsoluteHttpHead(u: string)
    requires IsAbsoluteHttp(u)
    ensures u != [] && u[0] == 'h'
  {
    if StartsWith(u, "http://") {
      assert u[..7][0] == 'h';
    } else {
      assert u[..8][0] == 'h';
    }
  }

  /** The site path a relative text stands for: its leading `../` groups
      collapsed and a "/" put in front when none is there. */
  function RootedPath(u: string): (p: string)
    requires u != []
    ensures p != [] && p[0] == '/'
    ensures p[|p| - 1] == u[|u| - 1] || p[|p| - 1] == '/'
    ensures ParentRun(u) == 0 ==> p == if StartsWith(u, "/") then u else "/" + u
    ensures ParentRun(u) > 0 ==> p == "/" + u[3 * ParentRun(u)..]
  {
    var cleaned := CollapseParents(u);
    assert ParentRun(u) > 0 ==> cleaned[..1] == "/";
    if StartsWith(cleaned, "/") then
      assert cleaned[..1][0] == cleaned[0];
      cleaned
    else "/" + cleaned
  }

  /** The URL built from the trimmed text `u`: nothing for the empty string, an
      absolute http(s) URL as it is, and any other path made absolute under the
      site's base URL. */
  function ImageUrlOfText(u: string): (r: Option<string>)
    ensures r.None? <==> u == ""
    ensures r.Some? && IsAbsoluteHttp(u) ==> r.value == u
    ensures r.Some? && !IsAbsoluteHttp(u) ==> StartsWith(r.value, BaseUrl + "/")
    ensures r.Some? && !IsAbsoluteHttp(u) && ParentRun(u) == 0 ==>
              r.value == BaseUrl + (if StartsWith(u, "/") then u else "/" + u)
    ensures r.Some? && !IsAbsoluteHttp(u) && ParentRun(u) > 0 ==>
              r.value == BaseUrl + "/" + u[3 * ParentRun(u)..]
  {
    if u == "" then None
    else if IsAbsoluteHttp(u) then Some(u)
    else
      RelativeUnderBase(u);
      Some(BaseUrl + RootedPath(u))
  }

  /** A relative text lands under the base URL at the path it stands for. */
  lemma RelativeUnderBase(u: string)
    requires u != []
    ensures StartsWith(BaseUrl + RootedPath(u), BaseUrl + "/")
    ensures ParentRun(u) == 0 ==>
              BaseUrl + RootedPath(u) == BaseUrl + (if StartsWith(u, "/") then u else "/" + u)
    ensures ParentRun(u) > 0 ==> BaseUrl + RootedPath(u) == BaseUrl + "/" + u[3 * ParentRun(u)..]
  {
    var p := RootedPath(u);
    RootedUnderBase(p);
    if ParentRun(u) > 0 {
      AppendAssoc(BaseUrl, "/", u[3 * ParentRun(u)..]);
    }
  }

  /** A rooted path put after the base URL leaves the base URL and a slash in front. */
  lemma RootedUnderBase(p: string)
    requires p != [] && p[0] == '/'
    ensures StartsWith(BaseUrl + p, BaseUrl + "/")
  {
    var r := BaseUrl + p;
    assert r[..|BaseUrl|] == BaseUrl;
    assert r[|BaseUrl|] == '/';
    assert r[..|BaseUrl| + 1] == r[..|BaseUrl|] + [r[|BaseUrl|]];
  }

  /** Every URL built is an absolute https URL or the original http(s) one, and
      comes out trimmed when its input was. */
  lemma ImageUrlShape(u: string)
    requires Trimmed(u) && ImageUrlOfText(u).Some?
    ensures IsAbsoluteHttp(ImageUrlOfText(u).value)
    ensures Trimmed(ImageUrlOfText(u).value)
  {
    if !IsAbsoluteHttp(u) {
      var p := RootedPath(u);
      UnderBaseShape(p);
      assert p[|p| - 1] == u[|u| - 1] || p[|p| - 1] == '/';
    } else {
      AbsoluteHttpHead(u);
    }
  }

  /** Anything put after the base URL is an https URL ending where the addition ends. */
  lemma UnderBaseShape(p: string)
    requires p != []
    ensures IsAbsoluteHttp(BaseUrl + p)
    ensures (BaseUrl + p)[0] == 'h' && (BaseUrl + p)[|BaseUrl + p| - 1] == p[|p| - 1]
  {
    var r := BaseUrl + p;
    assert r[..8] == BaseUrl[..8];
  }

  /** `normalizeImageUrl(url)`: null for a falsy value or one that is blank as a
      string, otherwise the URL built from its trimmed text. */
  function NormalizeImageUrl(url: Json, num: real -> string): (r: Option<string>)
    ensures !url.Truthy() ==> r.None?
    ensures url.Truthy() ==> (r.None? <==> Trim(JsString(url, num)) == "")
    ensures url.Truthy() ==> r == ImageUrlOfText(Trim(JsString(url, num)))
    ensures r.Some? ==> IsAbsoluteHttp(r.value) && Trimmed(r.value)
  {
    if !url.Truthy() then None
    else
      var u := Trim(JsString(url, num));
      var r := ImageUrlOfText(u);
      if r.None? then None
      else
        ImageUrlShape(u);
        r
  }

  /** `n` copies of the parent group. */
  function Parents(n: nat): (r: string)
    ensures |r| == 3 * n
  {
    if n == 0 then "" else "../" + Parents(n - 1)
  }

  lemma {:induction false} ParentRunOfParents(n: nat, rest: string)
    requires !StartsWith(rest, "../")
    ensures ParentRun(Parents(n) + rest) == n
    ensures (Parents(n) + rest)[3 * n..] == rest
  {
    var s := Parents(n) + rest;
    if n > 0 {
      var t := Parents(n - 1) + rest;
      assert s == "../" + t;
      assert s[..3] == "../" && s[3..] == t;
      ParentRunOfParents(n - 1, rest);
      assert s[3 * n..] == t[3 * (n - 1)..];
    } else {
      assert s == rest;
    }
  }

  /** A text starting with "." is not an http(s) URL. */
  lemma DotStartIsRelative(u: string)
    requires u != [] && u[0] == '.'
    ensures !IsAbsoluteHttp(u)
  {
    if IsAbsoluteHttp(u) {
      AbsoluteHttpHead(u);
    }
  }

  lemma ParentsHead(n: nat, rest: string)
    requires n >= 1
    ensures Parents(n) + rest != [] && (Parents(n) + rest)[0] == '.'
  {
    assert Parents(n) == "../" + Parents(n - 1);
  }

  /** A relative path behind any number of `../` groups lands directly under the
      site root. */
  lemma ParentsCollapseToRoot(n: nat, rest: string)
    requires n >= 1 && !StartsWith(rest, "../")
    ensures ImageUrlOfText(Parents(n) + rest) == Some(BaseUrl + "/" + rest)
  {
    var u := Parents(n) + rest;
    ParentRunOfParents(n, rest);
    ParentsHead(n, rest);
    DotStartIsRelative(u);
    var cleaned := CollapseParents(u);
    assert cleaned == "/" + rest;
    assert cleaned[..1] == "/";
    assert BaseUrl + cleaned == BaseUrl + "/" + rest;
  }

  /** A trimmed absolute http(s) URL normalises to itself. */
  lemma AbsoluteUrlIsFixed(r: string, num: real -> string)
    requires IsAbsoluteHttp(r) && Trimmed(r)
    ensures NormalizeImageUrl(JStr(r), num) == Some(r)
  {
    AbsoluteHttpHead(r);
    assert Trim(JsString(JStr(r), num)) == r by {
      JsStringOfString(r, num);
      TrimOfTrimmed(r);
    }
  }

  /** Normalising a normalised URL changes nothing. */
  lemma NormalizeImageUrlIdempotent(url: Json, num: real -> string)
    requires NormalizeImageUrl(url, num).Some?
    ensures NormalizeImageUrl(JStr(NormalizeImageUrl(url, num).value), num) == NormalizeImageUrl(url, num)
  {
    AbsoluteUrlIsFixed(NormalizeImageUrl(url, num).value, num);
  }

  // ---------------------------------------------------------------------------
  // Dates

  /** The date rewrite: text with a space and no "T" has its first space turned
      into "T"; any other text is kept. */
  function IsoText(s: string): (r: string)
    ensures |r| == |s|
    ensures forall k :: 0 <= k < |s| && r[k] != s[k] ==> s[k] == ' ' && r[k] == 'T' && ' ' !in s[..k]
    ensures 'T' in r || ' ' !in r
    ensures 'T' in s || ' ' !in s ==> r == s
    ensures Trimmed(s) ==> Trimmed(r)
  {
    if ' ' in s && 'T' !in s then
      var i := IndexOf(s, ' ').value;
      assert s[i := 'T'][i] == 'T';
      s[i := 'T']
    else s
  }

  /** The rewrite is idempotent: its output never asks for a second one. */
  lemma IsoTextIdempotent(s: string)
    ensures IsoText(IsoText(s)) == IsoText(s)
  {
  }

  /** The string `parseDate` hands to `new Date`: nothing for a falsy value,
      otherwise the rewritten trimmed text. */
  function IsoIsh(d: Json, num: real -> string): (r: Option<string>)
    ensures r.None? <==> !d.Truthy()
    ensures r.Some? ==> |r.value| == |Trim(JsString(d, num))| && Trimmed(r.value)
    ensures r.Some? ==> 'T' in r.value || ' ' !in r.value
    ensures r.Some? ==> r.value == IsoText(Trim(JsString(d, num)))
  {
    if !d.Truthy() then None
    else
      var s := Trim(JsString(d, num));
      Some(IsoText(s))
  }

  /** A non-empty trimmed string that needs no rewrite is handed to `new Date`
      as it is. */
  lemma IsoIshOfSettled(r: string, num: real -> string)
    requires r != "" && Trimmed(r) && IsoText(r) == r
    ensures IsoIsh(JStr(r), num) == Some(r)
  {
    assert Trim(JsString(JStr(r), num)) == r by {
      JsStringOfString(r, num);
      TrimOfTrimmed(r);
    }
  }

  /** Feeding a rewritten date back in gives it back unchanged. */
  lemma IsoIshIdempotent(d: Json, num: real -> string)
    requires IsoIsh(d, num).Some? && IsoIsh(d, num).value != ""
    ensures IsoIsh(JStr(IsoIsh(d, num).value), num) == IsoIsh(d, num)
  {
    var s := Trim(JsString(d, num));
    IsoTextIdempotent(s);
    IsoIshOfSettled(IsoText(s), num);
  }

  // ---------------------------------------------------------------------------
  // Record normalisation

  /** What Prisma stores in a JSON column: `Prisma.DbNull` for null and undefined. */
  datatype Stored = DbNull | Value(v: Json)

  /** The JSON column value: the database null for null and undefined, the value
      itself otherwise. */
  function JsonOrNull(v: Json): (r: Stored)
    ensures r.DbNull? <==> v.Nullish()
    ensures r.Value? ==> r.v == v
  {
    if v.Nullish() then DbNull else Value(v)
  }

  /** The category: kept when it is a string, the first non-nullish of `name`,
      `label` and `value` when it is another truthy value, and null otherwise. */
  function Category(c: Json): (r: Json)
    ensures !c.Truthy() ==> r == JNull
    ensures c.JStr? && c.Truthy() ==> r == c
    ensures c.Truthy() && !c.JStr? && !OptGet(c, "name").Nullish() ==> r == OptGet(c, "name")
    ensures (c.Truthy() && !c.JStr? && OptGet(c, "name").Nullish() && !OptGet(c, "label").Nullish())
            ==> r == OptGet(c, "label")
    ensures (c.Truthy() && !c.JStr? && OptGet(c, "name").Nullish() && OptGet(c, "label").Nullish()
             && !OptGet(c, "value").Nullish()) ==> r == OptGet(c, "value")
    ensures (c.Truthy() && !c.JStr? && OptGet(c, "name").Nullish() && OptGet(c, "label").Nullish()
             && OptGet(c, "value").Nullish()) ==> r == JNull
  {
    if !c.Truthy() then JNull
    else if c.JStr? then c
    else Coalesce(OptGet(c, "name"), Coalesce(OptGet(c, "label"), Coalesce(OptGet(c, "value"), JNull)))
  }

  /** A text field of the row: the field as a string when it is truthy, null
      otherwise. */
  function TruthyString(v: Json, num: real -> string): (r: Option<string>)
    ensures r.None? <==> !v.Truthy()
    ensures v.JStr? && v.Truthy() ==> r == Some(v.s)
  {
    if v.Truthy() then Some(JsString(v, num)) else None
  }

  /** The part of a seeded row the model keeps. */
  datatype Row = Row(
    guid: Option<string>, postName: string, postTitle: string, category: Json,
    content: Stored, tags: Option<string>, postStatus: Option<string>, postDate: Option<string>)

  /** The row built from a record (which must not be null or undefined). */
  function RowOf(p: Json, num: real -> string): (r: Row)
    requires !p.Nullish()
    ensures OptGet(p, "post_title").JStr? ==> r.postTitle == OptGet(p, "post_title").s
    ensures OptGet(p, "post_title").Nullish() ==> r.postTitle == ""
    ensures OptGet(p, "post_name").JStr? ==> r.postName == OptGet(p, "post_name").s
    ensures OptGet(p, "post_name").Nullish() ==> r.postName == r.postTitle
    ensures !OptGet(p, "post_title").Nullish() ==> r.postTitle == JsString(OptGet(p, "post_title"), num)
    ensures !OptGet(p, "post_name").Nullish() ==> r.postName == JsString(OptGet(p, "post_name"), num)
    ensures OptGet(p, "post_content").JStr? ==> r.content == Value(OptGet(p, "post_content"))
    ensures !OptGet(p, "post_content").JStr? ==> r.content == JsonOrNull(OptGet(p, "post_content"))
    ensures r.guid == TruthyString(OptGet(p, "guid"), num)
    ensures r.category == Category(OptGet(p, "category"))
    ensures r.tags == TruthyString(OptGet(p, "tags"), num)
    ensures r.postStatus == TruthyString(OptGet(p, "post_status"), num)
    ensures r.postDate == IsoIsh(OptGet(p, "post_date"), num)
  {
    var title := OptGet(p, "post_title");
    var content := OptGet(p, "post_content");
    Row(
      TruthyString(OptGet(p, "guid"), num),
      JsString(Coalesce(OptGet(p, "post_name"), Coalesce(title, JStr(""))), num),
      JsString(Coalesce(title, JStr("")), num),
      Category(OptGet(p, "category")),
      if content.JStr? then Value(content) else JsonOrNull(content),
      TruthyString(OptGet(p, "tags"), num),
      TruthyString(OptGet(p, "post_status"), num),
      IsoIsh(OptGet(p, "post_date"), num))
  }

  // ---------------------------------------------------------------------------
  // Create or update

  datatype Key = ByGuid(guid: string) | ByName(name: string)

  /** The `OR` list: the guid and the slug, each only when non-empty. */
  function Keys(r: Row): (ks: seq<Key>)
    ensures |ks| <= 2
    ensures ByGuid(r.guid.GetOr("")) in ks <==> r.guid.Some? && r.guid.value != ""
    ensures ByName(r.postName) in ks <==> r.postName != ""
  {
    (if r.guid.Some? && r.guid.value != "" then [ByGuid(r.guid.value)] else [])
    + (if r.postName != "" then [ByName(r.postName)] else [])
  }

  /** The lookup keys of a record: a string guid is a key exactly when it is
      non-empty, a falsy guid never is, and a string slug (or, failing that, a
      string title) is a key exactly when it is non-empty. */
  lemma RecordKeys(p: Json, num: real -> string)
    requires !p.Nullish()
    ensures var ks := Keys(RowOf(p, num));
            var g := OptGet(p, "guid");
            && (g.JStr? ==> (ByGuid(g.s) in ks <==> g.s != ""))
            && (!g.Truthy() ==> forall k :: k in ks ==> !k.ByGuid?)
    ensures var ks := Keys(RowOf(p, num));
            var slug := OptGet(p, "post_name");
            var title := OptGet(p, "post_title");
            && (slug.JStr? ==> (ByName(slug.s) in ks <==> slug.s != ""))
            && (slug.Nullish() && title.JStr? ==> (ByName(title.s) in ks <==> title.s != ""))
  {
    var r := RowOf(p, num);
    var ks := Keys(r);
    var g := OptGet(p, "guid");
    if g.JStr? && g.s != "" {
      assert r.guid == Some(g.s);
    }
    if g.JStr? && ByGuid(g.s) in ks {
      assert r.guid == Some(g.s);
    }
  }

  predicate MatchesKey(row: Row, k: Key) {
    match k
    case ByGuid(g) => row.guid == Some(g)
    case ByName(n) => row.postName == n
  }

  predicate MatchesAny(row: Row, ks: seq<Key>) {
    exists j :: 0 <= j < |ks| && MatchesKey(row, ks[j])
  }

  /** `findFirst({ where: { OR: keys } })` over the rows in insertion order; with no
      keys there is no lookup at all. */
  function Existing(db: seq<Row>, ks: seq<Key>): (r: Option<nat>)
    ensures |ks| == 0 ==> r.None?
    ensures r.Some? ==> r.value < |db| && MatchesAny(db[r.value], ks)
    ensures r.Some? ==> forall i :: 0 <= i < r.value ==> !MatchesAny(db[i], ks)
    ensures r.None? ==> forall i :: 0 <= i < |db| ==> !MatchesAny(db[i], ks)
  {
    if |ks| == 0 then None else Lists.FindIndex(db, (row: Row) => MatchesAny(row, ks))
  }

  /** The records of the parsed file: the elements of an array, or the single
      value as a one-element list. */
  function Records(parsed: Json): (rs: seq<Json>)
    ensures parsed.JArr? ==> rs == parsed.items
    ensures !parsed.JArr? ==> |rs| == 1 && rs[0] == parsed
  {
    if parsed.JArr? then parsed.items else [parsed]
  }

  /** One step of the loop: update the first row the record's keys find, or
      append a new row. */
  function Upsert(db: seq<Row>, row: Row): (r: (seq<Row>, bool))
    ensures r.1 <==> Existing(db, Keys(row)).Some?
    ensures r.1 ==> |r.0| == |db| && r.0[Existing(db, Keys(row)).value] == row
    ensures r.1 ==> forall j :: 0 <= j < |db| && j != Existing(db, Keys(row)).value ==> r.0[j] == db[j]
    ensures !r.1 ==> r.0 == db + [row]
  {
    match Existing(db, Keys(row))
    case Some(i) => (db[i := row], true)
    case None => (db + [row], false)
  }

  /** The table and the two counters after a run over some records. */
  datatype Tally = Tally(db: seq<Row>, created: nat, updated: nat)

  /** One pass of the loop body: the row is upserted and counted as updated when
      its keys find a row, as created otherwise. */
  function Advance(t: Tally, row: Row): (u: Tally)
    ensures u.db == Upsert(t.db, row).0
    ensures Existing(t.db, Keys(row)).Some? ==> u.created == t.created && u.updated == t.updated + 1
    ensures Existing(t.db, Keys(row)).None? ==> u.created == t.created + 1 && u.updated == t.updated
    ensures |u.db| == |t.db| + (u.created - t.created)
  {
    var step := Upsert(t.db, row);
    if step.1 then Tally(step.0, t.created, t.updated + 1)
    else Tally(step.0, t.created + 1, t.updated)
  }

  /** The effect of a run over records none of which is null or undefined: each
      record's row is upserted in turn. Every record is counted once, and only
      creations grow the table. */
  function Replay(db0: seq<Row>, records: seq<Json>, num: real -> string): (t: Tally)
    requires forall k :: 0 <= k < |records| ==> !records[k].Nullish()
    ensures t.created + t.updated == |records|
    ensures |t.db| == |db0| + t.created
    decreases |records|
  {
    if records == [] then Tally(db0, 0, 0)
    else Advance(Replay(db0, records[..|records| - 1], num), RowOf(records[|records| - 1], num))
  }

  /** Extending the processed prefix by one record is one more pass of the loop
      body. */
  lemma ReplayPrefixStep(db0: seq<Row>, records: seq<Json>, i: nat, num: real -> string)
    requires i < |records| && forall k :: 0 <= k <= i ==> !records[k].Nullish()
    ensures Replay(db0, records[..i + 1], num) == Advance(Replay(db0, records[..i], num), RowOf(records[i], num))
  {
    var r := records[..i + 1];
    assert r[..|r| - 1] == records[..i];
    assert r[|r| - 1] == records[i];
  }

  /** `seedBlogPostsFromBlogData`: processes the records in order; a null or
      undefined record stops the script (`ok` false) with the counts reached so
      far. The table and the counters are those of `Replay` over the records
      processed. */
  method SeedPosts(records: seq<Json>, db0: seq<Row>, num: real -> string)
    returns (ok: bool, created: nat, updated: nat, db: seq<Row>)
    ensures ok <==> forall i :: 0 <= i < |records| ==> !records[i].Nullish()
    ensures ok ==> created + updated == |records|
    ensures !ok ==> created + updated < |records| && records[created + updated].Nullish()
    ensures |db| == |db0| + created
    ensures created + updated <= |records|
    ensures forall k :: 0 <= k < created + updated ==> !records[k].Nullish()
    ensures var t := Replay(db0, records[..created + updated], num);
            db == t.db && created == t.created && updated == t.updated
  {
    var t := Tally(db0, 0, 0);
    var i := 0;
    assert records[..0] == [];
    while i < |records|
      invariant 0 <= i <= |records|
      invariant forall k :: 0 <= k < i ==> !records[k].Nullish()
      invariant t == Replay(db0, records[..i], num)
    {
      if records[i].Nullish() {
        return false, t.created, t.updated, t.db;
      }
      ReplayPrefixStep(db0, records, i, num);
      t := Advance(t, RowOf(records[i], num));
      i := i + 1;
    }
    assert records[..|records|] == records;
    return true, t.created, t.updated, t.db;
  }

  /** A record with neither a guid nor a slug is always created anew. */
  lemma NoKeysAlwaysCreates(db: seq<Row>, row: Row)
    requires row.guid.None? || row.guid == Some("")
    requires row.postName == ""
    ensures Upsert(db, row) == (db + [row], false)
  {
  }
}
