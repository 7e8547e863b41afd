# Moving Quote Texas — pure core of the web app, in Dafny

This project models the decision and transformation logic of the Moving Quote
Texas site: a Next.js application that collects moving-cost leads, publishes a
blog, and records its own visitor analytics. Each module takes as explicit
parameters what the code reads from its environment: the request body, the
headers, the clock, the session token, the database state, the list being
edited, and the replies of outside services. It then states and proves what the
code does with them.

| module | file | what it models |
|---|---|---|
| `Js` | js.dfy | The JavaScript semantics the rest relies on: untyped JSON values with truthiness, `??`, `?.` and throwing `.`, `String(v)`, `trim`, `split`/`join`, `toLowerCase`/`toUpperCase`, `includes`, `startsWith`, and decimal digits. |
| `Lists` | lists.dfy | `filter`, `findIndex`, order-preserving subsequences, and removal at an index. |
| `Collect` | collect.dfy | The analytics ingestion endpoint `POST /api/analytics/collect`: `safeStr`, event-kind and id validation, heartbeat time clamping, client-IP extraction, the geo gate, the cache-first geo lookup, and the "no write on rejection" guarantee. |
| `AnalyticsPage` | analytics_page.dfy | The analytics dashboard: `fmtSec`, the bucket override, range resolution on integer milliseconds, the from < to guard, the auto-refresh gate, and the engagement badge. |
| `LeadForm` | lead_form.dfy | The moving-cost calculator: the ZIP and e-mail patterns, the per-field error map, the lead-type effect, name splitting, phone and e-mail normalisation, `capitalizeWords`, state codes, and the payload. |
| `Middleware` | middleware.dfy | The edge middleware: the www redirect, the `/home` alias, and the `/admin` guard. |
| `Posts` | posts.dfy | The blog record the list views keep, and the admin fetcher's normalisation of `post_content`. |
| `BlogPage` | blog_page.dfy | The public blog list: the reply transform, six-post pages, the page-number window, Prev/Next, and read time. |
| `BlogManagement` | blog_management.dfy | The admin blog-management page: the fetcher, the title search, the optimistic delete and upsert on the cached list, and the form state. |
| `AdminDashboard` | admin_dashboard.dfy | The admin dashboard: the WordPress reply transform, delete after confirmation, edit-merge, and the ten most recent posts. |
| `DashboardBlogs` | dashboard_blogs.dfy | The user dashboard's blog page: delete by index, and the form's open and close state. |
| `Header` | header.dfy | The site header's live blog search and its title highlighter. |
| `Seed` | seed.dfy | The blog seeding script: image-URL normalisation, the date-string rewrite, category/title/slug derivation, and the create-or-update loop with its counters. |

Conventions used throughout:

- An untyped value (`any` in the source) is a `Js.Json`. A property read that
  can throw (`v.k`) returns `Js.Eval`, whose `Throws` stands for the exception.
  A read that cannot throw (`v?.k`) returns the value, `JUndefined` when absent.
- `Number.prototype.toString` is the parameter `num`.
- Services whose answers the code only consumes are parameters:
  - the ip-api reply (`reply`);
  - whether the database accepts a write (`dbAccepts`);
  - the local-midnight conversion of a calendar date (`localMidnight`).
- Two behaviours of the code that the model keeps as they are:
  - **Geo failures.** A lookup tolerates only a reply whose `status` is not
    `"success"`. Nothing catches around the `fetch` and `res.json()` calls
    (app/api/analytics/collect/route.ts:47-48). An exception there reaches the
    handler's `catch` (route.ts:148-149), which answers 400, and nothing is
    written. `Collect.GeoLookup` and `Collect.Ingest` model this as the `Failed`
    outcome.
  - **Redirect statuses.** Only the www and `/home` redirects use 301. The
    `/admin` guard's redirects (middleware.ts:37, 42, 47) pass no status, so
    they use the framework default, 307 Temporary Redirect (section 15.4.8 of
    RFC 9110).

## Model

| member | source | states |
|---|---|---|
| Collect.ParseKind | app/api/analytics/collect/route.ts:75 | An event kind is accepted exactly when it is one of "session_start", "page_view" and "heartbeat", and the parsed kind has that name. |
| Collect.ParseKindName | app/api/analytics/collect/route.ts:75 | Every kind's name parses back to that kind. |
| Collect.KindOf | app/api/analytics/collect/route.ts:74-75 | A body's kind is k exactly when its `event` is a string whose trimmed text is k's name. The 50-character cut never yields a kind from longer text. |
| Collect.SafeKindUncut | app/api/analytics/collect/route.ts:74-75 | A sanitised event that names a kind is the whole trimmed text, not a cut of it. |
| Collect.SafeKindName | app/api/analytics/collect/route.ts:74-75 | A trimmed event text that is a kind's name survives sanitising unchanged. |
| Collect.SafeStr | app/api/analytics/collect/route.ts:4-9 | A non-string gives null, and so does a string that is blank after trimming. Otherwise the result is the prefix of the trimmed string of length min(max, length). |
| Collect.SafeStrKeepsClean | app/api/analytics/collect/route.ts:4-9 | A trimmed, non-empty string no longer than max is returned unchanged. |
| Collect.SafeStrIdempotent | app/api/analytics/collect/route.ts:4-9 | Sanitising a value that was not cut a second time changes nothing. |
| Collect.ClampSeconds | app/api/analytics/collect/route.ts:104 | The result lies in [0, 60]. It is floor(x) when that is in range, 0 below the range and 60 above it. |
| Collect.ActiveSeconds | app/api/analytics/collect/route.ts:102-105 | Active time is at most 60. It is 0 for any non-heartbeat event and for a non-numeric `engagement.activeSeconds`. For a heartbeat with a numeric value it is that value floored and clamped into [0, 60]. |
| Collect.TimeClip | app/api/analytics/collect/route.ts:85-86 | `new Date(t)` truncates toward zero within ±8.64e15 ms and is invalid beyond that range. |
| Collect.FirstEntry | app/api/analytics/collect/route.ts:15 | The first forwarded-for entry contains no comma. |
| Collect.SplitHeadIsFirstEntry | app/api/analytics/collect/route.ts:15 | `split(",")[0].trim()` is the trimmed text before the first comma. |
| Collect.ClientIp | app/api/analytics/collect/route.ts:11-22 | Returns the non-blank first entry of `x-forwarded-for` if there is one. Otherwise it returns the trimmed non-empty `x-real-ip`, and otherwise none. |
| Collect.ClientIpTrimmed | app/api/analytics/collect/route.ts:11-22 | The IP taken from the headers is always trimmed. |
| Collect.ForwardedForTakesPrecedence | app/api/analytics/collect/route.ts:13-20 | When a usable forwarded-for entry exists, `x-real-ip` has no influence. |
| Collect.RowFromReply | app/api/analytics/collect/route.ts:55-65 | A new cache row is keyed by the looked-up IP. |
| Collect.GeoLookup | app/api/analytics/collect/route.ts:24-68 | A cache hit returns the cached row and leaves the cache alone. A thrown call fails with the cache unchanged, and so does a non-success reply, which returns null. A success inserts exactly one row for the IP, with the reply's country and city when they are strings. |
| Collect.GeoHitIgnoresService | app/api/analytics/collect/route.ts:26-27 | A cache hit gives the same result whatever the service would answer. |
| Collect.GeoRepeatHits | app/api/analytics/collect/route.ts:24-68 | After a successful lookup, a second lookup of the same IP returns the same row without consulting the service. |
| Collect.GeoOnlyAdds | app/api/analytics/collect/route.ts:24-68 | A lookup never changes an existing cache row and adds at most the row for its own IP. |
| Collect.GeoGate | app/api/analytics/collect/route.ts:113-116 | The lookup is never attempted for a heartbeat, without a client IP, or for an empty, `127.`-prefixed or `::1` address, and is attempted otherwise. |
| Collect.Validate | app/api/analytics/collect/route.ts:72-107 | Rejects exactly the invalid kinds ("Invalid event") and, among valid kinds, exactly the missing ids ("Missing ids"). Every stored field is its sanitised input, with a missing path stored as "/". The active seconds are those of the event's kind and body. The timestamp is the body's numeric `ts` or `now`. Country and city start out null. |
| Collect.Enrich | app/api/analytics/collect/route.ts:110-121 | Only country and city can change. A closed gate leaves the row and the cache alone. An open gate succeeds exactly when the lookup does not throw, and the cache is the lookup's. A hit or a success copies the geo row's country and city. A null result leaves the row as it was. |
| Collect.Ingest | app/api/analytics/collect/route.ts:70-151 | An event is written exactly when the answer is the acknowledgement. An unreadable body is answered with a bare 400. A validation error is answered with its message and writes nothing. For a valid event the answer is the acknowledgement exactly when the geo lookup did not throw, the timestamp is a valid date and the database takes the insert. Every other answer is a bare 400. A written row is the validated, enriched row with a valid timestamp. No cached geo row is ever altered. |
| Collect.ValidEventIsStored | app/api/analytics/collect/route.ts:113-149 | A readable, valid event with a timestamp in range is acknowledged with 200 and its enriched row is written, provided the geo lookup is skipped or does not throw and the database takes the insert. |
| Collect.GeoFailureRejects | app/api/analytics/collect/route.ts:47-48 | When the gate is open, the IP is not cached and the service call throws, the answer is a bare 400, nothing is written and the cache is unchanged. |
| Collect.WrittenRowIsSanitised | app/api/analytics/collect/route.ts:88-145 | A written row carries the sanitised payload fields, a valid timestamp and at most 60 active seconds. These are 0 unless the event is a heartbeat, and for a heartbeat with a numeric value they are that value floored and clamped into [0, 60]. Its country and city stay null when the gate is closed. |
| Collect.HeartbeatSkipsGeo | app/api/analytics/collect/route.ts:113-121 | A heartbeat's outcome does not depend on the geolocation service, and the geo cache stays as it is. |
| Collect.MissingIdsWritesNothing | app/api/analytics/collect/route.ts:79-83 | A valid kind with a missing session id gets 400 "Missing ids" and nothing is written. |
| AnalyticsPage.FmtSec | app/admin/dashboard/analytics/page.tsx:76-77 | A duration of zero or less prints as "0s". |
| AnalyticsPage.FmtSecWholeSeconds | app/admin/dashboard/analytics/page.tsx:78-79 | For w = floor(sec): `Math.floor(sec / 60)` is w / 60 and `Math.floor(sec % 60)` is w % 60. |
| AnalyticsPage.FmtSecShape | app/admin/dashboard/analytics/page.tsx:76-85 | Below a minute the output is "{s}s". Below an hour it is "{m}m {s}s" with s < 60. From an hour on it is "{h}h {mm}m" with mm < 60 and the seconds dropped. |
| AnalyticsPage.ParseSingle | app/admin/dashboard/analytics/page.tsx:80 | The "{s}s" shape reads back as s seconds. |
| AnalyticsPage.ParseMinutesSeconds | app/admin/dashboard/analytics/page.tsx:83 | The "{m}m {s}s" shape reads back as 60m + s seconds. |
| AnalyticsPage.ParseHoursMinutes | app/admin/dashboard/analytics/page.tsx:84 | The "{h}h {mm}m" shape reads back as 3600h + 60mm seconds. |
| AnalyticsPage.FmtSecRoundTrip | app/admin/dashboard/analytics/page.tsx:76-85 | Reading the printed duration back gives 0 for sec ≤ 0 and the whole seconds below an hour. From an hour on it gives the whole seconds rounded down to the minute. |
| AnalyticsPage.EffectiveBucket | app/admin/dashboard/analytics/page.tsx:204-207 | The bucket is "hour" for the today and 24h presets, and the selected bucket otherwise. |
| AnalyticsPage.AddDays | app/admin/dashboard/analytics/page.tsx:87-89 | Adding n days moves a time by exactly n × 86 400 000 ms. |
| AnalyticsPage.DateParts | app/admin/dashboard/analytics/page.tsx:102-104 | A date text is read exactly when its first three `-`-separated pieces are digit strings of positive value, and its parts are their values. |
| AnalyticsPage.DatePartsRoundTrip | app/admin/dashboard/analytics/page.tsx:102-106 | A `y-m-d` string with positive parts is read back as those parts. |
| AnalyticsPage.ParseLocalDate | app/admin/dashboard/analytics/page.tsx:102-106 | An unreadable date text gives no date. A readable one gives the local midnight of its year, month minus one and day. |
| AnalyticsPage.ParseLocalDateOfDate | app/admin/dashboard/analytics/page.tsx:102-106 | The text of a date with positive parts is read as that day's local midnight, with the month counted from zero. |
| AnalyticsPage.ResolveRange | app/admin/dashboard/analytics/page.tsx:209-230 | Today runs from local midnight to now with hourly buckets. 24h, 7d and 30d run from now minus 1, 7 and 30 days of 86 400 000 ms to now. The bucket is always the effective one. |
| AnalyticsPage.CustomRange | app/admin/dashboard/analytics/page.tsx:221-229 | An unparseable custom date falls back to the last 7 days, and so do two empty ones. Two parsed dates give from = the start date and to = the end date plus exactly one day. With only an end date, from is now minus 7 days and to is the end date plus one day. With only a start date, to is now. |
| AnalyticsPage.FetchPlan | app/admin/dashboard/analytics/page.tsx:236-238 | A request is made exactly when from < to. Otherwise the fetch fails with the invalid-range message before any request. |
| AnalyticsPage.PresetsQuery | app/admin/dashboard/analytics/page.tsx:209-238 | The 24h, 7d and 30d presets always issue a request. Today issues one exactly when now is after midnight. |
| AnalyticsPage.SameDayCustomRangeQueries | app/admin/dashboard/analytics/page.tsx:221-238 | Choosing the same day as start and end queries that whole day. |
| AnalyticsPage.RefreshGate | app/admin/dashboard/analytics/page.tsx:293-297 | A hidden page never refetches. A visible page refetches exactly once 14 800 ms have passed since the last fetch. |
| AnalyticsPage.ShouldRefresh | app/admin/dashboard/analytics/page.tsx:293-297 | A refetch happens only while visible and at least 14 800 ms after the last fetch, and always once a full 15 000 ms interval has passed on a visible page. |
| AnalyticsPage.RefreshToleratesEarlyTimer | app/admin/dashboard/analytics/page.tsx:296-309 | A timer that fires up to 200 ms before `REFRESH_MS` still refetches. Once refetching is due it stays due. |
| AnalyticsPage.EngagementOf | app/admin/dashboard/analytics/page.tsx:662-666 | "High" iff avg > 120, "Medium" iff 60 < avg ≤ 120, and "Low" iff avg ≤ 60. |
| AnalyticsPage.EngagementMonotone | app/admin/dashboard/analytics/page.tsx:662-666 | More active time never gives a lower badge. |
| LeadForm.ZipMatchesIffIsZip | components/MovingCostCalculator.tsx:15 | The anchored pattern's automaton accepts exactly five digits, optionally followed by "-" and four digits. |
| LeadForm.EmailRegexIffShape | components/MovingCostCalculator.tsx:88 | The unanchored e-mail pattern matches exactly when the string contains, somewhere, a non-space character, "@", non-space characters, "." and a non-space character. |
| LeadForm.EmailNeedsAt | components/MovingCostCalculator.tsx:88 | A string without "@" is always flagged. |
| LeadForm.Errors | components/MovingCostCalculator.tsx:83-104 | The map has a key for each failing rule and for no other, with the exact message shown for it. A missing e-mail or ZIP is reported before a malformed one. |
| LeadForm.LeadTypeAfter | components/MovingCostCalculator.tsx:74-78 | Once both states are set, the type is "Local" iff they are equal and "International" iff they differ. Until then the type is kept. |
| LeadForm.LeadTypeSymmetric | components/MovingCostCalculator.tsx:74-78 | Swapping origin and destination does not change the lead type. |
| LeadForm.SplitName | components/MovingCostCalculator.tsx:115-116 | The first name contains no space and is a prefix of the trimmed name. |
| LeadForm.SplitNameRejoins | components/MovingCostCalculator.tsx:115-116 | With a space, first + " " + last is the trimmed name. Without one, the first name is the whole trimmed name and the last name is empty. |
| LeadForm.PhoneDigits | components/MovingCostCalculator.tsx:127 | The phone keeps only digits. They appear in their order, each as often as in the input. |
| LeadForm.PhoneDigitsIdempotent | components/MovingCostCalculator.tsx:127 | Filtering the digits twice changes nothing. |
| LeadForm.NormalEmail | components/MovingCostCalculator.tsx:126 | The e-mail is the trimmed input, letter for letter in lower case. It has no white space at either end and no upper-case letter. |
| LeadForm.NormalEmailKeepsClean | components/MovingCostCalculator.tsx:126 | An address already trimmed and in lower case is sent as typed. |
| LeadForm.NormalEmailIdempotent | components/MovingCostCalculator.tsx:126 | Normalising an e-mail twice changes nothing. |
| LeadForm.CapitalizeWordsSpec | components/MovingCostCalculator.tsx:227-228 | Length is preserved. Exactly the characters at a `\b\w` position are upper-cased. Only lower-case letters at word starts change. |
| LeadForm.CapitalizeWords | components/MovingCostCalculator.tsx:227-228 | Length is preserved, and each character is upper-cased exactly when it is a word character with no word character before it. |
| LeadForm.CapitalizeWordsIdempotent | components/MovingCostCalculator.tsx:227-228 | Capitalising twice changes nothing. |
| LeadForm.StateCode | components/MovingCostCalculator.tsx:130 | The code is the first min(2, length) characters, upper-cased. |
| LeadForm.StateCodeOfCapitalized | components/MovingCostCalculator.tsx:129-130 | The code of the capitalised state equals the code of the raw state. |
| LeadForm.RefererField | components/MovingCostCalculator.tsx:122 | The referer is never empty and is kept when given. |
| LeadForm.LeadSource | components/MovingCostCalculator.tsx:121 | The lead source always starts with "Website: ". |
| LeadForm.LeadSourceNamesReferer | components/MovingCostCalculator.tsx:121-122 | The lead source is "Website: " followed by the referer field, "Direct" when the referer is empty. |
| LeadForm.MoveDate | components/MovingCostCalculator.tsx:139 | Without a date the field is "". Otherwise it is the part of the ISO string before its first "T": a prefix that stops right at a "T", or the whole string when there is none. |
| LeadForm.BuildPayload | components/MovingCostCalculator.tsx:118-144 | Every field of the payload from its form field. The phone is its digits. The e-mail is trimmed and lower-cased. The name is split into first and last. States and cities are capitalised, and the codes come from the raw states. The move date is the date part. Lead type, ZIPs, move size and IP are passed through. The lead source names the referer. |
| LeadForm.HandleCalculate | components/MovingCostCalculator.tsx:80-113 | A press is ignored exactly when a submission is in flight. Otherwise a payload is built exactly when the error map is empty, and it is the payload of the form. A rejection shows that non-empty map. |
| LeadForm.SubmittedIffValid | components/MovingCostCalculator.tsx:83-111 | A form is submitted iff all of these hold: name, phone and lead type are set; the terms are accepted; the e-mail has the pattern's shape; and both ZIPs are valid. |
| Middleware.Decide | middleware.ts:6-51 | In production the apex host gets a 301 to https on the www host before anything else. Otherwise `/home` gets a 301 to "/" with the rest of the URL kept, and any 301 is one of these two. Outside `/admin` the only outcomes are passing on and a 301. Every other redirect is a 307 on an `/admin` path. |
| Middleware.AdminNeedsAdminRole | middleware.ts:27-50 | Past the first two rules, an `/admin` page is served iff a token exists and its role is the string "ADMIN". |
| Middleware.AdminRefusals | middleware.ts:33-48 | With no token: sign-in with `callbackUrl` set to the path. Role "USER": "/". Any other role, a missing one included: "/403". |
| Middleware.PublicPathsIgnoreToken | middleware.ts:27-29 | Outside `/admin` the token plays no part. |
| Middleware.DevIgnoresHost | middleware.ts:10-13 | Outside production the host header plays no part. |
| Middleware.RedirectTargetsAreServed | middleware.ts:13-48 | Every redirect target other than the www one is served directly. |
| Middleware.NoRedirectLoop | middleware.ts:6-51 | With the host header matching the URL, every request is served after at most two redirects. |
| Posts.NormalContent | app/admin/dashboard/blog-management/page.tsx:41-44 | A string content is kept. A missing content becomes "". The result is a string unless it is the object's truthy `text`. |
| Posts.NormalContentPrefersText | app/admin/dashboard/blog-management/page.tsx:42-43 | An object's truthy `text` always wins. |
| Posts.NormalContentIdempotent | app/admin/dashboard/blog-management/page.tsx:41-44 | Normalising string content a second time changes nothing. |
| BlogPage.OrElse | components/BlogPage.tsx:62-63 | The "or" default is the value itself when it is truthy, and the fallback otherwise. |
| BlogPage.ContentAsWritten | components/BlogPage.tsx:58-61 | The content expression throws exactly on a null content. |
| BlogPage.TransformAsWritten | components/BlogPage.tsx:55-65 | The list loads iff no element is null or undefined and no `post_content` is null. It then keeps the list's length. |
| BlogPage.Transform | components/BlogPage.tsx:55-65 | With the content normalised, the list loads iff no element is null or undefined, and keeps its length. |
| BlogPage.TransformReply | components/BlogPage.tsx:53-55 | Only an array reply can be mapped; anything else fails. |
| BlogPage.TransformFields | components/BlogPage.tsx:55-65 | Position by position: id, title and date are kept. A truthy category and truthy tags are kept; a falsy category becomes "General" and falsy tags become "". The content is normalised. |
| BlogPage.AsWrittenAgreesOnPresentContent | components/BlogPage.tsx:58-61 | When every post has a content, the as-written and normalised transforms agree. |
| BlogPage.NullContentBreaksTheList | components/BlogPage.tsx:58-61 | A single post with null content makes the as-written list fail; the normalised one shows it with "". |
| BlogPage.SliceIndex | components/BlogPage.tsx:91 | A `slice` bound inside [0, n] is kept. One above n becomes n. A negative one counts back from n and stops at 0. |
| BlogPage.Slice | components/BlogPage.tsx:91 | `slice` yields the elements from the clamped start up to the clamped end, in order, and none when the end does not lie past the start. |
| BlogPage.CurrentPosts | components/BlogPage.tsx:89-91 | Page p holds at most 6 posts. They are exactly the posts [(p−1)·6, min(p·6, n)) in order, and there are none past the end. |
| BlogPage.TotalPages | components/BlogPage.tsx:92 | totalPages = ceil(n / 6). |
| BlogPage.PostOnItsPage | components/BlogPage.tsx:89-92 | Every post appears on page i / 6 + 1, which is within the page count, at position i % 6. |
| BlogPage.PagesInRangeAreFilled | components/BlogPage.tsx:89-92 | No page within 1..totalPages is empty. |
| BlogPage.PageNumbers | components/BlogPage.tsx:97-116 | Up to 6 pages, the list is exactly 1..totalPages. Beyond that it has 5 to 7 entries, starting with 1 and ending with totalPages. |
| BlogPage.PageWindow | components/BlogPage.tsx:101-115 | For a page in range, the numbers are strictly increasing, lie within 1..totalPages and include the current page. |
| BlogPage.EllipsisHidesPages | components/BlogPage.tsx:106-115 | Every inner ellipsis stands between two numbers with at least one page skipped. |
| BlogPage.PrevDisabled | components/BlogPage.tsx:225-226 | From a page in range, Prev is disabled exactly when there is no earlier page. |
| BlogPage.NextDisabled | components/BlogPage.tsx:258-259 | From a page in range, Next is disabled exactly when there is no later page. |
| BlogPage.AfterClick | components/BlogPage.tsx:225-259 | Prev steps back one page and stops at page 1. Next steps forward one page and stops at the last page. A page number goes to that page, and the ellipsis does nothing. |
| BlogPage.ClicksStayInRange | components/BlogPage.tsx:225-259 | With Prev disabled on page 1 and Next on the last page, any click on Prev, Next or a shown number keeps the page within 1..totalPages. |
| BlogPage.TagAt | components/BlogPage.tsx:161 | A tag at the start of the text is found exactly when the text starts with `<`, at least one non-`>` character and a `>`. The match ends at the first `>`. |
| BlogPage.StripTags | components/BlogPage.tsx:161 | Stripping never lengthens the text and keeps non-empty text non-empty. |
| BlogPage.TagAtOfTag | components/BlogPage.tsx:161 | A whole tag at the start of a text is matched exactly as far as it reaches, whatever follows. |
| BlogPage.StripTagsSplice | components/BlogPage.tsx:161 | Text without `<` before a whole tag is kept, the tag becomes exactly one space, and the rest is stripped in turn. |
| BlogPage.StripTagsIsTagFree | components/BlogPage.tsx:161 | No tag is left after replacement. |
| BlogPage.StripTagFree | components/BlogPage.tsx:161 | Text without tags is left unchanged. |
| BlogPage.StripTagsIdempotent | components/BlogPage.tsx:161 | Stripping tags twice changes nothing. |
| BlogPage.SplitWs | components/BlogPage.tsx:161 | `split(/\s+/)` yields at least one piece, and no piece contains white space. |
| BlogPage.SplitWsWords | components/BlogPage.tsx:161 | On trimmed non-empty text every piece is a non-empty word. |
| BlogPage.WordsFromAppend | components/BlogPage.tsx:161 | The word count of two joined texts is the sum of their counts, where the second part counts a word at its start only after white space. |
| BlogPage.SplitWsCountsWords | components/BlogPage.tsx:161 | On trimmed non-empty text, `split(/\s+/)` yields as many pieces as the text has maximal runs of non-space characters. |
| BlogPage.WordCount | components/BlogPage.tsx:161 | The word count is 1 when the text without tags is blank. Otherwise it is the number of maximal runs of non-space characters in that text. |
| BlogPage.Minutes | components/BlogPage.tsx:162 | For a positive word count, the minutes are at least 1 and are the least m with words ≤ 200·m. |
| BlogPage.ReadTime | components/BlogPage.tsx:161-162 | The read time is at least 1 and is the least m with words ≤ 200·m, i.e. ceil(words / 200). |
| BlogManagement.FetchItems | app/admin/dashboard/blog-management/page.tsx:38-48 | Items map iff none is null or undefined, keeping the length. |
| BlogManagement.Fetch | app/admin/dashboard/blog-management/page.tsx:31-51 | A falsy reply gives the empty list. A truthy non-array fails. An array is mapped item by item. |
| BlogManagement.FetchItemsFields | app/admin/dashboard/blog-management/page.tsx:38-48 | Position by position the id, title, category, tags and creation date are kept, and the content is normalised. |
| BlogManagement.SearchTitle | app/admin/dashboard/blog-management/page.tsx:91 | A missing title indexes as "", and any title that is neither missing nor a string throws. A string title indexes as its trimmed text, letter for letter in lower case, with no white space at either end. |
| Js.TrimLower | app/admin/dashboard/blog-management/page.tsx:91 | Lower-casing and trimming commute, so lower-casing before trimming gives the trimmed text in lower case. |
| BlogManagement.FilteredPosts | app/admin/dashboard/blog-management/page.tsx:87-104 | A blank query returns the list unchanged. Any result is an order-preserving subsequence whose titles contain the query. |
| BlogManagement.FilteredPostsExactly | app/admin/dashboard/blog-management/page.tsx:97-104 | For a non-blank query, a post is listed iff it is in the list and its indexed title contains the query. |
| BlogManagement.SearchIgnoresQueryCase | app/admin/dashboard/blog-management/page.tsx:98 | The query's letter case never changes the result. |
| BlogManagement.DeleteById | app/admin/dashboard/blog-management/page.tsx:125-128 | No entry with the id remains. The rest keep their order and multiplicity, and a missing cache counts as empty. |
| BlogManagement.DeleteAbsentId | app/admin/dashboard/blog-management/page.tsx:126 | Deleting an id that is not present changes nothing. |
| BlogManagement.DeleteIdempotent | app/admin/dashboard/blog-management/page.tsx:126 | Deleting twice equals deleting once. |
| BlogManagement.Upsert | app/admin/dashboard/blog-management/page.tsx:167-181 | An unseen id is prepended, growing the list by one. An existing id replaces the first match in place, leaving the length and every other entry unchanged. |
| BlogManagement.UpsertIdempotent | app/admin/dashboard/blog-management/page.tsx:167-181 | Applying the same update twice equals applying it once, for a primitive id. |
| BlogManagement.FormStep | app/admin/dashboard/blog-management/page.tsx:108-164 | The form is visible iff the last action was create or edit. It holds a blog iff that action was edit, and then the chosen one. |
| BlogManagement.FormHoldsBlogOnlyWhenVisible | app/admin/dashboard/blog-management/page.tsx:108-164 | Along any sequence of actions, the form holds a blog only while it is visible. |
| Lists.FindIndex | app/admin/dashboard/blog-management/page.tsx:170 | `findIndex` is none iff no element satisfies the test. Otherwise it is the first such index. |
| AdminDashboard.Row | components/AdminDashboard.tsx:35-40 | An item maps iff neither it nor its `title` is nullish. The row has exactly the four keys: `id` is the item's id, `post_title` is `title.rendered`, `post_status` is the item's `status` and `comment_status` its `comment_status`. |
| AdminDashboard.Rows | components/AdminDashboard.tsx:35-40 | The list maps iff every item does, keeping length and order. |
| AdminDashboard.Transform | components/AdminDashboard.tsx:32-40 | Only an array reply can be mapped. |
| AdminDashboard.Delete | components/AdminDashboard.tsx:53-57 | Without confirmation nothing changes. With it, no entry with the id remains and the others keep their order and multiplicity. |
| AdminDashboard.EditSave | components/AdminDashboard.tsx:69-74 | The length is unchanged. A matching entry becomes {...old, ...updated} and every other entry is unchanged. |
| AdminDashboard.EditSaveIdempotent | components/AdminDashboard.tsx:69-74 | Saving the same edit twice equals saving it once. |
| AdminDashboard.Recent | components/AdminDashboard.tsx:79 | The recent list is the first min(10, n) posts. |
| DashboardBlogs.DeleteAt | app/dashboard/blog-management/page.tsx:21-25 | An in-range index removes exactly that element, so the length drops by one. An out-of-range index changes nothing. |
| DashboardBlogs.DeleteAtKeepsOrder | app/dashboard/blog-management/page.tsx:23 | The remaining posts keep their relative order. |
| DashboardBlogs.FormStep | app/dashboard/blog-management/page.tsx:11-29 | Create opens the form empty. Edit opens it on the chosen post. Close hides it and keeps the edit data. |
| DashboardBlogs.CreateAfterEditStartsEmpty | app/dashboard/blog-management/page.tsx:11-29 | Create after an edit that was closed still starts empty. |
| Header.FilteredBlogs | components/Header.tsx:44-46 | The filter throws iff some post is null, or has a title that is present but not a string. Otherwise it returns an order-preserving subsequence of titled posts whose titles contain the query, ignoring case. |
| Header.FilteredBlogsExactly | components/Header.tsx:44-46 | A post is listed iff it is in the list and its title contains the query, ignoring case. |
| Header.EmptyQueryKeepsTitled | components/Header.tsx:44-46 | The empty query lists exactly the titled posts. |
| Header.Pieces | components/Header.tsx:51-54 | Every match found equals the query, ignoring case. |
| Header.PiecesSpellText | components/Header.tsx:51-54 | The pieces of the scan spell the original title. |
| Header.RenderLength | components/Header.tsx:51-54 | Markup only adds characters: some when there is a match, none otherwise. |
| Header.PiecesMarkIffMatch | components/Header.tsx:51-54 | The scan marks something iff the query occurs in the title, ignoring case. |
| Header.PlainIsNoMatch | components/Header.tsx:51-55 | The global scan skips no occurrence: a character it leaves plain never starts a case-insensitive match. |
| Header.MatchAfter | components/Header.tsx:51-55 | A match n characters into the text is a match at the start of what follows. |
| Header.HighlightSearchTerm | components/Header.tsx:49-55 | The empty query returns the text unchanged, and highlighting never shortens the text. |
| Header.HighlightIffMatch | components/Header.tsx:49-55 | For a non-empty query the title is shown verbatim iff the query does not occur in it, ignoring case. |
| Seed.ParentRun | prisma/seed.ts:35 | The leading `../` run is maximal: what follows it does not start with `../`. |
| Seed.CollapseParents | prisma/seed.ts:35 | A leading run of `../` groups becomes a single "/", and nothing else changes. |
| Seed.ImageUrlOfText | prisma/seed.ts:31-38 | Empty text gives null. An http(s) URL is returned unchanged. A path without leading `../` becomes BASE_URL followed by the path, with a "/" put in front when it lacks one. A path with leading `../` groups becomes BASE_URL + "/" + what follows the groups. |
| Seed.ImageUrlShape | prisma/seed.ts:33-38 | Every URL built is an absolute http(s) URL without surrounding white space. |
| Seed.NormalizeImageUrl | prisma/seed.ts:29-39 | Null for falsy input. Otherwise the result is the URL built from the trimmed text of the value, so null for input that is blank as a string. Any result is a trimmed absolute http(s) URL. |
| Seed.ParentsCollapseToRoot | prisma/seed.ts:35-38 | Any number of `../` groups before a path put it directly under BASE_URL + "/". |
| Seed.AbsoluteUrlIsFixed | prisma/seed.ts:29-33 | A trimmed http(s) URL, given as a string, normalises to itself. |
| Seed.NormalizeImageUrlIdempotent | prisma/seed.ts:29-39 | Normalising a normalised URL gives it back. |
| Seed.IsoText | prisma/seed.ts:24 | Length is kept. Text with a "T" or without a space is unchanged. Otherwise only the first space changes, into "T". The result has a "T" or no space. A trimmed input stays trimmed. |
| Seed.IsoTextIdempotent | prisma/seed.ts:24 | The rewrite never asks for a second rewrite. |
| Seed.IsoIsh | prisma/seed.ts:21-24 | Null exactly for falsy input. Otherwise the result is the trimmed text of the value with the date rewrite applied, so it has a "T" or no space. |
| Seed.IsoIshIdempotent | prisma/seed.ts:21-24 | Feeding a rewritten date back in gives it back unchanged. |
| Seed.JsonOrNull | prisma/seed.ts:15-18 | `Prisma.DbNull` iff the value is null or undefined; otherwise the value itself. |
| Seed.Category | prisma/seed.ts:78-83 | A falsy category gives null and a truthy string is kept. Any other value gives its first non-nullish of `name`, `label` and `value`, or null when all three are missing. |
| Seed.TruthyString | prisma/seed.ts:90 | Null iff the value is falsy. A truthy string is kept. |
| Seed.RowOf | prisma/seed.ts:85-106 | The title is `String` of the title, or "" when it is missing. The slug is `String` of `post_name`, or the title when `post_name` is missing. String content is stored as is, and other content through the JSON-column rule. The guid, tags and status are the truthy-or-null strings of their fields, the category follows the category rule, and the date is the rewritten date text. |
| Seed.Keys | prisma/seed.ts:123-126 | Lookup keys are the guid and the slug, each present iff non-empty. |
| Seed.RecordKeys | prisma/seed.ts:105-126 | A record's string guid is a lookup key exactly when non-empty, and a falsy guid never gives one. A string slug, or a string title when the slug is missing, is a key exactly when non-empty. |
| Seed.Existing | prisma/seed.ts:128-130 | With no keys there is no lookup. Otherwise the result is the first row in order that matches a key: it matches, and no earlier row does. None exactly when no row matches. |
| Seed.Records | prisma/seed.ts:47 | An array file is read as its elements, and any other file as a one-record list holding it. |
| Seed.Upsert | prisma/seed.ts:132-143 | A record updates iff a row matches its keys. That first matching row is replaced in place, and every other row and the length are unchanged. Otherwise the row is appended. |
| Seed.Advance | prisma/seed.ts:128-143 | One pass of the loop body: the table is upserted with the row, `updated` grows by one when a row matched its keys and `created` otherwise, and the table grows exactly by the change in `created`. |
| Seed.Replay | prisma/seed.ts:69-147 | A fold of the loop body over records that are neither null nor undefined counts every record once, and the table grows by the number created. |
| Seed.ReplayPrefixStep | prisma/seed.ts:69-147 | Processing one more record extends the fold by one pass of the loop body. |
| Seed.SeedPosts | prisma/seed.ts:69-147 | The loop succeeds iff no record is null or undefined; otherwise it stops at the first such record. The table and the two counters are those of the fold over the records processed, so on success created + updated is the number of records and the table grows by exactly `created`. |
| Seed.NoKeysAlwaysCreates | prisma/seed.ts:123-143 | A record with neither guid nor slug is always created anew. |

## Findings

| source | as written | input that shows it | evidently intended | confidence | as-written member | corrected member |
|---|---|---|---|---|---|---|
| components/BlogPage.tsx:58-61 | `typeof item.post_content === "object" && item.post_content.text`. Since `typeof null` is "object", a post whose content is null throws, and the whole list shows "Failed to load articles". | An assumed `/api/blogpost` reply of `[{ id: 1, post_title: "Moving tips", post_content: null }]`. The GET that serves the page is not part of this model: app/api/blogpost/route.tsx exports only POST, DELETE and PUT. The seeding script stores a missing content as `Prisma.DbNull` (prisma/seed.ts:16, 86), so rows with null content can exist. | Read a null content as "", as the admin fetcher does with `?.` and `?? ""` (app/admin/dashboard/blog-management/page.tsx:42-44). | not executed | BlogPage.TransformAsWritten, shown by BlogPage.NullContentBreaksTheList | BlogPage.Transform |

The normalised transform also differs from the as-written one on an *undefined*
content. The as-written code shows the text "undefined" there; the normalised
one shows "". `BlogPage.AsWrittenAgreesOnPresentContent` states that the two
agree whenever every post has a content.

## Left out

- Js.ToLower: letter case is mapped for ASCII letters only. JavaScript's
  `toLowerCase`, `toUpperCase` and the `i` regex flag also map non-ASCII letters.
- Js.Json: a number is an exact rational. `JSON.parse` rounds a numeric literal
  to the nearest double and turns one too large, such as `1e400`, into
  `Infinity`. Neither the rounding nor the infinities are modelled.
- Js.JsString: `String(n)` for a number is the parameter `num`, because
  Number-to-text conversion is not modelled. Strings are sequences of
  characters rather than UTF-16 code units.
- AnalyticsPage.FmtSec: the duration is a real number, so `NaN` and infinities
  are not modelled; `!sec` also sends `NaN` to "0s". Numbers are written as
  plain decimals. JavaScript switches to exponent notation from 1e21, which
  is not modelled.
- AnalyticsPage.ResolveRange: `Date` arithmetic is on integer milliseconds.
  - Local midnight (`startOfDayLocal`, `new Date(y, m - 1, d)`) is the
    parameter `todayStart` or `localMidnight`.
  - `toISOString` and the query-string encoding are not modelled.
- The `pct` rounding, `Intl.NumberFormat`, charts, and the summary endpoint
  `/api/admin/analytics/summary` (it is not part of this model).
- React effects, timers, the debounce hook, `AbortController`, SWR revalidation
  and the races between optimistic updates and refetches: only the updater and
  decision functions are modelled.
- Collect.Ingest:
  - Database writes are the parameter `dbAccepts`.
  - A numeric `ts` beyond the representable range gives an invalid `Date`. The
    model takes it that the database client refuses to insert one. It answers
    400 and writes nothing.
  - Concurrent first lookups of one IP are not modelled; each request runs alone.
- Collect.GeoLookup: the cache read and the cache insert
  (app/api/analytics/collect/route.ts:26, 55) are taken to succeed. If either
  throws, the handler's `catch` answers 400 as for a failed service call. The
  model's `Failed` outcome stands only for the service call and its reply.
- Collect.ClientIp: header names are assumed lower-case keys of the header map.
  Repeated headers are assumed already joined.
- LeadForm.BuildPayload:
  - The payload's constant partner key and empty car fields are not modelled.
  - The requests to `/api/save-form`, the partner endpoint and
    `/api/save-response` are not modelled, nor the ipify lookup and `resetForm`.
- LeadForm.MoveDate: the date is given as its ISO string, so `toISOString` is
  not modelled.
- Middleware.Decide:
  - The route matcher (middleware.ts:56) is not modelled.
  - The session token is an input; `getToken` and `lib/auth.ts` are not modelled.
  - URLs are records of protocol, host, path and query, not parsed text.
- Header.HighlightSearchTerm: modelled only for queries without regular-expression
  metacharacters (`\ ^ $ . | ? * + ( ) [ ] { }`). Such a query builds a different
  pattern, or throws.
- Header: the `/api/blogfetch` request and its HTML clean-up (cheerio,
  sanitize-html) are not modelled.
- The edit modal of components/AdminDashboard.tsx:59-77 opens on edit and closes on
  close or save. It behaves as `BlogManagement.FormStep` without the create
  action, and has no member of its own.
- BlogPage: image extraction, `toLocaleDateString`, and the loading and error
  screens are not modelled.
- Seed.Existing:
  - `findFirst` has no `orderBy`, so which matching row it returns depends on the
    database. The model takes the first in insertion order.
  - An update replaces the whole modelled row.
- Seed.IsoIsh: the `new Date(isoish)` parse and its NaN check are not modelled;
  the model stops at the string handed to it.
- Seed.RowOf:
  - The `Number(...)` fields (`post_author`, `post_parent`, `menu_order`,
    `comment_count`) are not modelled.
  - Of the truthy-or-null string fields only guid, tags and post_status are
    kept. The others (`name`, `post_excerpt`, `comment_status`, and so on) follow
    `Seed.TruthyString` in the same way and take no part in the lookup.
  - Of the dates only `post_date` is kept; the other three go through the same
    `Seed.IsoIsh`.
- The admin user seeding (bcrypt hashing and the user upsert), file reading and
  `JSON.parse` of `BlogPost.json`, and logging are not modelled.
- Seed.NormalizeImageUrl is modelled on its own: the seeding loop never calls it.
