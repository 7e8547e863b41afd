/**
 The slice of JavaScript semantics that the site's decision and transformation
 functions rely on: untyped JSON values with truthiness, nullish coalescing and
 property access, `String(v)`, whitespace trimming, splitting and joining on a
 single character, ASCII case mapping and decimal rendering of naturals.
 */
module Js {

  datatype Option<+T> = None | Some(value: T) {
    function GetOr(default: T): T {
      match this
      case Some(v) => v
      case None => default
    }
  }

  /** The outcome of evaluating an expression that may throw a TypeError. */
  datatype Eval<+T> = Ok(value: T) | Throws

  /** A value produced by `JSON.parse`, plus `undefined` for a missing property.
      A number is kept as an exact rational: the rounding to a double, and the
      overflow of a literal such as `1e400` to `Infinity`, are not modelled. */
  datatype Json =
    | JUndefined
    | JNull
    | JBool(b: bool)
    | JNum(n: real)
    | JStr(s: string)
    | JArr(items: seq<Json>)
    | JObj(fields: map<string, Json>)
  {
    /** JavaScript truthiness; only zero is a falsy number, since `NaN` cannot come
        out of `JSON.parse`. */
    predicate Truthy() {
      match this
      case JUndefined => false
      case JNull => false
      case JBool(b) => b
      case JNum(n) => n != 0.0
      case JStr(s) => s != ""
      case JArr(_) => true
      case JObj(_) => true
    }

    /** `null` or `undefined`: the values `??` and `?.` react to. */
    predicate Nullish() {
      JUndefined? || JNull?
    }

    /** `typeof v === "object"`, which also holds of `null`. */
    predicate TypeofObject() {
      JNull? || JArr? || JObj?
    }

    predicate Primitive() {
      !JArr? && !JObj?
    }
  }

  /** Nullish coalescing: `b` when `a` is null or undefined, else `a`. */
  function Coalesce(a: Json, b: Json): (r: Json)
    ensures !a.Nullish() ==> r == a
    ensures a.Nullish() ==> r == b
  {
    if a.Nullish() then b else a
  }

  /** `v?.key`: undefined on a nullish receiver, and on any receiver that is not an
      object or that lacks the key (no property name used by the site is found on a
      primitive's or an array's prototype). */
  function OptGet(v: Json, key: string): (r: Json)
    ensures v.JObj? && key in v.fields ==> r == v.fields[key]
    ensures !(v.JObj? && key in v.fields) ==> r == JUndefined
  {
    if v.JObj? && key in v.fields then v.fields[key] else JUndefined
  }

  /** `v.key`: like `v?.key`, except that a nullish receiver throws a TypeError. */
  function Get(v: Json, key: string): (r: Eval<Json>)
    ensures r.Throws? <==> v.Nullish()
    ensures r.Ok? ==> r.value == OptGet(v, key)
  {
    if v.Nullish() then Throws else Ok(OptGet(v, key))
  }

  /** `a === b` for the primitive values the site compares; two objects or arrays
      built by `JSON.parse` are distinct references and never strictly equal. */
  predicate StrictEq(a: Json, b: Json) {
    a.Primitive() && a == b
  }

  /** `String(v)`; `num` renders a number as `Number.prototype.toString` does. */
  function JsString(v: Json, num: real -> string): string
    decreases v
  {
    match v
    case JUndefined => "undefined"
    case JNull => "null"
    case JBool(b) => if b then "true" else "false"
    case JNum(n) => num(n)
    case JStr(s) => s
    case JObj(_) => "[object Object]"
    case JArr(items) =>
      // Array.prototype.join renders null and undefined elements as ""
      Join(seq(|items|, i requires 0 <= i < |items| =>
                 if items[i].Nullish() then "" else JsString(items[i], num)), ',')
  }

  lemma JsStringOfString(s: string, num: real -> string)
    ensures JsString(JStr(s), num) == s
  {
  }

  function Min(a: int, b: int): int {
    if a <= b then a else b
  }

  function Max(a: int, b: int): int {
    if a >= b then a else b
  }

  // ---------------------------------------------------------------------------
  // Characters

  /** The WhiteSpace and LineTerminator code points of ECMA-262: the set that
      `String.prototype.trim` removes and that `\s` matches. */
  predicate IsSpace(c: char) {
    || c == '\t' || c == '\n' || c == '\U{000B}' || c == '\U{000C}' || c == '\r'
    || c == ' ' || c == '\U{00A0}' || c == '\U{1680}'
    || ('\U{2000}' <= c <= '\U{200A}')
    || c == '\U{2028}' || c == '\U{2029}' || c == '\U{202F}' || c == '\U{205F}'
    || c == '\U{3000}' || c == '\U{FEFF}'
  }

  predicate IsDigit(c: char) {
    '0' <= c <= '9'
  }

  predicate IsLower(c: char) {
    'a' <= c <= 'z'
  }

  predicate IsUpper(c: char) {
    'A' <= c <= 'Z'
  }

  function UpperChar(c: char): (r: char)
    ensures IsLower(c) ==> IsUpper(r) && r as int == c as int - 32
    ensures !IsLower(c) ==> r == c
  {
    if IsLower(c) then (c as int - 32) as char else c
  }

  function LowerChar(c: char): (r: char)
    ensures IsUpper(c) ==> IsLower(r) && r as int == c as int + 32
    ensures !IsUpper(c) ==> r == c
  {
    if IsUpper(c) then (c as int + 32) as char else c
  }

  function ToUpper(s: string): (r: string)
    ensures |r| == |s|
    ensures forall i :: 0 <= i < |s| ==> r[i] == UpperChar(s[i])
  {
    seq(|s|, i requires 0 <= i < |s| => UpperChar(s[i]))
  }

  function ToLower(s: string): (r: string)
    ensures |r| == |s|
    ensures forall i :: 0 <= i < |s| ==> r[i] == LowerChar(s[i])
  {
    seq(|s|, i requires 0 <= i < |s| => LowerChar(s[i]))
  }

  /** Lowering the case never turns white space into anything else, or back. */
  lemma LowerKeepsTrimmed(s: string)
    requires Trimmed(s)
    ensures Trimmed(ToLower(s))
  {
    var r := ToLower(s);
    if r != [] {
      assert r[0] == LowerChar(s[0]) && r[|r| - 1] == LowerChar(s[|s| - 1]);
    }
  }

  // ---------------------------------------------------------------------------
  // Searching

  /** Concatenation regroups freely. */
  lemma AppendAssoc(a: string, b: string, c: string)
    ensures a + (b + c) == a + b + c
  {
  }

  predicate StartsWith(s: string, prefix: string) {
    |prefix| <= |s| && s[..|prefix|] == prefix
  }

  predicate OccursAt(s: string, t: string, i: int) {
    0 <= i <= |s| - |t| && s[i..i + |t|] == t
  }

  /** `s.includes(t)` */
  predicate Contains(s: string, t: string) {
    exists i :: 0 <= i <= |s| - |t| && OccursAt(s, t, i)
  }

  /** The index of the first occurrence of `c`, as `indexOf` returns it (None for -1). */
  function IndexOf(s: string, c: char): (r: Option<nat>)
    ensures r.None? <==> c !in s
    ensures r.Some? ==> r.value < |s| && s[r.value] == c && c !in s[..r.value]
  {
    if |s| == 0 then None
    else if s[0] == c then Some(0)
    else match IndexOf(s[1..], c)
      case None => None
      case Some(i) => assert s[1..][..i] == s[1..i + 1]; Some(i + 1)
  }

  // ---------------------------------------------------------------------------
  // Slices

  lemma SliceOfSuffix<T>(s: seq<T>, a: nat, b: nat)
    requires a + b <= |s|
    ensures s[a..][..b] == s[a..a + b]
  {
  }

  lemma SplitAt<T>(s: seq<T>, i: nat)
    requires i < |s|
    ensures s[..i] + [s[i]] + s[i + 1..] == s
  {
  }

  // ---------------------------------------------------------------------------
  // Trimming

  /** Whether a string has no white space at either end, as `trim()` leaves it. */
  predicate Trimmed(s: string) {
    s == [] || (!IsSpace(s[0]) && !IsSpace(s[|s| - 1]))
  }

  function TrimStart(s: string): (r: string)
    ensures |r| <= |s| && r == s[|s| - |r|..]
    ensures r == [] || !IsSpace(r[0])
    ensures forall k :: 0 <= k < |s| - |r| ==> IsSpace(s[k])
  {
    if |s| > 0 && IsSpace(s[0]) then TrimStart(s[1..]) else s
  }

  function TrimEnd(s: string): (r: string)
    ensures |r| <= |s| && r == s[..|r|]
    ensures r == [] || !IsSpace(r[|r| - 1])
    ensures forall k :: |r| <= k < |s| ==> IsSpace(s[k])
  {
    if |s| > 0 && IsSpace(s[|s| - 1]) then TrimEnd(s[..|s| - 1]) else s
  }

  /** `String.prototype.trim`: drops white space, and only white space, from both
      ends of the string. */
  function Trim(s: string): (r: string)
    ensures |r| <= |s|
    ensures Trimmed(r)
  {
    TrimEnd(TrimStart(s))
  }

  /** White space at the end of a suffix is white space at the end of the whole. */
  lemma SpaceTailOfSuffix(s: string, lead: nat, n: nat)
    requires lead <= |s|
    requires forall k :: n <= k < |s| - lead ==> IsSpace(s[lead..][k])
    ensures forall k :: lead + n <= k < |s| ==> IsSpace(s[k])
  {
    forall k | lead + n <= k < |s| ensures IsSpace(s[k]) {
      assert s[k] == s[lead..][k - lead];
    }
  }

  /** Everything `TrimEnd` drops after `TrimStart` is white space of the input. */
  lemma TrimTailIsSpace(s: string)
    ensures var t := TrimStart(s);
            forall k :: |s| - |t| + |TrimEnd(t)| <= k < |s| ==> IsSpace(s[k])
  {
    var t := TrimStart(s);
    SpaceTailOfSuffix(s, |s| - |t|, |TrimEnd(t)|);
  }

  /** What trimming keeps is a contiguous piece of the input, and everything it
      drops is white space. */
  lemma TrimIsInfix(s: string)
    ensures var lead := |s| - |TrimStart(s)|;
            lead + |Trim(s)| <= |s| && Trim(s) == s[lead..lead + |Trim(s)|]
            && (forall k :: 0 <= k < lead ==> IsSpace(s[k]))
            && (forall k :: lead + |Trim(s)| <= k < |s| ==> IsSpace(s[k]))
  {
    var t := TrimStart(s);
    var lead := |s| - |t|;
    SliceOfSuffix(s, lead, |TrimEnd(t)|);
    TrimTailIsSpace(s);
  }

  /** A string trims to nothing exactly when it is all white space. */
  lemma TrimEmptyIffBlank(s: string)
    ensures Trim(s) == [] <==> forall k :: 0 <= k < |s| ==> IsSpace(s[k])
  {
    TrimIsInfix(s);
  }

  /** A string with no white space at either end is its own trim. */
  lemma TrimOfTrimmed(s: string)
    requires Trimmed(s)
    ensures Trim(s) == s
  {
  }

  /** Lowering the case neither creates nor removes white space, so it does not
      matter whether a string is trimmed before or after. */
  lemma LowerSpace(c: char)
    ensures IsSpace(LowerChar(c)) <==> IsSpace(c)
  {
  }

  lemma {:induction false} TrimStartLower(s: string)
    ensures TrimStart(ToLower(s)) == ToLower(TrimStart(s))
    decreases |s|
  {
    var l := ToLower(s);
    if |s| > 0 {
      assert l[0] == LowerChar(s[0]);
      LowerSpace(s[0]);
      if IsSpace(s[0]) {
        assert l[1..] == ToLower(s[1..]);
        TrimStartLower(s[1..]);
      }
    }
  }

  lemma {:induction false} TrimEndLower(s: string)
    ensures TrimEnd(ToLower(s)) == ToLower(TrimEnd(s))
    decreases |s|
  {
    var l := ToLower(s);
    if |s| > 0 {
      assert l[|s| - 1] == LowerChar(s[|s| - 1]);
      LowerSpace(s[|s| - 1]);
      if IsSpace(s[|s| - 1]) {
        assert l[..|s| - 1] == ToLower(s[..|s| - 1]);
        TrimEndLower(s[..|s| - 1]);
      }
    }
  }

  lemma TrimLower(s: string)
    ensures Trim(ToLower(s)) == ToLower(Trim(s))
  {
    TrimStartLower(s);
    TrimEndLower(TrimStart(s));
  }

  /** Lower-casing then trimming keeps the trimmed text, letter for letter in
      lower case. */
  lemma TrimLowerChars(s: string)
    ensures var r := Trim(ToLower(s));
            Trimmed(r) && |r| == |Trim(s)|
            && forall k :: 0 <= k < |r| ==> r[k] == LowerChar(Trim(s)[k]) && !IsUpper(r[k])
  {
    TrimLower(s);
    LowerHasNoUpper(Trim(s));
  }

  /** A lower-cased string has no upper-case letter left. */
  lemma LowerHasNoUpper(t: string)
    ensures forall k :: 0 <= k < |t| ==> !IsUpper(ToLower(t)[k])
  {
    forall k | 0 <= k < |t| ensures !IsUpper(ToLower(t)[k]) {
      assert ToLower(t)[k] == LowerChar(t[k]);
    }
  }

  lemma TrimIdempotent(s: string)
    ensures Trim(Trim(s)) == Trim(s)
  {
    TrimOfTrimmed(Trim(s));
  }

  // ---------------------------------------------------------------------------
  // Splitting and joining

  /** `s.split(c)` for a one-character separator. */
  function Split(s: string, c: char): (r: seq<string>)
    ensures |r| >= 1
    ensures forall k :: 0 <= k < |r| ==> c !in r[k]
    decreases |s|
  {
    match IndexOf(s, c)
    case None => [s]
    case Some(i) => [s[..i]] + Split(s[i + 1..], c)
  }

  /** The pieces concatenated with `c` between neighbours. */
  function Join(parts: seq<string>, c: char): string {
    if |parts| == 0 then ""
    else if |parts| == 1 then parts[0]
    else parts[0] + [c] + Join(parts[1..], c)
  }

  /** The first piece of a split is everything before the first separator. */
  lemma SplitHead(s: string, c: char)
    ensures IndexOf(s, c).None? ==> Split(s, c)[0] == s
    ensures IndexOf(s, c).Some? ==> Split(s, c)[0] == s[..IndexOf(s, c).value]
  {
  }

  lemma {:induction false} JoinSplit(s: string, c: char)
    ensures Join(Split(s, c), c) == s
    decreases |s|
  {
    var r := IndexOf(s, c);
    if r.Some? {
      var i := r.value;
      var rest := Split(s[i + 1..], c);
      assert Split(s, c) == [s[..i]] + rest;
      JoinSplit(s[i + 1..], c);
      assert Join(Split(s, c), c) == s[..i] + [c] + Join(rest, c);
      assert s == s[..i] + [c] + s[i + 1..];
    }
  }

  lemma {:induction false} SplitJoin(parts: seq<string>, c: char)
    requires |parts| >= 1
    requires forall k :: 0 <= k < |parts| ==> c !in parts[k]
    ensures Split(Join(parts, c), c) == parts
  {
    if |parts| == 1 {
      assert IndexOf(parts[0], c).None?;
    } else {
      assert Join(parts, c) == parts[0] + [c] + Join(parts[1..], c);
      SplitAtFirst(parts[0], Join(parts[1..], c), c);
      SplitJoin(parts[1..], c);
      assert parts == [parts[0]] + parts[1..];
    }
  }

  /** Splitting at a separator the first piece does not contain peels that piece off. */
  lemma SplitAtFirst(a: string, b: string, c: char)
    requires c !in a
    ensures Split(a + [c] + b, c) == [a] + Split(b, c)
  {
    var s := a + [c] + b;
    IndexOfAfterFree(a, [c] + b, c);
    assert s == a + ([c] + b);
    assert s[..|a|] == a;
    assert s[|a| + 1..] == b;
  }

  lemma IndexOfAfterFree(a: string, b: string, c: char)
    requires c !in a && |b| > 0 && b[0] == c
    ensures IndexOf(a + b, c) == Some(|a|)
  {
    var s := a + b;
    assert s[|a|] == c;
    assert s[..|a|] == a;
  }

  /** After `split(c)`, joining every piece but the first gives back everything after
      the first separator. */
  lemma {:induction false} JoinTail(s: string, c: char)
    requires IndexOf(s, c).Some?
    ensures Join(Split(s, c)[1..], c) == s[IndexOf(s, c).value + 1..]
  {
    var i := IndexOf(s, c).value;
    JoinSplit(s[i + 1..], c);
  }

  // ---------------------------------------------------------------------------
  // Decimal numbers

  function DigitValue(c: char): nat
    requires IsDigit(c)
  {
    c as int - '0' as int
  }

  function DigitChar(d: nat): (c: char)
    requires d < 10
    ensures IsDigit(c) && DigitValue(c) == d
  {
    ('0' as int + d) as char
  }

  predicate AllDigits(s: string) {
    forall k :: 0 <= k < |s| ==> IsDigit(s[k])
  }

  lemma AllDigitsCons(s: string)
    requires |s| > 0
    ensures AllDigits(s) <==> IsDigit(s[0]) && AllDigits(s[1..])
  {
    if IsDigit(s[0]) && AllDigits(s[1..]) {
      forall k | 1 <= k < |s| ensures IsDigit(s[k]) {
        assert s[k] == s[1..][k - 1];
      }
    }
  }

  /** The value of a string of decimal digits (0 for the empty string). */
  function DigitsValue(s: string): nat
    requires AllDigits(s)
  {
    if |s| == 0 then 0 else 10 * DigitsValue(s[..|s| - 1]) + DigitValue(s[|s| - 1])
  }

  /** Decimal rendering of a natural, as a template literal prints an integer. */
  function NatToString(n: nat): (r: string)
    ensures |r| >= 1 && AllDigits(r)
    ensures |r| > 1 ==> r[0] != '0'
  {
    if n < 10 then [DigitChar(n)] else NatToString(n / 10) + [DigitChar(n % 10)]
  }

  lemma {:induction false} NatToStringRoundTrip(n: nat)
    ensures DigitsValue(NatToString(n)) == n
  {
    if n >= 10 {
      var s := NatToString(n);
      assert s[..|s| - 1] == NatToString(n / 10);
      NatToStringRoundTrip(n / 10);
    }
  }

  lemma NatToStringInjective(a: nat, b: nat)
    requires NatToString(a) == NatToString(b)
    ensures a == b
  {
    NatToStringRoundTrip(a);
    NatToStringRoundTrip(b);
  }
}
