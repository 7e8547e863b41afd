/**
 The moving-cost lead form: the US ZIP / ZIP+4 check, the loose e-mail check, the
 per-field error map that gates submission, the Local / International lead type,
 and the payload normalisation (first and last name, phone digits, lower-cased
 e-mail, capitalised words, two-letter state codes, lead source). Network calls,
 the client IP lookup and the date picker are inputs.
 */
module LeadForm {
  import opened Js
  import Lists

  // ---------------------------------------------------------------------------
  // ZIP codes

  /** The shape `usZipRegex` describes: five ASCII digits, optionally followed by a
      dash and four more. */
  predicate IsZip(s: string) {
    || (|s| == 5 && AllDigits(s))
    || (|s| == 10 && AllDigits(s[..5]) && s[5] == '-' && AllDigits(s[6..]))
  }

  /** One step of the automaton for `^\d{5}(-\d{4})?$`: states 0..5 count the
      leading digits, 6 is "after the dash", 6..10 count the trailing digits. */
  function ZipStep(state: nat, c: char): Option<nat> {
    if state < 5 && IsDigit(c) then Some(state + 1)
    else if state == 5 && c == '-' then Some(6)
    else if 6 <= state < 10 && IsDigit(c) then Some(state + 1)
    else None
  }

  function ZipRun(s: string, state: nat): Option<nat> {
    if |s| == 0 then Some(state)
    else match ZipStep(state, s[0])
      case None => None
      case Some(next) => ZipRun(s[1..], next)
  }

  /** `usZipRegex.test(s)`: the anchored pattern accepts after exactly five or
      exactly ten characters. */
  predicate ZipMatches(s: string) {
    ZipRun(s, 0) == Some(5) || ZipRun(s, 0) == Some(10)
  }

  lemma {:induction false} ZipTail(s: string, state: nat)
    requires 6 <= state <= 10
    ensures ZipRun(s, state) == Some(10) <==> |s| == 10 - state && AllDigits(s)
    ensures ZipRun(s, state) != Some(5)
    decreases |s|
  {
    if |s| > 0 {
      if state < 10 && IsDigit(s[0]) {
        ZipTail(s[1..], state + 1);
        AllDigitsCons(s);
      } else {
        assert !AllDigits(s) || |s| != 10 - state;
      }
    }
  }

  /** From a state among the leading digits, the run stops at 5 exactly on the
      digits that complete the five. */
  lemma {:induction false} ZipHeadShort(s: string, state: nat)
    requires state <= 5
    ensures ZipRun(s, state) == Some(5) <==> |s| == 5 - state && AllDigits(s)
    decreases |s|
  {
    if |s| > 0 {
      if state < 5 && IsDigit(s[0]) {
        ZipHeadShort(s[1..], state + 1);
        AllDigitsCons(s);
      } else if state == 5 && s[0] == '-' {
        ZipTail(s[1..], 6);
      }
    }
  }

  /** From a state among the leading digits, the run reaches 10 exactly on the
      rest of a ZIP+4. */
  lemma {:induction false} ZipHeadLong(s: string, state: nat)
    requires state <= 5
    ensures ZipRun(s, state) == Some(10) <==>
            |s| == 10 - state && AllDigits(s[..5 - state]) && s[5 - state] == '-' && AllDigits(s[6 - state..])
    decreases |s|
  {
    if |s| > 0 {
      if state < 5 && IsDigit(s[0]) {
        ZipHeadLong(s[1..], state + 1);
        if |s| >= 5 - state {
          AllDigitsCons(s[..5 - state]);
          assert s[..5 - state][1..] == s[1..][..5 - (state + 1)];
        }
        if |s| > 6 - state {
          assert s[1..][6 - (state + 1)..] == s[6 - state..];
        }
      } else if state == 5 && s[0] == '-' {
        ZipTail(s[1..], 6);
        assert s[1..] == s[6 - state..];
      }
    }
  }

  /** The automaton accepts exactly the ZIP and ZIP+4 shapes. */
  lemma ZipMatchesIffIsZip(s: string)
    ensures ZipMatches(s) <==> IsZip(s)
  {
    ZipHeadShort(s, 0);
    ZipHeadLong(s, 0);
    assert s[..0] == [] && s[0..] == s;
  }

  // ---------------------------------------------------------------------------
  // E-mail

  predicate NonSpaceRun(s: string, i: int, j: int) {
    0 <= i < j <= |s| && forall k :: i <= k < j ==> !IsSpace(s[k])
  }

  /** The unanchored pattern `\S+@\S+\.\S+` matches `s[a..e]` with the `@` at `at`
      and the `.` at `dot`. */
  predicate EmailMatchAt(s: string, a: int, at: int, dot: int, e: int) {
    && NonSpaceRun(s, a, at)
    && at < |s| && s[at] == '@'
    && NonSpaceRun(s, at + 1, dot)
    && dot < |s| && s[dot] == '.'
    && NonSpaceRun(s, dot + 1, e)
  }

  /** `/\S+@\S+\.\S+/.test(s)`: some substring matches. */
  predicate EmailRegexMatches(s: string) {
    exists a, at, dot, e | 0 <= a < at < dot < e <= |s| :: EmailMatchAt(s, a, at, dot, e)
  }

  /** The same condition without the outer runs: a non-space character, an `@`, a
      non-empty run of non-space characters, a `.` and one more non-space character. */
  predicate EmailShapeAt(s: string, at: int, dot: int) {
    && 1 <= at && at + 1 < dot && dot + 1 < |s|
    && !IsSpace(s[at - 1]) && s[at] == '@' && s[dot] == '.' && !IsSpace(s[dot + 1])
    && forall k :: at + 1 <= k < dot ==> !IsSpace(s[k])
  }

  predicate EmailShape(s: string) {
    exists at, dot | 0 <= at < dot < |s| :: EmailShapeAt(s, at, dot)
  }

  /** The regex and the shape agree on every string. */
  lemma EmailRegexIffShape(s: string)
    ensures EmailRegexMatches(s) <==> EmailShape(s)
  {
    if EmailRegexMatches(s) {
      var a, at, dot, e :| 0 <= a < at < dot < e <= |s| && EmailMatchAt(s, a, at, dot, e);
      assert !IsSpace(s[at - 1]);
      assert !IsSpace(s[dot + 1]);
      assert EmailShapeAt(s, at, dot);
    }
    if EmailShape(s) {
      var at, dot :| 0 <= at < dot < |s| && EmailShapeAt(s, at, dot);
      assert NonSpaceRun(s, at - 1, at) by {
        forall k | at - 1 <= k < at ensures !IsSpace(s[k]) { assert k == at - 1; }
      }
      assert NonSpaceRun(s, dot + 1, dot + 2) by {
        forall k | dot + 1 <= k < dot + 2 ensures !IsSpace(s[k]) { assert k == dot + 1; }
      }
      assert EmailMatchAt(s, at - 1, at, dot, dot + 2);
    }
  }

  /** A string with white space only cannot hide an address, and neither can one
      with no `@`. */
  lemma EmailNeedsAt(s: string)
    requires '@' !in s
    ensures !EmailRegexMatches(s)
  {
    forall a, at, dot, e | 0 <= a < at < dot < e <= |s|
      ensures !EmailMatchAt(s, a, at, dot, e)
    {
      assert s[at] in s;
    }
  }

  // ---------------------------------------------------------------------------
  // Validation

  /** The inputs of the form at the moment "Calculate" is pressed. `movingDateIso`
      is `movingDate.toISOString()` when a date was picked. */
  datatype Form = Form(
    name: string, email: string, phone: string, referer: string, leadType: string,
    fromZip: string, fromCity: string, fromState: string,
    toZip: string, toCity: string, toState: string,
    movingType: string, movingDateIso: Option<string>, acceptedTerms: bool, fromIp: string)

  const ZipMessage: string := "Enter a valid US ZIP (##### or #####-####)."

  /** The message of the rule for `key`, or None when that rule holds. The e-mail
      and ZIP rules report a missing value before a malformed one. */
  function FieldError(f: Form, key: string): Option<string> {
    match key
    case "name" => if f.name == "" then Some("Name is required.") else None
    case "email" =>
      if f.email == "" then Some("Email is required.")
      else if !EmailRegexMatches(f.email) then Some("Invalid email format.")
      else None
    case "phone" => if f.phone == "" then Some("Phone is required.") else None
    case "leadType" => if f.leadType == "" then Some("Lead type is required.") else None
    case "terms" => if !f.acceptedTerms then Some("You must accept the Terms.") else None
    case "fromZip" =>
      if f.fromZip == "" then Some("From ZIP is required.")
      else if !ZipMatches(f.fromZip) then Some(ZipMessage)
      else None
    case "toZip" =>
      if f.toZip == "" then Some("To ZIP is required.")
      else if !ZipMatches(f.toZip) then Some(ZipMessage)
      else None
    case _ => None
  }

  const FieldKeys: set<string> := {"name", "email", "phone", "leadType", "terms", "fromZip", "toZip"}

  /** The error map `handleCalculate` builds: one key per failing rule, with the
      message shown under that field. */
  function Errors(f: Form): (m: map<string, string>)
    ensures "name" in m <==> f.name == ""
    ensures "email" in m <==> f.email == "" || !EmailRegexMatches(f.email)
    ensures "phone" in m <==> f.phone == ""
    ensures "leadType" in m <==> f.leadType == ""
    ensures "terms" in m <==> !f.acceptedTerms
    ensures "fromZip" in m <==> !IsZip(f.fromZip)
    ensures "toZip" in m <==> !IsZip(f.toZip)
    ensures m.Keys <= FieldKeys
    ensures "name" in m ==> m["name"] == "Name is required."
    ensures "email" in m ==> m["email"] == (if f.email == "" then "Email is required." else "Invalid email format.")
    ensures "phone" in m ==> m["phone"] == "Phone is required."
    ensures "leadType" in m ==> m["leadType"] == "Lead type is required."
    ensures "terms" in m ==> m["terms"] == "You must accept the Terms."
    ensures "fromZip" in m ==> m["fromZip"] == (if f.fromZip == "" then "From ZIP is required." else ZipMessage)
    ensures "toZip" in m ==> m["toZip"] == (if f.toZip == "" then "To ZIP is required." else ZipMessage)
  {
    ZipMatchesIffIsZip(f.fromZip);
    ZipMatchesIffIsZip(f.toZip);
    map key | key in FieldKeys && FieldError(f, key).Some? :: FieldError(f, key).value
  }

  // ---------------------------------------------------------------------------
  // Lead type

  /** The effect on `[fromState, toState]`: once both are chosen the lead is
      "Local" for the same state and "International" otherwise; until then the
      previous value stays. */
  function LeadTypeAfter(prev: string, fromState: string, toState: string): (t: string)
    ensures fromState != "" && toState != "" ==> (t == "Local" <==> fromState == toState)
    ensures fromState != "" && toState != "" ==> (t == "International" <==> fromState != toState)
    ensures fromState == "" || toState == "" ==> t == prev
  {
    if fromState != "" && toState != "" then
      if fromState == toState then "Local" else "International"
    else prev
  }

  /** Choosing the two states in either order gives the same lead type. */
  lemma LeadTypeSymmetric(prev: string, a: string, b: string)
    requires a != "" && b != ""
    ensures LeadTypeAfter(prev, a, b) == LeadTypeAfter(prev, b, a)
  {
  }

  // ---------------------------------------------------------------------------
  // Payload fields

  datatype Name = Name(first: string, last: string)

  /** The name split at single spaces after trimming: the first piece is the
      first name, and the remaining pieces rejoined by spaces are the last name. */
  function SplitName(name: string): (n: Name)
    ensures ' ' !in n.first
    ensures StartsWith(Trim(name), n.first)
  {
    var parts := Split(Trim(name), ' ');
    SplitHead(Trim(name), ' ');
    Name(parts[0], Join(parts[1..], ' '))
  }

  /** The first name runs up to the first space; when there is one, first name,
      a space and last name give back the trimmed name, and otherwise the last
      name is empty. */
  lemma RejoinAtSpace(t: string)
    requires ' ' in t
    ensures Split(t, ' ')[0] + " " + Join(Split(t, ' ')[1..], ' ') == t
  {
    var i := IndexOf(t, ' ').value;
    var first := Split(t, ' ')[0];
    var last := Join(Split(t, ' ')[1..], ' ');
    assert first == t[..i] by {
      SplitHead(t, ' ');
    }
    assert last == t[i + 1..] by {
      JoinTail(t, ' ');
    }
    SplitAt(t, i);
  }

  lemma SplitNameRejoins(name: string)
    ensures var t := Trim(name);
            var n := SplitName(name);
            (' ' in t ==> n.first + " " + n.last == t) && (' ' !in t ==> n.first == t && n.last == "")
  {
    var t := Trim(name);
    if ' ' in t {
      RejoinAtSpace(t);
    } else {
      assert Split(t, ' ') == [t];
    }
  }

  /** The phone number with every character that is not an ASCII digit removed. */
  function PhoneDigits(phone: string): (r: string)
    ensures AllDigits(r)
    ensures Lists.IsSubseq(r, phone)
    ensures forall c :: c in phone && IsDigit(c) ==> multiset(r)[c] == multiset(phone)[c]
  {
    Lists.Filter(phone, IsDigit)
  }

  /** Digits already clean stay as they are, so the filter is idempotent. */
  lemma PhoneDigitsIdempotent(phone: string)
    ensures PhoneDigits(PhoneDigits(phone)) == PhoneDigits(phone)
  {
    Lists.FilterAll(PhoneDigits(phone), IsDigit);
  }

  /** The address as sent: white space cut from both ends, then every ASCII
      capital lowered. */
  function NormalEmail(email: string): (r: string)
    ensures |r| == |Trim(email)|
    ensures forall k :: 0 <= k < |r| ==> r[k] == LowerChar(Trim(email)[k]) && !IsUpper(r[k])
    ensures Trimmed(r)
  {
    LowerKeepsTrimmed(Trim(email));
    ToLower(Trim(email))
  }

  /** An address already trimmed and in lower case is sent as typed. */
  lemma NormalEmailKeepsClean(email: string)
    requires Trimmed(email)
    requires forall k :: 0 <= k < |email| ==> !IsUpper(email[k])
    ensures NormalEmail(email) == email
  {
    TrimOfTrimmed(email);
  }

  /** Normalising a normalised address changes nothing. */
  lemma NormalEmailIdempotent(email: string)
    ensures NormalEmail(NormalEmail(email)) == NormalEmail(email)
  {
    NormalEmailKeepsClean(NormalEmail(email));
  }

  /** A word character of `\w`: ASCII letters, digits and underscore. */
  predicate IsWord(c: char) {
    IsLower(c) || IsUpper(c) || IsDigit(c) || c == '_'
  }

  /** `\b\w` matches at `i`: a word character with no word character before it. */
  predicate WordStart(s: string, i: int) {
    0 <= i < |s| && IsWord(s[i]) && (i == 0 || !IsWord(s[i - 1]))
  }

  function CapFrom(s: string, afterWord: bool): string {
    if |s| == 0 then []
    else [if !afterWord && IsWord(s[0]) then UpperChar(s[0]) else s[0]] + CapFrom(s[1..], IsWord(s[0]))
  }

  /** Every word character that starts a word is upper-cased; nothing else
      changes. */
  function CapitalizeWords(s: string): (r: string)
    ensures |r| == |s|
    ensures forall i :: 0 <= i < |s| ==> r[i] == if WordStart(s, i) then UpperChar(s[i]) else s[i]
  {
    CapFromSpec(s, false);
    assert forall i :: 0 <= i < |s| ==> (WordStart(s, i) <==> IsWord(s[i]) && BoundaryBefore(s, false, i));
    CapFrom(s, false)
  }

  /** Whether `\b` holds before position `i` when the character before `s` was a
      word character exactly if `afterWord`. */
  predicate BoundaryBefore(s: string, afterWord: bool, i: int)
    requires 0 <= i < |s|
  {
    if i == 0 then !afterWord else !IsWord(s[i - 1])
  }

  lemma {:induction false} CapFromSpec(s: string, afterWord: bool)
    ensures |CapFrom(s, afterWord)| == |s|
    ensures forall i :: 0 <= i < |s| ==>
      CapFrom(s, afterWord)[i] == if IsWord(s[i]) && BoundaryBefore(s, afterWord, i) then UpperChar(s[i]) else s[i]
    decreases |s|
  {
    if |s| > 0 {
      var rest := CapFrom(s[1..], IsWord(s[0]));
      CapFromSpec(s[1..], IsWord(s[0]));
      var r := CapFrom(s, afterWord);
      assert r == [if !afterWord && IsWord(s[0]) then UpperChar(s[0]) else s[0]] + rest;
      forall i | 0 <= i < |s|
        ensures r[i] == if IsWord(s[i]) && BoundaryBefore(s, afterWord, i) then UpperChar(s[i]) else s[i]
      {
        if i > 0 {
          assert r[i] == rest[i - 1];
        assert s[1..][i - 1] == s[i];
          if i > 1 {
            assert s[1..][i - 2] == s[i - 1];
          }
        }
      }
    }
  }

  /** Capitalising keeps the length and upper-cases exactly the letters that start
      a word; every other character is kept. */
  lemma CapitalizeWordsSpec(s: string)
    ensures |CapitalizeWords(s)| == |s|
    ensures forall i :: 0 <= i < |s| ==>
      CapitalizeWords(s)[i] == if WordStart(s, i) then UpperChar(s[i]) else s[i]
    ensures forall i :: 0 <= i < |s| && CapitalizeWords(s)[i] != s[i] ==> WordStart(s, i) && IsLower(s[i])
  {
    var r := CapitalizeWords(s);
    CapFromSpec(s, false);
    forall i | 0 <= i < |s| ensures r[i] == if WordStart(s, i) then UpperChar(s[i]) else s[i] {
      assert WordStart(s, i) <==> IsWord(s[i]) && BoundaryBefore(s, false, i);
    }
  }

  lemma CapitalizeWordsIdempotent(s: string)
    ensures CapitalizeWords(CapitalizeWords(s)) == CapitalizeWords(s)
  {
    var r := CapitalizeWords(s);
    CapitalizeWordsSpec(s);
    CapitalizeWordsSpec(r);
    forall i | 0 <= i < |r| ensures CapitalizeWords(r)[i] == r[i] {
      assert IsWord(r[i]) <==> IsWord(s[i]);
      if i > 0 {
        assert IsWord(r[i - 1]) <==> IsWord(s[i - 1]);
      }
    }
  }

  /** The state code: the first two characters of the state, upper-cased. */
  function StateCode(state: string): (r: string)
    ensures |r| == Min(2, |state|)
    ensures forall k :: 0 <= k < |r| ==> r[k] == UpperChar(state[k])
  {
    ToUpper(state[..Min(2, |state|)])
  }

  /** The code of the capitalised state is the code of the state as typed. */
  lemma StateCodeOfCapitalized(state: string)
    ensures StateCode(CapitalizeWords(state)) == StateCode(state)
  {
    CapitalizeWordsSpec(state);
  }

  /** The referer sent with the lead, "Direct" when it is empty. */
  function RefererField(referer: string): (r: string)
    ensures r != ""
    ensures referer != "" ==> r == referer
  {
    if referer != "" then referer else "Direct"
  }

  /** The lead source: "Website: " followed by the referer, or by "Direct" when
      there is none. */
  function LeadSource(referer: string): (r: string)
    ensures StartsWith(r, "Website: ")
  {
    if referer != "" then "Website: " + referer else "Website: Direct"
  }

  /** The lead source always names the referer field that goes beside it. */
  lemma LeadSourceNamesReferer(referer: string)
    ensures LeadSource(referer) == "Website: " + RefererField(referer)
  {
  }

  /** The date part of the picked date's ISO string: everything before its
      first "T", or "" when no date was picked. */
  function MoveDate(iso: Option<string>): (r: string)
    ensures iso.None? ==> r == ""
    ensures iso.Some? ==> StartsWith(iso.value, r) && 'T' !in r
    ensures iso.Some? ==> r == iso.value || (|r| < |iso.value| && iso.value[|r|] == 'T')
  {
    if iso.None? then ""
    else
      SplitHead(iso.value, 'T');
      Split(iso.value, 'T')[0]
  }

  /** The body posted to `/api/save-form` (the partner key and the empty car
      fields are constants and not modelled). */
  datatype Payload = Payload(
    leadType: string, leadSource: string, referer: string, fromIp: string,
    firstName: string, lastName: string, email: string, phone: string,
    fromState: string, fromStateCode: string, fromCity: string, fromZip: string,
    toState: string, toStateCode: string, toCity: string, toZip: string,
    moveDate: string, moveSize: string)

  /** Every field of the body from the form field it is computed from. */
  function BuildPayload(f: Form): (p: Payload)
    ensures AllDigits(p.phone) && p.phone == PhoneDigits(f.phone)
    ensures p.leadType == f.leadType && p.fromZip == f.fromZip && p.toZip == f.toZip
    ensures p.referer == RefererField(f.referer) && p.leadSource == "Website: " + p.referer
    ensures p.fromIp == f.fromIp && p.moveSize == f.movingType
    ensures p.firstName == SplitName(f.name).first && p.lastName == SplitName(f.name).last
    ensures p.email == NormalEmail(f.email)
    ensures p.fromState == CapitalizeWords(f.fromState) && p.fromCity == CapitalizeWords(f.fromCity)
    ensures p.toState == CapitalizeWords(f.toState) && p.toCity == CapitalizeWords(f.toCity)
    ensures p.fromStateCode == StateCode(f.fromState) && p.toStateCode == StateCode(f.toState)
    ensures p.moveDate == MoveDate(f.movingDateIso)
  {
    var n := SplitName(f.name);
    LeadSourceNamesReferer(f.referer);
    Payload(
      f.leadType, LeadSource(f.referer), RefererField(f.referer), f.fromIp,
      n.first, n.last, NormalEmail(f.email), PhoneDigits(f.phone),
      CapitalizeWords(f.fromState), StateCode(f.fromState), CapitalizeWords(f.fromCity), f.fromZip,
      CapitalizeWords(f.toState), StateCode(f.toState), CapitalizeWords(f.toCity), f.toZip,
      MoveDate(f.movingDateIso), f.movingType)
  }

  // ---------------------------------------------------------------------------
  // Submission

  datatype Outcome = Ignored | Rejected(errors: map<string, string>) | Submitted(payload: Payload)

  /** `handleCalculate` up to the first request: a press while a submission is in
      flight does nothing; otherwise the errors are shown and the payload is built
      only when there are none. */
  function HandleCalculate(submitting: bool, f: Form): (o: Outcome)
    ensures submitting <==> o.Ignored?
    ensures !submitting ==> (o.Submitted? <==> Errors(f) == map[])
    ensures o.Submitted? ==> o.payload == BuildPayload(f)
    ensures o.Rejected? ==> o.errors == Errors(f) && o.errors != map[]
  {
    if submitting then Ignored
    else
      var errs := Errors(f);
      if |errs| > 0 then Rejected(errs) else Submitted(BuildPayload(f))
  }

  /** A lead is sent exactly when every rule holds: name, phone and lead type
      given, an address-like e-mail, the terms accepted and two valid ZIPs. */
  lemma SubmittedIffValid(f: Form)
    ensures HandleCalculate(false, f).Submitted? <==>
      && f.name != "" && f.phone != "" && f.leadType != "" && f.acceptedTerms
      && EmailShape(f.email) && IsZip(f.fromZip) && IsZip(f.toZip)
  {
    var m := Errors(f);
    EmailRegexIffShape(f.email);
    if EmailShape(f.email) {
      var at, dot :| EmailShapeAt(f.email, at, dot);
    }
    if m != map[] {
      var k :| k in m;
    }
  }
}
