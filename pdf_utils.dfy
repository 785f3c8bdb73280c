/**
 * The pure helpers of the PDF utilities: the quarter and year read from a transcript's
 * file name, the participant lines listed under the two roster headings, and the
 * first-match role corrector applied to the JP Morgan discussion frame.
 */
module PdfUtils {
  import opened Wrappers
  import opened Text
  import JpMorgan
  import GoldmanSachs

  // ------------------------------------------------------------------ quarter and year

  predicate IsQ(c: char) {
    c == 'q' || c == 'Q'
  }

  predicate IsYearEnd(c: char) {
    c == '_' || c == '-'
  }

  /** `(\d{1})q(\d{2})[_-]` under `re.IGNORECASE` matches at position `i`. */
  predicate MatchAt(s: string, i: nat) {
    i + 5 <= |s| && IsDigit(s[i]) && IsQ(s[i + 1]) && IsDigit(s[i + 2]) && IsDigit(s[i + 3]) && IsYearEnd(s[i + 4])
  }

  /** `pattern.search(s)` from `from`: the leftmost position where the pattern matches. */
  function FindMatch(s: string, from: nat): (r: Option<nat>)
    ensures r.Some? ==> from <= r.value && MatchAt(s, r.value)
    ensures r.Some? ==> forall j :: from <= j < r.value ==> !MatchAt(s, j)
    ensures r.None? ==> forall j :: from <= j ==> !MatchAt(s, j)
    decreases |s| - from
  {
    if from + 5 > |s| then None
    else if MatchAt(s, from) then Some(from)
    else FindMatch(s, from + 1)
  }

  function DigitValue(c: char): int
    requires IsDigit(c)
  {
    c as int - '0' as int
  }

  /** `int(year_short)` for two ASCII digits. */
  function TwoDigitValue(yy: string): (v: int)
    requires |yy| == 2 && IsDigit(yy[0]) && IsDigit(yy[1])
  {
    DigitValue(yy[0]) * 10 + DigitValue(yy[1])
  }

  /** The century rule as written: "20" for 0..99, otherwise "19" above 50 and "20" below. */
  function FullYear(yy: string): string
    requires |yy| == 2 && IsDigit(yy[0]) && IsDigit(yy[1])
  {
    var yearInt := TwoDigitValue(yy);
    if 0 <= yearInt <= 99 then "20" + yy
    else if yearInt > 50 then "19" + yy
    else "20" + yy
  }

  /** Two digits always read as a value in 0..99, so the "19" branch is never taken. */
  lemma FullYearIsTwentyFirstCentury(yy: string)
    requires |yy| == 2 && IsDigit(yy[0]) && IsDigit(yy[1])
    ensures 0 <= TwoDigitValue(yy) <= 99
    ensures FullYear(yy) == "20" + yy
  {
  }

  /** `extract_quarter_and_year_from_filename`: the quarter digit and the four-digit year, or neither. */
  function QuarterAndYear(filename: string): (r: (Option<string>, Option<string>))
    ensures r.0.None? <==> r.1.None?
    ensures r.0.None? <==> forall i: nat :: !MatchAt(filename, i)
    ensures r.0.Some? ==> exists i: nat :: MatchAt(filename, i) && (forall j: nat :: j < i ==> !MatchAt(filename, j))
                                      && r.0.value == [filename[i]] && r.1.value == FullYear(filename[i + 2..i + 4])
  {
    match FindMatch(filename, 0)
    case None => (None, None)
    case Some(i) => (Some([filename[i]]), Some(FullYear(filename[i + 2..i + 4])))
  }

  /**
   * On a match the quarter is one digit, not checked to lie in 1..4, and the year is "20"
   * followed by the two digits after the `q`.
   */
  lemma QuarterAndYearShape(filename: string)
    requires QuarterAndYear(filename).0.Some?
    ensures |QuarterAndYear(filename).0.value| == 1 && IsDigit(QuarterAndYear(filename).0.value[0])
    ensures exists i: nat :: MatchAt(filename, i) && QuarterAndYear(filename).1.value == "20" + filename[i + 2..i + 4]
    ensures |QuarterAndYear(filename).1.value| == 4 && QuarterAndYear(filename).1.value[..2] == "20"
  {
    var i := FindMatch(filename, 0).value;
    FullYearIsTwentyFirstCentury(filename[i + 2..i + 4]);
  }

  /** The documented example: "1q22_earnings_transcript.pdf" gives ("1", "2022"). */
  lemma QuarterAndYearExample()
    ensures QuarterAndYear("1q22_earnings_transcript.pdf") == (Some("1"), Some("2022"))
  {
    var name := "1q22_earnings_transcript.pdf";
    assert MatchAt(name, 0);
    assert FindMatch(name, 0) == Some(0);
    assert name[2..4] == "22";
    assert FullYear("22") == "2022";
  }

  // ------------------------------------------------------------------ participant lines

  /** The two lists `extract_participants_sections` returns. */
  datatype ParticipantLines = ParticipantLines(company: seq<string>, conference: seq<string>)

  /** The non-blank stripped lines of a span, or none when the span is missing. */
  function SpanLines(span: Option<string>): (r: seq<string>)
    ensures span.None? ==> r == []
    ensures forall k :: 0 <= k < |r| ==> r[k] != [] && IsStripped(r[k])
  {
    match span
    case None => []
    case Some(s) => StrippedNonEmpty(Split(s, "\n"))
  }

  /** Of a present span, every non-blank line is listed, stripped and in order, and nothing else is. */
  lemma SpanLinesPicks(span: Option<string>) returns (idx: seq<nat>)
    ensures span.Some? ==> PicksNonBlank(Split(span.value, "\n"), SpanLines(span), idx)
  {
    idx := [];
    if span.Some? {
      idx := StrippedNonEmptyPicks(Split(span.value, "\n"));
    }
  }

  /**
   * `extract_participants_sections`. A list is empty when its heading is absent, or when no
   * terminator follows the heading's first occurrence: "Conference Call Participants" or
   * "Operator" for the company list, "Operator" for the conference list.
   */
  function ParticipantsSections(text: string): (r: ParticipantLines)
    ensures IndexOf(text, GoldmanSachs.CompanyMarker, 0).None? ==> r.company == []
    ensures IndexOf(text, GoldmanSachs.ConferenceMarker, 0).None? ==> r.conference == []
    ensures IndexOf(text, GoldmanSachs.CompanyMarker, 0).Some?
            && (forall j: nat :: IndexOf(text, GoldmanSachs.CompanyMarker, 0).value + |GoldmanSachs.CompanyMarker| <= j
                  ==> !AnyAt(text, j, [GoldmanSachs.ConferenceMarker, GoldmanSachs.OperatorMarker]))
            ==> r.company == []
    ensures IndexOf(text, GoldmanSachs.ConferenceMarker, 0).Some?
            && (forall j: nat :: IndexOf(text, GoldmanSachs.ConferenceMarker, 0).value + |GoldmanSachs.ConferenceMarker| <= j
                  ==> !AnyAt(text, j, [GoldmanSachs.OperatorMarker]))
            ==> r.conference == []
  {
    ParticipantLines(SpanLines(LazySpan(text, "Company Participants", ["Conference Call Participants", "Operator"])),
                     SpanLines(LazySpan(text, "Conference Call Participants", ["Operator"])))
  }

  /** The spans are the ones the Goldman Sachs roster reads. */
  lemma ParticipantsSectionsSpans(text: string)
    ensures ParticipantsSections(text) == ParticipantLines(SpanLines(GoldmanSachs.CompanySpan(text)),
                                                           SpanLines(GoldmanSachs.ConferenceSpan(text)))
  {
  }

  /**
   * Each list holds exactly the non-blank lines of its span, stripped and in their order:
   * `ci` and `fi` give the line each company and conference entry comes from.
   */
  lemma ParticipantLinesInOrder(text: string) returns (ci: seq<nat>, fi: seq<nat>)
    ensures GoldmanSachs.CompanySpan(text).Some? ==>
              PicksNonBlank(Split(GoldmanSachs.CompanySpan(text).value, "\n"), ParticipantsSections(text).company, ci)
    ensures GoldmanSachs.ConferenceSpan(text).Some? ==>
              PicksNonBlank(Split(GoldmanSachs.ConferenceSpan(text).value, "\n"), ParticipantsSections(text).conference, fi)
  {
    ParticipantsSectionsSpans(text);
    ci := SpanLinesPicks(GoldmanSachs.CompanySpan(text));
    fi := SpanLinesPicks(GoldmanSachs.ConferenceSpan(text));
  }

  // ------------------------------------------------------------------ first-match role corrector

  /** `misspelt_roles_dict`: the extractor's table without its last rule. */
  const RolesTable: seq<JpMorgan.Rule> := JpMorgan.CommonRules

  /** The first rule at or after `from`, in table order, whose misspelling occurs in `role`. */
  function FirstKey(table: seq<JpMorgan.Rule>, role: string, from: nat): (r: Option<nat>)
    requires from <= |table|
    ensures r.Some? ==> from <= r.value < |table| && Contains(role, table[r.value].0)
    ensures r.Some? ==> forall k :: from <= k < r.value ==> !Contains(role, table[k].0)
    ensures r.None? ==> forall k :: from <= k < |table| ==> !Contains(role, table[k].0)
    decreases |table| - from
  {
    if from == |table| then None
    else if Contains(role, table[from].0) then Some(from)
    else FirstKey(table, role, from + 1)
  }

  /** What `correct_roles` returns for `role` under `table`. */
  function CorrectRole(table: seq<JpMorgan.Rule>, role: string): (r: string)
    ensures (forall k :: 0 <= k < |table| ==> !Contains(role, table[k].0)) ==> r == role
  {
    match FirstKey(table, role, 0)
    case None => role
    case Some(k) => ReplaceAll(role, table[k].0, table[k].1)
  }

  /** When the first rule's misspelling occurs, that rule alone is applied. */
  lemma FirstRuleApplies(table: seq<JpMorgan.Rule>, role: string)
    requires |table| > 0 && Contains(role, table[0].0)
    ensures CorrectRole(table, role) == ReplaceAll(role, table[0].0, table[0].1)
  {
    assert FirstKey(table, role, 0) == Some(0);
  }

  /** `correct_roles`, reading the table `misspelt_roles_dict`. */
  method CorrectRoles(role: string) returns (r: string)
    ensures r == CorrectRole(RolesTable, role)
  {
    r := CorrectRolesWith(RolesTable, role);
  }

  /** The loop of `correct_roles` over a given table: the first misspelling found is replaced everywhere, then it stops. */
  method CorrectRolesWith(table: seq<JpMorgan.Rule>, role: string) returns (r: string)
    ensures r == CorrectRole(table, role)
  {
    r := role;
    var i := 0;
    while i < |table|
      invariant 0 <= i <= |table| && r == role
      invariant forall k :: 0 <= k < i ==> !Contains(role, table[k].0)
    {
      var misspelt := table[i].0;
      if Contains(role, misspelt) {
        r := ReplaceAll(role, misspelt, table[i].1);
        assert FirstKey(table, role, 0) == Some(i);
        return;
      }
      i := i + 1;
    }
  }

  /** "Ch ief" holds no double space. */
  lemma ChIefSingleSpaced()
    ensures !Contains("Ch ief", "  ")
  {
    var rest := "Ch ief";
    forall j: nat
      ensures !At(rest, j, "  ")
    {
      if j + 2 <= |rest| {
        assert rest[j..j + 2][0] == rest[j] && rest[j..j + 2][1] == rest[j + 1];
        assert j == 0 || j == 1 || j == 2 || j == 3 || j == 4;
      }
    }
  }

  /** A leading double space before single-spaced text collapses to one space. */
  lemma CollapseLeadingSpaces(rest: string)
    requires !Contains(rest, "  ")
    ensures Contains("  " + rest, "  ")
    ensures ReplaceAll("  " + rest, "  ", " ") == " " + rest
  {
    var role := "  " + rest;
    assert At(role, 0, "  ");
    AtContains(role, 0, "  ");
    assert role[2..] == rest;
  }

  /** Under any table opening with the double-space rule, a leading double space collapses and nothing else changes. */
  lemma DoubleSpaceRuleFirst(table: seq<JpMorgan.Rule>, rest: string)
    requires |table| > 0 && table[0] == ("  ", " ")
    requires !Contains(rest, "  ")
    ensures CorrectRole(table, "  " + rest) == " " + rest
  {
    CollapseLeadingSpaces(rest);
    FirstRuleApplies(table, "  " + rest);
  }

  /**
   * Only the first rule applies and nothing is stripped: "  Ch ief" loses one of its two
   * leading spaces, while the later rule for "Ch ief" is not tried.
   */
  lemma CorrectRoleFirstMatchOnly()
    ensures CorrectRole(RolesTable, "  Ch ief") == " Ch ief"
  {
    assert RolesTable[0] == JpMorgan.Rules1[0] == ("  ", " ");
    ChIefSingleSpaced();
    DoubleSpaceRuleFirst(RolesTable, "Ch ief");
    assert "  " + "Ch ief" == "  Ch ief";
  }
}
