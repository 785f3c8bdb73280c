/**
 * The Goldman Sachs transcript extractor: the participant rosters read from the
 * "Company Participants" and "Conference Call Participants" spans, the Q&A grouper
 * that walks the Q&A section line by line, the flag-driven locator of the
 * management discussion and its splitter into speaker turns, and the flattening
 * of the Q&A groups into rows without the single-entry groups.
 */
module GoldmanSachs {
  import opened Wrappers
  import opened Text
  import opened Constants

  // ------------------------------------------------------------------ participant rosters

  const NameSep := " - "
  const RoleSeps: seq<string> := ["&", "and"]

  /** `", ".join(sorted([role.strip() for role in re.split(r"&|and", roles)]))`. */
  function RolesValue(roles: string): (r: string) {
    var pieces := SplitAlt(roles, RoleSeps).0;
    Join(Sort(seq(|pieces|, i requires 0 <= i < |pieces| => Strip(pieces[i]))), ", ")
  }

  /** A roles text in which neither "&" nor "and" occurs is kept whole, only stripped. */
  lemma RolesValueSingle(roles: string)
    requires !Contains(roles, "&") && !Contains(roles, "and")
    ensures RolesValue(roles) == Strip(roles)
  {
    assert NoneOf(roles, RoleSeps) by {
      forall j, k | 0 <= j <= |roles| && 0 <= k < |RoleSeps|
        ensures !At(roles, j, RoleSeps[k])
      {
        if At(roles, j, RoleSeps[k]) {
          AtContains(roles, j, RoleSeps[k]);
        }
      }
    }
    assert FindAlt(roles, RoleSeps, 0).None?;
    var pieces := SplitAlt(roles, RoleSeps).0;
    assert pieces == [roles];
    var stripped := seq(|pieces|, i requires 0 <= i < |pieces| => Strip(pieces[i]));
    assert stripped == [Strip(roles)];
  }

  /** The entry one roster line contributes: the stripped name before the first " - " and its roles value. */
  function RosterEntry(line: string): (r: Option<(string, string)>)
    ensures r.Some? <==> Contains(line, NameSep)
  {
    match IndexOf(line, NameSep, 0)
    case None => None
    case Some(p) => Some((Strip(line[..p]), RolesValue(line[p + |NameSep|..])))
  }

  /** The entries of a list of lines, one per line. */
  function Entries(lines: seq<string>): (r: seq<Option<(string, string)>>)
    ensures |r| == |lines| && forall i :: 0 <= i < |lines| ==> r[i] == RosterEntry(lines[i])
  {
    seq(|lines|, i requires 0 <= i < |lines| => RosterEntry(lines[i]))
  }

  /** The dictionary `parse_participants` builds from the line entries, later entries overwriting earlier ones. */
  function Roster(entries: seq<Option<(string, string)>>): map<string, string> {
    if entries == [] then map[]
    else
      var m := Roster(entries[..|entries| - 1]);
      match entries[|entries| - 1]
      case None => m
      case Some((name, roles)) => m[name := roles]
  }

  /** Entry `i` names `name`. */
  predicate Names(entries: seq<Option<(string, string)>>, i: nat, name: string) {
    i < |entries| && entries[i].Some? && entries[i].value.0 == name
  }

  /** The last entry naming a participant decides that participant's roles. */
  lemma {:induction false} RosterLast(entries: seq<Option<(string, string)>>, i: nat, name: string)
    requires Names(entries, i, name)
    requires forall j :: i < j < |entries| ==> !Names(entries, j, name)
    ensures name in Roster(entries) && Roster(entries)[name] == entries[i].value.1
  {
    var n := |entries| - 1;
    if i < n {
      assert !Names(entries, n, name);
      forall j | i < j < n
        ensures !Names(entries[..n], j, name)
      {
        assert !Names(entries, j, name);
      }
      RosterLast(entries[..n], i, name);
    }
  }

  /** Every name in the roster comes from an entry naming it, and the last such entry gave its roles. */
  lemma {:induction false} RosterSource(entries: seq<Option<(string, string)>>, name: string) returns (i: nat)
    requires name in Roster(entries)
    ensures Names(entries, i, name) && Roster(entries)[name] == entries[i].value.1
    ensures forall j :: i < j < |entries| ==> !Names(entries, j, name)
  {
    var n := |entries| - 1;
    if Names(entries, n, name) {
      i := n;
    } else {
      i := RosterSource(entries[..n], name);
      assert Names(entries, i, name);
      forall j | i < j < |entries|
        ensures !Names(entries, j, name)
      {
        if j < n {
          assert !Names(entries[..n], j, name);
        }
      }
    }
  }

  /** `parse_participants`: the roster of one span's lines. */
  method ParseParticipants(sectionText: string) returns (parsed: map<string, string>)
    ensures parsed == Roster(Entries(Split(sectionText, "\n")))
  {
    var lines := Split(sectionText, "\n");
    ghost var all := Entries(lines);
    parsed := map[];
    var i := 0;
    while i < |lines|
      invariant 0 <= i <= |lines|
      invariant parsed == Roster(all[..i])
    {
      var line := lines[i];
      assert all[i] == RosterEntry(line);
      var p := IndexOf(line, NameSep, 0);
      if p.Some? {
        var name := Strip(line[..p.value]);
        var roles := RolesValue(line[p.value + |NameSep|..]);
        RosterStep(all, i, name, roles);
        parsed := parsed[name := roles];
      } else {
        RosterStep(all, i, "", "");
      }
      i := i + 1;
    }
    assert all[..i] == all;
  }

  /** One more line either leaves the roster as it is or sets the roles of the name it gives. */
  lemma RosterStep(entries: seq<Option<(string, string)>>, i: nat, name: string, roles: string)
    requires i < |entries|
    ensures entries[i].None? ==> Roster(entries[..i + 1]) == Roster(entries[..i])
    ensures entries[i] == Some((name, roles)) ==> Roster(entries[..i + 1]) == Roster(entries[..i])[name := roles]
  {
    assert entries[..i + 1][..i] == entries[..i];
  }

  /** The two rosters of a transcript. */
  datatype Participants = Participants(company: map<string, string>, conference: map<string, string>)

  const CompanyMarker := "Company Participants"
  const ConferenceMarker := "Conference Call Participants"
  const OperatorMarker := "Operator"

  /** The span after "Company Participants", up to the first "Conference Call Participants" or "Operator". */
  function CompanySpan(text: string): Option<string> {
    LazySpan(text, CompanyMarker, [ConferenceMarker, OperatorMarker])
  }

  /** The span after "Conference Call Participants", up to the first "Operator". */
  function ConferenceSpan(text: string): Option<string> {
    LazySpan(text, ConferenceMarker, [OperatorMarker])
  }

  /** A roster read from a span, or the empty roster when the span is missing. */
  function SpanRoster(span: Option<string>): map<string, string> {
    match span
    case None => map[]
    case Some(s) => Roster(Entries(Split(s, "\n")))
  }

  /** What `_extract_participants` returns. */
  function ParticipantsOf(text: string): Participants {
    Participants(SpanRoster(CompanySpan(text)), SpanRoster(ConferenceSpan(text)))
  }

  /** A span without its marker, or with none of its terminators after it, is missing. */
  lemma {:induction false} SpanMissing(text: string, marker: string, ends: seq<string>)
    requires !Contains(text, marker) || forall k :: 0 <= k < |ends| ==> !Contains(text, ends[k])
    ensures LazySpan(text, marker, ends).None?
  {
  }

  /** Without its marker or its terminators a roster is empty rather than an error. */
  lemma ParticipantsMissing(text: string)
    ensures (!Contains(text, CompanyMarker) || (!Contains(text, ConferenceMarker) && !Contains(text, OperatorMarker)))
            ==> ParticipantsOf(text).company == map[]
    ensures (!Contains(text, ConferenceMarker) || !Contains(text, OperatorMarker))
            ==> ParticipantsOf(text).conference == map[]
  {
    if !Contains(text, CompanyMarker) || (!Contains(text, ConferenceMarker) && !Contains(text, OperatorMarker)) {
      SpanMissing(text, CompanyMarker, [ConferenceMarker, OperatorMarker]);
    }
    if !Contains(text, ConferenceMarker) || !Contains(text, OperatorMarker) {
      SpanMissing(text, ConferenceMarker, [OperatorMarker]);
    }
  }

  /** `_extract_participants`: both rosters. */
  method ExtractParticipants(text: string) returns (participants: Participants)
    ensures participants == ParticipantsOf(text)
  {
    var company: map<string, string> := map[];
    var companyMatch := LazySpan(text, CompanyMarker, [ConferenceMarker, OperatorMarker]);
    if companyMatch.Some? {
      company := ParseParticipants(companyMatch.value);
    }
    var conference: map<string, string> := map[];
    var conferenceMatch := LazySpan(text, ConferenceMarker, [OperatorMarker]);
    if conferenceMatch.Some? {
      conference := ParseParticipants(conferenceMatch.value);
    }
    participants := Participants(company, conference);
  }

  /** Every roster name is stripped, since `parse_participants` strips the keys it stores. */
  lemma {:induction false} RosterNamesStripped(entries: seq<Option<(string, string)>>, lines: seq<string>)
    requires entries == Entries(lines)
    ensures forall n :: n in Roster(entries) ==> IsStripped(n)
  {
    forall n | n in Roster(entries)
      ensures IsStripped(n)
    {
      var i := RosterSource(entries, n);
      var p := IndexOf(lines[i], NameSep, 0).value;
      StripIsStripped(lines[i][..p]);
    }
  }

  /** The names of both rosters. */
  function AllNames(p: Participants): set<string> {
    p.company.Keys + p.conference.Keys
  }

  lemma ParticipantsStripped(text: string)
    ensures forall n :: n in AllNames(ParticipantsOf(text)) ==> IsStripped(n)
  {
    var c := CompanySpan(text);
    if c.Some? {
      var lines := Split(c.value, "\n");
      RosterNamesStripped(Entries(lines), lines);
    }
    var d := ConferenceSpan(text);
    if d.Some? {
      var lines := Split(d.value, "\n");
      RosterNamesStripped(Entries(lines), lines);
    }
  }

  // ------------------------------------------------------------------ Q&A section

  const QnaStart := "Question-and-Answer Session"

  /** `_extract_qna_section`: the stripped text after the first "Question-and-Answer Session", or "". */
  function ExtractQnaSection(text: string): (r: string)
    ensures !Contains(text, QnaStart) ==> r == ""
    ensures IsStripped(r)
    ensures Contains(text, QnaStart) ==>
      exists before, after :: text == before + QnaStart + after && !Contains(before, QnaStart) && r == Strip(after)
  {
    match IndexOf(text, QnaStart, 0)
    case None => ""
    case Some(i) =>
      var before, after := text[..i], text[i + |QnaStart|..];
      BeforeFirst(text, QnaStart, i);
      Decompose(text, i, QnaStart);
      StripIsStripped(after);
      assert text == before + QnaStart + after && !Contains(before, QnaStart);
      Strip(after)
  }

  /** Whether a Q&A entry is a question (its speaker is on the conference-call roster) or an answer. */
  datatype ContentType = Question | Answer

  /** One entry of a Q&A group. */
  datatype QnaItem = QnaItem(contentType: ContentType, content: string, speaker: string, role: Option<string>, company: Company)

  /** Roster names stay distinct once lower-cased, so a lower-cased line names at most one participant. */
  ghost predicate DistinctNames(p: Participants) {
    forall a, b :: a in AllNames(p) && b in AllNames(p) && Lower(a) == Lower(b) ==> a == b
  }

  /** The participant a cleaned line names, if any. */
  function SpeakerOf(p: Participants, line: string): (r: Option<string>)
    requires DistinctNames(p)
    ensures r.Some? <==> exists n :: n in AllNames(p) && Lower(n) == line
    ensures r.Some? ==> r.value in AllNames(p) && Lower(r.value) == line
  {
    if exists n :: n in AllNames(p) && Lower(n) == line then
      var n :| n in AllNames(p) && Lower(n) == line;
      Some(n)
    else None
  }

  /** `conference.get(speaker) or GOLDMAN_SACHS`: an empty roster value is falsy and gives the bank too. */
  function QnaCompany(p: Participants, speaker: string): Company {
    if speaker in p.conference && p.conference[speaker] != "" then Named(p.conference[speaker]) else Bank(GOLDMAN_SACHS)
  }

  /** The entry a speaker line opens, with empty content. */
  function OpenItem(p: Participants, speaker: string): QnaItem {
    QnaItem(if speaker in p.conference then Question else Answer, "", speaker,
            if speaker in p.company then Some(p.company[speaker]) else None, QnaCompany(p, speaker))
  }

  /** No upper-case ASCII letter. */
  predicate IsLowerText(s: string) {
    forall i :: 0 <= i < |s| ==> !('A' <= s[i] <= 'Z')
  }

  /** An entry classified as the rosters say, with lower-cased content made of " "-prefixed lines. */
  ghost predicate ItemOk(p: Participants, it: QnaItem) {
    && it.speaker in AllNames(p)
    && (it.contentType == Question <==> it.speaker in p.conference)
    && it.role == (if it.speaker in p.company then Some(p.company[it.speaker]) else None)
    && it.company == QnaCompany(p, it.speaker)
    && IsLowerText(it.content)
    && (it.content == [] || it.content[0] == ' ')
  }

  /** The keys of `m` are exactly 0, 1, ..., |m| - 1. */
  ghost predicate Indexed<T>(m: map<nat, T>) {
    forall k: nat :: k in m <==> k < |m|
  }

  /** A Q&A group: non-empty, keyed 0.., with well-classified entries. */
  ghost predicate GroupOk(p: Participants, g: map<nat, QnaItem>) {
    g != map[] && Indexed(g) && forall e :: e in g ==> ItemOk(p, g[e])
  }

  ghost predicate AllGroupsOk(p: Participants, groups: map<nat, map<nat, QnaItem>>) {
    forall g :: g in groups ==> GroupOk(p, groups[g])
  }

  /** The local state of `_split_qna_section`. */
  datatype QnaState = QnaState(groups: map<nat, map<nat, QnaItem>>, current: map<nat, QnaItem>,
                               groupIndex: nat, entryIndex: nat, speaker: Option<string>)

  /** The invariant the Q&A loop keeps. */
  ghost predicate QnaValid(p: Participants, st: QnaState) {
    && Indexed(st.groups) && |st.groups| == st.groupIndex
    && (forall g :: g in st.groups ==> GroupOk(p, st.groups[g]))
    && (st.current == map[] ==> st.entryIndex == 0 && st.speaker == None)
    && (st.current != map[] ==> GroupOk(p, st.current) && |st.current| == st.entryIndex + 1)
    && (st.speaker.Some? ==> st.entryIndex in st.current)
  }

  const QnaInit := QnaState(map[], map[], 0, 0, None)

  /** `line.strip().lower()`. */
  function CleanLine(line: string): string {
    Lower(Strip(line))
  }

  lemma LowerIsLowerText(s: string)
    ensures IsLowerText(Lower(s))
  {
  }

  /** Adding the next key keeps a map indexed. */
  lemma IndexedExtend<T>(m: map<nat, T>, x: T)
    requires Indexed(m)
    ensures Indexed(m[|m| := x]) && |m[|m| := x]| == |m| + 1
  {
  }

  /** An "operator" line with a non-empty current group stores it and starts the next group. */
  function CloseGroup(p: Participants, st: QnaState): (r: QnaState)
    requires QnaValid(p, st) && st.current != map[]
    ensures QnaValid(p, r) && r.groupIndex == st.groupIndex + 1 && r.current == map[]
    ensures r.groups == st.groups[st.groupIndex := st.current]
  {
    GroupsExtend(p, st.groups, st.current);
    QnaState(st.groups[st.groupIndex := st.current], map[], st.groupIndex + 1, 0, None)
  }

  /** Storing a well-formed group under the next key keeps the groups keyed 0.. and well-formed. */
  lemma GroupsExtend(p: Participants, groups: map<nat, map<nat, QnaItem>>, c: map<nat, QnaItem>)
    requires Indexed(groups) && AllGroupsOk(p, groups) && GroupOk(p, c)
    ensures Indexed(groups[|groups| := c]) && |groups[|groups| := c]| == |groups| + 1
    ensures AllGroupsOk(p, groups[|groups| := c])
  {
    IndexedExtend(groups, c);
  }

  lemma OpenItemOk(p: Participants, s: string)
    requires s in AllNames(p)
    ensures ItemOk(p, OpenItem(p, s))
  {
  }

  /** A well-classified entry added under the next key gives a well-formed group. */
  lemma GroupExtendOk(p: Participants, g: map<nat, QnaItem>, x: QnaItem)
    requires g == map[] || GroupOk(p, g)
    requires ItemOk(p, x)
    ensures GroupOk(p, g[|g| := x]) && |g[|g| := x]| == |g| + 1
  {
    IndexedExtend(g, x);
  }

  /** A speaker line opens the next entry of the current group, with empty content. */
  function OpenEntry(p: Participants, st: QnaState, s: string): (r: QnaState)
    requires QnaValid(p, st) && s in AllNames(p)
    ensures QnaValid(p, r) && r.groups == st.groups && r.speaker == Some(s)
    ensures r.entryIndex == |st.current| && r.current == st.current[|st.current| := OpenItem(p, s)]
  {
    var e := if st.current != map[] then st.entryIndex + 1 else st.entryIndex;
    assert e == |st.current|;
    OpenItemOk(p, s);
    GroupExtendOk(p, st.current, OpenItem(p, s));
    QnaState(st.groups, st.current[e := OpenItem(p, s)], st.groupIndex, e, Some(s))
  }

  /** Replacing a well-classified entry of a group by another keeps the group well-formed. */
  lemma GroupUpdate(p: Participants, g: map<nat, QnaItem>, k: nat, x: QnaItem)
    requires GroupOk(p, g) && k in g && ItemOk(p, x)
    ensures GroupOk(p, g[k := x]) && |g[k := x]| == |g|
  {
    assert g[k := x].Keys == g.Keys;
  }

  /** Appending " " and a lower-cased line keeps an entry well-classified. */
  lemma AppendItemOk(p: Participants, it: QnaItem, line: string)
    requires ItemOk(p, it) && IsLowerText(line)
    ensures ItemOk(p, it.(content := it.content + " " + line))
  {
    var c := it.content + " " + line;
    assert forall i :: 0 <= i < |c| ==> c[i] == if i < |it.content| then it.content[i] else if i == |it.content| then ' ' else line[i - |it.content| - 1];
  }

  /** A body line goes to the current speaker's entry, after a space. */
  function AppendLine(p: Participants, st: QnaState, line: string): (r: QnaState)
    requires QnaValid(p, st) && st.speaker.Some? && IsLowerText(line)
    ensures QnaValid(p, r) && r.groups == st.groups && r.entryIndex == st.entryIndex && r.speaker == st.speaker
    ensures st.entryIndex in st.current
    ensures r.current == st.current[st.entryIndex := st.current[st.entryIndex].(content := st.current[st.entryIndex].content + " " + line)]
  {
    var it := st.current[st.entryIndex];
    AppendItemOk(p, it, line);
    GroupUpdate(p, st.current, st.entryIndex, it.(content := it.content + " " + line));
    st.(current := st.current[st.entryIndex := it.(content := it.content + " " + line)])
  }

  /** One pass of the loop of `_split_qna_section` on a cleaned line. */
  function QnaStep(p: Participants, st: QnaState, line: string): (r: QnaState)
    requires DistinctNames(p) && QnaValid(p, st) && IsLowerText(line)
    ensures QnaValid(p, r)
    ensures line == "operator" && st.current == map[] ==> r == st
    ensures line == "operator" ==> r.speaker.None? && r.current == map[]
    ensures st.speaker.None? && line != "operator" && !IsSpeakerLine(p, line) ==> r == st
    ensures IsSpeakerLine(p, line) ==> r.speaker.Some? && r.speaker.value in AllNames(p) && Lower(r.speaker.value) == line
  {
    if line == [] then st
    else if line == "operator" then
      if st.current != map[] then CloseGroup(p, st) else st
    else
      match SpeakerOf(p, line)
      case Some(s) => OpenEntry(p, st, s)
      case None => if st.speaker.Some? then AppendLine(p, st, line) else st
  }

  /** Each line as the loop sees it: stripped and lower-cased. */
  function Cleaned(lines: seq<string>): (r: seq<string>)
    ensures |r| == |lines|
    ensures forall i :: 0 <= i < |r| ==> r[i] == CleanLine(lines[i]) && IsLowerText(r[i])
  {
    seq(|lines|, i requires 0 <= i < |lines| => CleanLine(lines[i]))
  }

  predicate AllLowerText(lines: seq<string>) {
    forall i :: 0 <= i < |lines| ==> IsLowerText(lines[i])
  }

  /** The loop of `_split_qna_section` over the cleaned lines. */
  function QnaFold(p: Participants, lines: seq<string>): (r: QnaState)
    requires DistinctNames(p) && AllLowerText(lines)
    ensures QnaValid(p, r)
  {
    if lines == [] then QnaInit
    else QnaStep(p, QnaFold(p, lines[..|lines| - 1]), lines[|lines| - 1])
  }

  /** After the loop: the last group is stored if it is non-empty. */
  function CloseGroups(st: QnaState): map<nat, map<nat, QnaItem>> {
    if st.current != map[] then st.groups[st.groupIndex := st.current] else st.groups
  }

  /** What `_split_qna_section` returns for a Q&A text. */
  function SplitQna(p: Participants, qnaText: string): map<nat, map<nat, QnaItem>>
    requires DistinctNames(p)
  {
    CloseGroups(QnaFold(p, Cleaned(SplitLines(qnaText))))
  }

  lemma CloseGroupsShape(p: Participants, st: QnaState)
    requires QnaValid(p, st)
    ensures Indexed(CloseGroups(st)) && forall g :: g in CloseGroups(st) ==> GroupOk(p, CloseGroups(st)[g])
  {
    if st.current != map[] {
      IndexedExtend(st.groups, st.current);
    }
  }

  /** Group keys run 0, 1, ...; every group is non-empty, keyed 0, 1, ..., and classified as the rosters say. */
  lemma QnaGroupsShape(p: Participants, qnaText: string)
    requires DistinctNames(p)
    ensures Indexed(SplitQna(p, qnaText))
    ensures forall g :: g in SplitQna(p, qnaText) ==> GroupOk(p, SplitQna(p, qnaText)[g])
  {
    CloseGroupsShape(p, QnaFold(p, Cleaned(SplitLines(qnaText))));
  }

  /** A cleaned line that opens an entry: not blank, not "operator", and naming a participant. */
  predicate IsSpeakerLine(p: Participants, line: string) {
    line != [] && line != "operator" && exists n :: n in AllNames(p) && Lower(n) == line
  }

  /** No element satisfies `P` exactly when none before the last does and the last does not. */
  lemma NoneSnoc<T>(xs: seq<T>, init: seq<T>, last: T, P: T -> bool)
    requires xs == init + [last]
    ensures (forall i :: 0 <= i < |xs| ==> !P(xs[i])) <==> (forall i :: 0 <= i < |init| ==> !P(init[i])) && !P(last)
  {
    if forall i :: 0 <= i < |init| ==> !P(init[i]) {
      if !P(last) {
        forall i | 0 <= i < |xs|
          ensures !P(xs[i])
        {
          if i < |init| {
            assert xs[i] == init[i];
          } else {
            assert xs[i] == last;
          }
        }
      }
    }
    if forall i :: 0 <= i < |xs| ==> !P(xs[i]) {
      assert xs[|init|] == last;
      forall i | 0 <= i < |init|
        ensures !P(init[i])
      {
        assert xs[i] == init[i];
      }
    }
  }

  /** Whether the loop holds nothing yet. */
  predicate Idle(st: QnaState) {
    st.groups == map[] && st.current == map[]
  }

  /** One pass leaves the loop holding nothing exactly when it held nothing and the line opens no entry. */
  lemma QnaStepIdle(p: Participants, st: QnaState, line: string)
    requires DistinctNames(p) && QnaValid(p, st) && IsLowerText(line)
    ensures Idle(QnaStep(p, st, line)) <==> Idle(st) && !IsSpeakerLine(p, line)
  {
    var r := QnaStep(p, st, line);
    if line == [] || line == "operator" {
      if line == "operator" && st.current != map[] {
        assert st.groupIndex in r.groups;
      }
    } else if SpeakerOf(p, line).Some? {
      assert r.entryIndex in r.current;
    } else if st.speaker.Some? {
      assert st.entryIndex in r.current;
    }
  }

  /** The loop holds nothing exactly as long as no speaker line has been seen. */
  lemma {:induction false} QnaFoldIdle(p: Participants, lines: seq<string>)
    requires DistinctNames(p) && AllLowerText(lines)
    ensures Idle(QnaFold(p, lines)) <==> forall i :: 0 <= i < |lines| ==> !IsSpeakerLine(p, lines[i])
  {
    if lines != [] {
      var init := lines[..|lines| - 1];
      var last := lines[|lines| - 1];
      assert forall i :: 0 <= i < |init| ==> init[i] == lines[i];
      assert AllLowerText(init);
      QnaFoldIdle(p, init);
      QnaStepIdle(p, QnaFold(p, init), last);
      assert QnaFold(p, lines) == QnaStep(p, QnaFold(p, init), last);
      NoneSnoc(lines, init, last, l => IsSpeakerLine(p, l));
    }
  }

  lemma CloseGroupsIdle(st: QnaState)
    ensures CloseGroups(st) == map[] <==> Idle(st)
  {
    if st.current != map[] {
      assert st.groupIndex in CloseGroups(st);
    }
  }

  /** The Q&A loop over cleaned lines yields no group exactly when none of the lines names a participant. */
  lemma QnaEmptyIff(p: Participants, lines: seq<string>)
    requires DistinctNames(p) && AllLowerText(lines)
    ensures CloseGroups(QnaFold(p, lines)) == map[] <==> forall i :: 0 <= i < |lines| ==> !IsSpeakerLine(p, lines[i])
  {
    QnaFoldIdle(p, lines);
    CloseGroupsIdle(QnaFold(p, lines));
  }

  lemma QnaFoldAt(p: Participants, lines: seq<string>, i: nat)
    requires DistinctNames(p) && AllLowerText(lines) && i < |lines|
    ensures QnaFold(p, lines[..i + 1]) == QnaStep(p, QnaFold(p, lines[..i]), lines[i])
  {
    assert lines[..i + 1][..i] == lines[..i];
  }

  /**
   * After an `operator` line, body lines are dropped until the next speaker line: with no
   * speaker line after position `i`, the loop ends in the state the operator line left.
   */
  lemma {:induction false} QnaDropAfterOperator(p: Participants, lines: seq<string>, i: nat)
    requires DistinctNames(p) && AllLowerText(lines) && i < |lines| && lines[i] == "operator"
    requires forall k :: i < k < |lines| ==> !IsSpeakerLine(p, lines[k])
    ensures QnaFold(p, lines) == QnaFold(p, lines[..i + 1])
    ensures QnaFold(p, lines).speaker.None? && QnaFold(p, lines).current == map[]
    decreases |lines|
  {
    if |lines| == i + 1 {
      QnaFoldAt(p, lines, i);
      assert lines[..i + 1] == lines;
    } else {
      var n := |lines| - 1;
      var init := lines[..n];
      PrefixOfPrefix(lines, n, i + 1);
      assert AllLowerText(init);
      QnaDropAfterOperator(p, init, i);
      QnaFoldAt(p, lines, n);
      assert lines[..n + 1] == lines;
    }
  }

  /** A prefix of a prefix is a prefix. */
  lemma PrefixOfPrefix<T>(xs: seq<T>, n: nat, m: nat)
    requires m <= n <= |xs|
    ensures xs[..n][..m] == xs[..m]
  {
  }

  /** `_split_qna_section`: the Q&A groups of a Q&A text. */
  method SplitQnaSection(p: Participants, qnaText: string) returns (qnaGroups: map<nat, map<nat, QnaItem>>)
    requires DistinctNames(p)
    ensures qnaGroups == SplitQna(p, qnaText)
  {
    qnaGroups := map[];
    var currentGroup: map<nat, QnaItem> := map[];
    var groupIndex := 0;
    var entryIndex := 0;
    var currentSpeaker: Option<string> := None;
    var lines := SplitLines(qnaText);
    ghost var all := Cleaned(lines);
    var i := 0;
    while i < |lines|
      invariant 0 <= i <= |lines|
      invariant QnaState(qnaGroups, currentGroup, groupIndex, entryIndex, currentSpeaker) == QnaFold(p, all[..i])
    {
      QnaFoldAt(p, all, i);
      var line := Lower(Strip(lines[i]));
      if line == [] {
      } else if line == "operator" {
        if currentGroup != map[] {
          qnaGroups := qnaGroups[groupIndex := currentGroup];
          groupIndex := groupIndex + 1;
          currentGroup := map[];
          entryIndex := 0;
          currentSpeaker := None;
        }
      } else {
        var speaker := SpeakerOf(p, line);
        if speaker.Some? {
          if currentGroup != map[] {
            entryIndex := entryIndex + 1;
          }
          currentSpeaker := speaker;
          currentGroup := currentGroup[entryIndex := OpenItem(p, speaker.value)];
        } else if currentSpeaker.Some? {
          var it := currentGroup[entryIndex];
          currentGroup := currentGroup[entryIndex := it.(content := it.content + " " + line)];
        }
      }
      i := i + 1;
    }
    assert all[..i] == all;
    if currentGroup != map[] {
      qnaGroups := qnaGroups[groupIndex := currentGroup];
    }
  }

  // ------------------------------------------------------------------ management discussion

  const MdEnd := "Question-and-Answer Session"

  /** The first index at or after `from` whose line satisfies `pred`, or `|lines|`. */
  function FirstFrom(lines: seq<string>, from: nat, pred: string -> bool): (r: nat)
    requires from <= |lines|
    ensures from <= r <= |lines|
    ensures r < |lines| ==> pred(lines[r])
    ensures forall j :: from <= j < r ==> !pred(lines[j])
    decreases |lines| - from
  {
    if from == |lines| || pred(lines[from]) then from else FirstFrom(lines, from + 1, pred)
  }

  /** `line.strip().lower() == "operator"`. */
  predicate IsOperatorLine(line: string) {
    CleanLine(line) == "operator"
  }

  /** A line that ends the management discussion. */
  predicate IsEndLine(line: string) {
    Contains(line, MdEnd)
  }

  /** `any(participant == line for participant in internal_participants)`. */
  function IsNameLine(names: set<string>): string -> bool {
    line => line in names
  }

  /**
   * The lines `_extract_management_discussion` captures: after the first operator line, from the first
   * line that names a company participant, up to (not including) the first line from there on that
   * ends the discussion. The three line tests are parameters so that the scan can be reasoned about
   * on its own.
   */
  function CapturedBy(lines: seq<string>, isOperator: string -> bool, isName: string -> bool,
                      isEnd: string -> bool): seq<string> {
    var o := FirstFrom(lines, 0, isOperator);
    if o == |lines| then []
    else
      var s := FirstFrom(lines, o + 1, isName);
      var e := FirstFrom(lines, s, isEnd);
      lines[s..e]
  }

  function Captured(lines: seq<string>, names: set<string>): seq<string> {
    CapturedBy(lines, IsOperatorLine, IsNameLine(names), IsEndLine)
  }

  /** What `_extract_management_discussion` returns. */
  function ManagementDiscussionOf(names: set<string>, text: string): string {
    Strip(Join(Captured(SplitLines(text), names), "\n"))
  }

  /** Without an operator line, or without a participant's line after it, nothing is captured. */
  lemma CapturedEmpty(lines: seq<string>, names: set<string>)
    ensures (forall j :: 0 <= j < |lines| ==> !IsOperatorLine(lines[j])) ==> Captured(lines, names) == []
    ensures forall o :: (0 <= o < |lines| && IsOperatorLine(lines[o]) && (forall j :: 0 <= j < o ==> !IsOperatorLine(lines[j]))
                         && (forall j :: o < j < |lines| ==> lines[j] !in names)) ==> Captured(lines, names) == []
  {
  }

  /** A non-empty capture starts with a participant's name and holds no "Question-and-Answer Session". */
  lemma CapturedShape(lines: seq<string>, names: set<string>)
    ensures Captured(lines, names) != [] ==> Captured(lines, names)[0] in names
    ensures forall k :: 0 <= k < |Captured(lines, names)| ==> !Contains(Captured(lines, names)[k], MdEnd)
  {
  }

  /** The management discussion never contains the Q&A heading. */
  lemma ManagementDiscussionExcludesQna(names: set<string>, text: string)
    ensures !Contains(ManagementDiscussionOf(names, text), MdEnd)
  {
    var c := Captured(SplitLines(text), names);
    CapturedShape(SplitLines(text), names);
    MdEndIsOneLine();
    JoinNoContains(c, '\n', MdEnd);
    StripNoContains(Join(c, "\n"), MdEnd);
  }

  /** The heading that ends the discussion holds no line break. */
  lemma MdEndIsOneLine()
    ensures |MdEnd| > 0 && forall k :: 0 <= k < |MdEnd| ==> MdEnd[k] != '\n'
  {
  }

  /** The loop of `_extract_management_discussion`, driven by the flags `is_past_operator_intro` and `is_in_discussion`. */
  method CaptureLines(lines: seq<string>, isOperator: string -> bool, isName: string -> bool, isEnd: string -> bool)
    returns (section: seq<string>)
    ensures section == CapturedBy(lines, isOperator, isName, isEnd)
  {
    section := [];
    var isPastOperatorIntro := false;
    var isInDiscussion := false;
    ghost var o := FirstFrom(lines, 0, isOperator);
    ghost var s := if o < |lines| then FirstFrom(lines, o + 1, isName) else |lines|;
    var i := 0;
    while i < |lines|
      invariant 0 <= i <= |lines|
      invariant isPastOperatorIntro <==> o < i
      invariant isInDiscussion <==> o < i && s < i
      invariant isInDiscussion ==> section == lines[s..i] && FirstFrom(lines, s, isEnd) >= i
      invariant !isInDiscussion ==> section == []
    {
      var line := lines[i];
      if !isPastOperatorIntro {
        if isOperator(line) {
          assert o == i;
          isPastOperatorIntro := true;
        } else {
          assert o != i;
        }
      } else {
        if isName(line) && !isInDiscussion {
          assert s == i;
          isInDiscussion := true;
        }
        if isInDiscussion {
          if isEnd(line) {
            assert FirstFrom(lines, s, isEnd) == i;
            break;
          }
          assert FirstFrom(lines, s, isEnd) != i;
          section := section + [line];
        } else {
          assert s != i;
        }
      }
      i := i + 1;
    }
  }

  /** `_extract_management_discussion`: the captured lines joined with newlines and stripped. */
  method ExtractManagementDiscussion(p: Participants, text: string) returns (r: string)
    ensures r == ManagementDiscussionOf(p.company.Keys, text)
  {
    var section := CaptureLines(SplitLines(text), IsOperatorLine, IsNameLine(p.company.Keys), IsEndLine);
    r := Strip(Join(section, "\n"));
  }

  /** One management-discussion turn. */
  datatype DiscussionItem = DiscussionItem(content: string, speaker: string, role: string, company: Company)

  /** The local state of `_split_management_discussion_section`. */
  datatype TurnState = TurnState(entries: map<nat, DiscussionItem>, entryIndex: nat, speaker: Option<string>)

  /** A turn as the company roster says: a company participant with that participant's roles, at the bank. */
  ghost predicate TurnOk(company: map<string, string>, it: DiscussionItem) {
    it.speaker in company && it.role == company[it.speaker] && it.company == Bank(GOLDMAN_SACHS)
  }

  /** The invariant of the loop of `_split_management_discussion_section`. */
  ghost predicate TurnsValid(company: map<string, string>, st: TurnState) {
    && Indexed(st.entries)
    && (forall e :: e in st.entries ==> TurnOk(company, st.entries[e]))
    && (st.entries == map[] ==> st.entryIndex == 0 && st.speaker == None)
    && (st.entries != map[] ==> |st.entries| == st.entryIndex + 1 && st.speaker.Some?)
  }

  /** A stripped line that opens a turn: not blank and a company participant's name. */
  predicate IsTurnLine(company: map<string, string>, line: string) {
    line != [] && line in company
  }

  /** A line naming a company participant opens the next turn, keyed after the current one. */
  function OpenTurn(company: map<string, string>, st: TurnState, line: string): (r: TurnState)
    requires TurnsValid(company, st) && IsTurnLine(company, line)
    ensures TurnsValid(company, r)
    ensures r.entryIndex == |st.entries| && r.speaker == Some(line)
    ensures r.entries == st.entries[|st.entries| := DiscussionItem("", line, company[line], Bank(GOLDMAN_SACHS))]
  {
    var e := if st.entries != map[] then st.entryIndex + 1 else st.entryIndex;
    IndexedExtend(st.entries, DiscussionItem("", line, company[line], Bank(GOLDMAN_SACHS)));
    TurnState(st.entries[e := DiscussionItem("", line, company[line], Bank(GOLDMAN_SACHS))], e, Some(line))
  }

  /** Any other line is appended, after a space, to the current turn's content. */
  function AppendTurn(company: map<string, string>, st: TurnState, line: string): (r: TurnState)
    requires TurnsValid(company, st) && st.speaker.Some?
    ensures TurnsValid(company, r)
    ensures r.entryIndex == st.entryIndex && r.speaker == st.speaker && st.entryIndex in st.entries
    ensures r.entries == st.entries[st.entryIndex := st.entries[st.entryIndex].(content := st.entries[st.entryIndex].content + " " + line)]
  {
    var it := st.entries[st.entryIndex];
    assert st.entries[st.entryIndex := it.(content := it.content + " " + line)].Keys == st.entries.Keys;
    st.(entries := st.entries[st.entryIndex := it.(content := it.content + " " + line)])
  }

  /** One pass of the loop of `_split_management_discussion_section` on a stripped line. */
  function TurnStep(company: map<string, string>, st: TurnState, line: string): (r: TurnState)
    requires TurnsValid(company, st)
    ensures TurnsValid(company, r)
  {
    if line == [] then st
    else if line in company then OpenTurn(company, st, line)
    else if st.speaker.Some? then AppendTurn(company, st, line)
    else st
  }

  /** The loop of `_split_management_discussion_section` over the stripped lines. */
  function TurnFold(company: map<string, string>, lines: seq<string>): (r: TurnState)
    ensures TurnsValid(company, r)
  {
    if lines == [] then TurnState(map[], 0, None)
    else TurnStep(company, TurnFold(company, lines[..|lines| - 1]), lines[|lines| - 1])
  }

  /** What `_split_management_discussion_section` returns. */
  function SplitDiscussion(company: map<string, string>, text: string): map<nat, DiscussionItem> {
    TurnFold(company, StrippedLines(SplitLines(text))).entries
  }

  /** The number of lines that open a turn. */
  function TurnLineCount(company: map<string, string>, lines: seq<string>): nat {
    if lines == [] then 0
    else TurnLineCount(company, lines[..|lines| - 1]) + if IsTurnLine(company, lines[|lines| - 1]) then 1 else 0
  }

  /** One turn per line naming a company participant, keyed 0, 1, ..., each as the company roster says. */
  lemma {:induction false} TurnFoldCount(company: map<string, string>, lines: seq<string>)
    ensures |TurnFold(company, lines).entries| == TurnLineCount(company, lines)
  {
    if lines != [] {
      var init := lines[..|lines| - 1];
      var st := TurnFold(company, init);
      var line := lines[|lines| - 1];
      TurnFoldCount(company, init);
      if IsTurnLine(company, line) {
        var e := if st.entries != map[] then st.entryIndex + 1 else st.entryIndex;
        assert e !in st.entries;
      } else if line != [] && st.speaker.Some? {
        var it := st.entries[st.entryIndex];
        assert st.entries[st.entryIndex := it.(content := it.content + " " + line)].Keys == st.entries.Keys;
      }
    }
  }

  /** The turns of a discussion text: keys 0, 1, ..., one per speaker line, each a company participant at the bank. */
  lemma DiscussionShape(company: map<string, string>, lines: seq<string>)
    ensures Indexed(TurnFold(company, lines).entries)
    ensures |TurnFold(company, lines).entries| == TurnLineCount(company, lines)
    ensures forall e :: e in TurnFold(company, lines).entries ==> TurnOk(company, TurnFold(company, lines).entries[e])
  {
    TurnFoldCount(company, lines);
  }

  lemma TurnFoldAt(company: map<string, string>, lines: seq<string>, i: nat)
    requires i < |lines|
    ensures TurnFold(company, lines[..i + 1]) == TurnStep(company, TurnFold(company, lines[..i]), lines[i])
  {
    assert lines[..i + 1][..i] == lines[..i];
  }

  /** `_split_management_discussion_section`: the discussion turns, keyed 0, 1, .... */
  method SplitManagementDiscussionSection(p: Participants, managementDiscussionText: string)
    returns (managementDiscussion: map<nat, DiscussionItem>)
    ensures managementDiscussion == SplitDiscussion(p.company, managementDiscussionText)
  {
    var lines := SplitLines(managementDiscussionText);
    managementDiscussion := TurnLines(p.company, lines);
  }

  /** The loop of `_split_management_discussion_section` over the lines of the text. */
  method TurnLines(company: map<string, string>, lines: seq<string>) returns (managementDiscussion: map<nat, DiscussionItem>)
    ensures managementDiscussion == TurnFold(company, StrippedLines(lines)).entries
  {
    managementDiscussion := map[];
    var entryIndex := 0;
    var currentSpeaker: Option<string> := None;
    ghost var all := StrippedLines(lines);
    var i := 0;
    while i < |lines|
      invariant 0 <= i <= |lines|
      invariant TurnState(managementDiscussion, entryIndex, currentSpeaker) == TurnFold(company, all[..i])
    {
      TurnFoldAt(company, all, i);
      var line := Strip(lines[i]);
      assert line == all[i];
      managementDiscussion, entryIndex, currentSpeaker := TurnLine(company, managementDiscussion, entryIndex, currentSpeaker, line);
      i := i + 1;
    }
    assert all[..i] == all;
  }

  /** One pass of the loop of `_split_management_discussion_section`, on a stripped line. */
  method TurnLine(company: map<string, string>, managementDiscussion: map<nat, DiscussionItem>, entryIndex: nat,
                  currentSpeaker: Option<string>, line: string)
    returns (managementDiscussion': map<nat, DiscussionItem>, entryIndex': nat, currentSpeaker': Option<string>)
    requires TurnsValid(company, TurnState(managementDiscussion, entryIndex, currentSpeaker))
    ensures TurnState(managementDiscussion', entryIndex', currentSpeaker')
              == TurnStep(company, TurnState(managementDiscussion, entryIndex, currentSpeaker), line)
  {
    ghost var st := TurnState(managementDiscussion, entryIndex, currentSpeaker);
    managementDiscussion', entryIndex', currentSpeaker' := managementDiscussion, entryIndex, currentSpeaker;
    if line == [] {
    } else if line in company {
      currentSpeaker' := Some(line);
      if managementDiscussion' != map[] {
        entryIndex' := entryIndex' + 1;
      }
      managementDiscussion' := managementDiscussion'[entryIndex' := DiscussionItem("", line, company[line], Bank(GOLDMAN_SACHS))];
      assert TurnState(managementDiscussion', entryIndex', currentSpeaker') == OpenTurn(company, st, line);
    } else if currentSpeaker'.Some? {
      var it := managementDiscussion'[entryIndex'];
      managementDiscussion' := managementDiscussion'[entryIndex' := it.(content := it.content + " " + line)];
      assert TurnState(managementDiscussion', entryIndex', currentSpeaker') == AppendTurn(company, st, line);
    }
  }

  // ------------------------------------------------------------------ Q&A rows

  /** One row of the frame `get_qna_df` builds. */
  datatype QnaRow = QnaRow(questionOrder: nat, groupId: nat, speaker: string, role: Option<string>, company: Company,
                           contentType: ContentType, content: string, quarter: int, year: int)

  /** The row for entry `e` of group `g`, stamped with the quarter and the year. */
  function RowOf(g: nat, e: nat, it: QnaItem, quarter: int, year: int): QnaRow {
    QnaRow(e, g, it.speaker, it.role, it.company, it.contentType, it.content, quarter, year)
  }

  /** Groups and entries keyed 0, 1, ..., as `_split_qna_section` produces them. */
  ghost predicate AllIndexed(groups: map<nat, map<nat, QnaItem>>) {
    Indexed(groups) && forall g :: g in groups ==> Indexed(groups[g])
  }

  /** The rows of entries 0, ..., k - 1 of group `g`, entry by entry (dictionary insertion order). */
  function EntryRows(g: nat, group: map<nat, QnaItem>, k: nat, quarter: int, year: int): seq<QnaRow> {
    if k == 0 then []
    else EntryRows(g, group, k - 1, quarter, year) + if k - 1 in group then [RowOf(g, k - 1, group[k - 1], quarter, year)] else []
  }

  /** The rows of group `g`, or none when there is no such group. */
  function GroupRows(groups: map<nat, map<nat, QnaItem>>, g: nat, quarter: int, year: int): seq<QnaRow> {
    if g in groups then EntryRows(g, groups[g], |groups[g]|, quarter, year) else []
  }

  /** The rows of the first `n` groups, group by group (dictionary insertion order). */
  function FlatRows(groups: map<nat, map<nat, QnaItem>>, n: nat, quarter: int, year: int): seq<QnaRow> {
    if n == 0 then []
    else FlatRows(groups, n - 1, quarter, year) + GroupRows(groups, n - 1, quarter, year)
  }

  /** Every row is the stamped entry at its group id and question order. */
  predicate RowFrom(groups: map<nat, map<nat, QnaItem>>, r: QnaRow, quarter: int, year: int) {
    r.groupId in groups && r.questionOrder in groups[r.groupId]
    && r == RowOf(r.groupId, r.questionOrder, groups[r.groupId][r.questionOrder], quarter, year)
  }

  /** Row `a` comes strictly before row `b` in group-then-entry order. */
  predicate Precedes(a: QnaRow, b: QnaRow) {
    a.groupId < b.groupId || (a.groupId == b.groupId && a.questionOrder < b.questionOrder)
  }

  predicate InOrder(rows: seq<QnaRow>) {
    forall i, j :: 0 <= i < j < |rows| ==> Precedes(rows[i], rows[j])
  }

  /** The rows of one group are stamped entries of that group, below `k`, in increasing entry order. */
  lemma {:induction false} EntryRowsFrom(g: nat, group: map<nat, QnaItem>, k: nat, quarter: int, year: int)
    ensures forall i :: 0 <= i < |EntryRows(g, group, k, quarter, year)| ==>
              RowFrom(map[g := group], EntryRows(g, group, k, quarter, year)[i], quarter, year)
              && EntryRows(g, group, k, quarter, year)[i].groupId == g
              && EntryRows(g, group, k, quarter, year)[i].questionOrder < k
    ensures InOrder(EntryRows(g, group, k, quarter, year))
  {
    if k > 0 {
      EntryRowsFrom(g, group, k - 1, quarter, year);
      var front := EntryRows(g, group, k - 1, quarter, year);
      var r := EntryRows(g, group, k, quarter, year);
      assert forall i :: 0 <= i < |front| ==> r[i] == front[i];
    }
  }

  /** With entries 0, ..., k - 1 all present, entry `e`'s row is the `e`-th. */
  lemma {:induction false} EntryRowsIndexed(g: nat, group: map<nat, QnaItem>, k: nat, quarter: int, year: int)
    requires forall e: nat :: e < k ==> e in group
    ensures |EntryRows(g, group, k, quarter, year)| == k
    ensures forall e :: 0 <= e < k ==> EntryRows(g, group, k, quarter, year)[e] == RowOf(g, e, group[e], quarter, year)
  {
    if k > 0 {
      EntryRowsIndexed(g, group, k - 1, quarter, year);
    }
  }

  /** Each row of the first `n` groups is the stamped entry at its group id and question order. */
  lemma {:induction false} FlatRowAt(groups: map<nat, map<nat, QnaItem>>, n: nat, quarter: int, year: int, i: nat)
    requires i < |FlatRows(groups, n, quarter, year)|
    ensures RowFrom(groups, FlatRows(groups, n, quarter, year)[i], quarter, year)
    ensures FlatRows(groups, n, quarter, year)[i].groupId < n
    decreases n
  {
    assert n > 0;
    var front := FlatRows(groups, n - 1, quarter, year);
    var back := GroupRows(groups, n - 1, quarter, year);
    var rows := FlatRows(groups, n, quarter, year);
    assert rows == front + back;
    if i < |front| {
      FlatRowAt(groups, n - 1, quarter, year, i);
      assert rows[i] == front[i];
    } else {
      assert n - 1 in groups;
      EntryRowsFrom(n - 1, groups[n - 1], |groups[n - 1]|, quarter, year);
      assert rows[i] == back[i - |front|];
    }
  }

  /** The rows of the first `n` groups are in strictly increasing group-then-entry order. */
  lemma {:induction false} FlatRowsOrder(groups: map<nat, map<nat, QnaItem>>, n: nat, quarter: int, year: int, i: nat, j: nat)
    requires i < j < |FlatRows(groups, n, quarter, year)|
    ensures Precedes(FlatRows(groups, n, quarter, year)[i], FlatRows(groups, n, quarter, year)[j])
    decreases n
  {
    assert n > 0;
    var front := FlatRows(groups, n - 1, quarter, year);
    var back := GroupRows(groups, n - 1, quarter, year);
    var rows := FlatRows(groups, n, quarter, year);
    assert rows == front + back;
    if j < |front| {
      FlatRowsOrder(groups, n - 1, quarter, year, i, j);
      assert rows[i] == front[i] && rows[j] == front[j];
    } else {
      assert n - 1 in groups;
      EntryRowsFrom(n - 1, groups[n - 1], |groups[n - 1]|, quarter, year);
      if i < |front| {
        FlatRowAt(groups, n - 1, quarter, year, i);
        assert rows[i] == front[i] && rows[j] == back[j - |front|];
      } else {
        assert rows[i] == back[i - |front|] && rows[j] == back[j - |front|];
      }
    }
  }

  /** All rows come from the groups, in strictly increasing group-then-entry order. */
  lemma FlatRowsShape(groups: map<nat, map<nat, QnaItem>>, quarter: int, year: int)
    ensures forall i :: 0 <= i < |FlatRows(groups, |groups|, quarter, year)| ==>
              RowFrom(groups, FlatRows(groups, |groups|, quarter, year)[i], quarter, year)
    ensures InOrder(FlatRows(groups, |groups|, quarter, year))
  {
    var rows := FlatRows(groups, |groups|, quarter, year);
    forall i | 0 <= i < |rows|
      ensures RowFrom(groups, rows[i], quarter, year)
    {
      FlatRowAt(groups, |groups|, quarter, year, i);
    }
    forall i, j | 0 <= i < j < |rows|
      ensures Precedes(rows[i], rows[j])
    {
      FlatRowsOrder(groups, |groups|, quarter, year, i, j);
    }
  }

  /** The number of rows with group id `g`: pandas' `value_counts()` for `g`. */
  function GroupCount(rows: seq<QnaRow>, g: nat): nat {
    if rows == [] then 0
    else GroupCount(rows[..|rows| - 1], g) + if rows[|rows| - 1].groupId == g then 1 else 0
  }

  lemma {:induction false} GroupCountAppend(a: seq<QnaRow>, b: seq<QnaRow>, g: nat)
    ensures GroupCount(a + b, g) == GroupCount(a, g) + GroupCount(b, g)
    decreases |b|
  {
    if b != [] {
      assert (a + b)[..|a + b| - 1] == a + b[..|b| - 1];
      GroupCountAppend(a, b[..|b| - 1], g);
    } else {
      assert a + b == a;
    }
  }

  lemma {:induction false} GroupCountSame(rows: seq<QnaRow>, g: nat)
    requires forall i :: 0 <= i < |rows| ==> rows[i].groupId == g
    ensures GroupCount(rows, g) == |rows|
  {
    if rows != [] {
      GroupCountSame(rows[..|rows| - 1], g);
    }
  }

  lemma {:induction false} GroupCountNone(rows: seq<QnaRow>, g: nat)
    requires forall i :: 0 <= i < |rows| ==> rows[i].groupId != g
    ensures GroupCount(rows, g) == 0
  {
    if rows != [] {
      GroupCountNone(rows[..|rows| - 1], g);
    }
  }

  /** Every row of group `g` carries the group id `g`. */
  lemma GroupRowsIds(groups: map<nat, map<nat, QnaItem>>, g: nat, quarter: int, year: int)
    ensures forall i :: 0 <= i < |GroupRows(groups, g, quarter, year)| ==> GroupRows(groups, g, quarter, year)[i].groupId == g
  {
    if g in groups {
      EntryRowsFrom(g, groups[g], |groups[g]|, quarter, year);
    }
  }

  /** Each of the first `n` groups contributes exactly its own rows to the flattened rows. */
  lemma {:induction false} FlatRowsCount(groups: map<nat, map<nat, QnaItem>>, n: nat, quarter: int, year: int, g: nat)
    ensures GroupCount(FlatRows(groups, n, quarter, year), g) == if g < n then |GroupRows(groups, g, quarter, year)| else 0
    decreases n
  {
    if n > 0 {
      FlatRowsCount(groups, n - 1, quarter, year, g);
      var front := FlatRows(groups, n - 1, quarter, year);
      var back := GroupRows(groups, n - 1, quarter, year);
      assert FlatRows(groups, n, quarter, year) == front + back;
      GroupCountAppend(front, back, g);
      GroupRowsIds(groups, n - 1, quarter, year);
      if g == n - 1 {
        GroupCountSame(back, g);
        assert GroupCount(front, g) == 0 && GroupCount(back, g) == |back|;
      } else {
        GroupCountNone(back, g);
        assert GroupCount(back, g) == 0;
      }
    }
  }

  /** With keys 0, 1, ... a group's rows are exactly its entries, so group `g` has `|groups[g]|` rows. */
  lemma GroupSize(groups: map<nat, map<nat, QnaItem>>, quarter: int, year: int, g: nat)
    requires AllIndexed(groups)
    ensures GroupCount(FlatRows(groups, |groups|, quarter, year), g) == if g in groups then |groups[g]| else 0
  {
    FlatRowsCount(groups, |groups|, quarter, year, g);
    if g in groups {
      EntryRowsIndexed(g, groups[g], |groups[g]|, quarter, year);
    }
  }

  /** The rows of `rows` whose group has more than one row in `all`, in order. */
  function KeepMulti(rows: seq<QnaRow>, all: seq<QnaRow>): (r: seq<QnaRow>)
    ensures forall x :: x in r <==> x in rows && GroupCount(all, x.groupId) > 1
  {
    if rows == [] then []
    else
      var init := KeepMulti(rows[..|rows| - 1], all);
      var last := rows[|rows| - 1];
      assert rows == rows[..|rows| - 1] + [last];
      init + if GroupCount(all, last.groupId) > 1 then [last] else []
  }

  /** `df[df["question_answer_group_id"].isin(counts[counts > 1].index)]`: drops the groups with a single row. */
  function DropSingleGroups(rows: seq<QnaRow>): seq<QnaRow> {
    KeepMulti(rows, rows)
  }

  /** The filter keeps the rows it keeps in their original relative order. */
  lemma {:induction false} KeepMultiOrder(rows: seq<QnaRow>, all: seq<QnaRow>)
    requires InOrder(rows)
    ensures InOrder(KeepMulti(rows, all))
  {
    if rows != [] {
      var init := rows[..|rows| - 1];
      var last := rows[|rows| - 1];
      assert forall i :: 0 <= i < |init| ==> init[i] == rows[i];
      KeepMultiOrder(init, all);
      var kept := KeepMulti(init, all);
      forall x | x in kept
        ensures Precedes(x, last)
      {
        var i :| 0 <= i < |init| && init[i] == x;
      }
      var r := KeepMulti(rows, all);
      forall i, j | 0 <= i < j < |r|
        ensures Precedes(r[i], r[j])
      {
        if j < |kept| {
          assert r[i] == kept[i] && r[j] == kept[j];
        } else {
          assert r[i] == kept[i] && r[i] in kept && r[j] == last;
        }
      }
    }
  }

  /** The rows a frame keeps: exactly those of groups with more than one row, in their original order. */
  lemma DropSingleGroupsSpec(rows: seq<QnaRow>)
    requires InOrder(rows)
    ensures forall x :: x in DropSingleGroups(rows) <==> x in rows && GroupCount(rows, x.groupId) > 1
    ensures InOrder(DropSingleGroups(rows))
  {
    KeepMultiOrder(rows, rows);
  }

  /** The inner loop of `get_qna_df`: one row per entry of group `g`, appended in entry order. */
  method AppendGroupRows(rows: seq<QnaRow>, g: nat, qnas: map<nat, QnaItem>, quarter: int, year: int)
    returns (r: seq<QnaRow>)
    requires Indexed(qnas)
    ensures r == rows + EntryRows(g, qnas, |qnas|, quarter, year)
  {
    r := rows;
    var e := 0;
    while e < |qnas|
      invariant 0 <= e <= |qnas|
      invariant r == rows + EntryRows(g, qnas, e, quarter, year)
    {
      r := r + [RowOf(g, e, qnas[e], quarter, year)];
      e := e + 1;
    }
  }

  /** `for question_answer_group_id, qnas in extracted_qna.items(): for question_order, ... in qnas.items()`. */
  method FlattenQna(groups: map<nat, map<nat, QnaItem>>, quarter: int, year: int) returns (rows: seq<QnaRow>)
    requires AllIndexed(groups)
    ensures rows == FlatRows(groups, |groups|, quarter, year)
  {
    rows := [];
    var g := 0;
    while g < |groups|
      invariant 0 <= g <= |groups|
      invariant rows == FlatRows(groups, g, quarter, year)
    {
      assert g in groups;
      rows := AppendGroupRows(rows, g, groups[g], quarter, year);
      g := g + 1;
    }
  }

  /** `get_qna`: the Q&A section of the transcript, grouped. */
  method GetQna(p: Participants, text: string) returns (groups: map<nat, map<nat, QnaItem>>)
    requires DistinctNames(p)
    ensures groups == SplitQna(p, ExtractQnaSection(text))
    ensures AllIndexed(groups) && forall g :: g in groups ==> GroupOk(p, groups[g])
  {
    groups := SplitQnaSection(p, ExtractQnaSection(text));
    QnaGroupsShape(p, ExtractQnaSection(text));
  }

  /** `get_discussion`: the management discussion of the transcript, split into turns. */
  method GetDiscussion(p: Participants, text: string) returns (turns: map<nat, DiscussionItem>)
    ensures turns == SplitDiscussion(p.company, ManagementDiscussionOf(p.company.Keys, text))
    ensures Indexed(turns) && forall e :: e in turns ==> TurnOk(p.company, turns[e])
  {
    var section := ExtractManagementDiscussion(p, text);
    turns := SplitManagementDiscussionSection(p, section);
    DiscussionShape(p.company, StrippedLines(SplitLines(section)));
  }

  /** The rows `get_qna_df` returns. */
  function QnaFrame(p: Participants, text: string, quarter: int, year: int): seq<QnaRow>
    requires DistinctNames(p)
  {
    var groups := SplitQna(p, ExtractQnaSection(text));
    DropSingleGroups(FlatRows(groups, |groups|, quarter, year))
  }

  /** A Q&A group's entry survives `get_qna_df` exactly when its group has more than one entry. */
  lemma {:induction false} EntryRowsHas(g: nat, group: map<nat, QnaItem>, k: nat, quarter: int, year: int, e: nat)
    requires e < k && e in group
    ensures RowOf(g, e, group[e], quarter, year) in EntryRows(g, group, k, quarter, year)
  {
    if e < k - 1 {
      EntryRowsHas(g, group, k - 1, quarter, year, e);
    }
  }

  lemma {:induction false} FlatRowsHas(groups: map<nat, map<nat, QnaItem>>, n: nat, quarter: int, year: int, g: nat, e: nat)
    requires g < n && g in groups && e < |groups[g]| && e in groups[g]
    ensures RowOf(g, e, groups[g][e], quarter, year) in FlatRows(groups, n, quarter, year)
  {
    var row := RowOf(g, e, groups[g][e], quarter, year);
    var front := FlatRows(groups, n - 1, quarter, year);
    var back := GroupRows(groups, n - 1, quarter, year);
    assert FlatRows(groups, n, quarter, year) == front + back;
    if g < n - 1 {
      FlatRowsHas(groups, n - 1, quarter, year, g, e);
      assert row in front;
    } else {
      EntryRowsHas(g, groups[g], |groups[g]|, quarter, year, e);
      assert row in back;
    }
  }

  /** Every row of the frame is a stamped entry of a group with more than one entry, every entry of such a
      group has its row, and the rows are in group-then-entry order. */
  lemma QnaFrameShape(p: Participants, text: string, quarter: int, year: int)
    requires DistinctNames(p)
    ensures forall r :: r in QnaFrame(p, text, quarter, year) ==>
              var groups := SplitQna(p, ExtractQnaSection(text));
              RowFrom(groups, r, quarter, year) && |groups[r.groupId]| > 1
    ensures forall g, e :: (g in SplitQna(p, ExtractQnaSection(text)) && e in SplitQna(p, ExtractQnaSection(text))[g]
                            && |SplitQna(p, ExtractQnaSection(text))[g]| > 1) ==>
              RowOf(g, e, SplitQna(p, ExtractQnaSection(text))[g][e], quarter, year) in QnaFrame(p, text, quarter, year)
    ensures InOrder(QnaFrame(p, text, quarter, year))
  {
    var groups := SplitQna(p, ExtractQnaSection(text));
    var rows := FlatRows(groups, |groups|, quarter, year);
    QnaGroupsShape(p, ExtractQnaSection(text));
    FlatRowsShape(groups, quarter, year);
    DropSingleGroupsSpec(rows);
    forall r | r in QnaFrame(p, text, quarter, year)
      ensures RowFrom(groups, r, quarter, year) && |groups[r.groupId]| > 1
    {
      GroupSize(groups, quarter, year, r.groupId);
    }
    forall g, e | g in groups && e in groups[g] && |groups[g]| > 1
      ensures RowOf(g, e, groups[g][e], quarter, year) in QnaFrame(p, text, quarter, year)
    {
      GroupSize(groups, quarter, year, g);
      FlatRowsHas(groups, |groups|, quarter, year, g, e);
    }
  }

  /** `get_qna_df`: flatten the groups into stamped rows, then drop the groups with a single row. */
  method GetQnaDf(p: Participants, text: string, quarter: int, year: int) returns (rows: seq<QnaRow>)
    requires DistinctNames(p)
    ensures rows == QnaFrame(p, text, quarter, year)
  {
    var extracted := GetQna(p, text);
    var formatted := FlattenQna(extracted, quarter, year);
    rows := DropSingleGroups(formatted);
  }
}
