/**
 * The JP Morgan transcript extractor: blocks separated by dotted page rules, a speaker
 * line and a role line at the head of each block, a lexical corrector for the role line,
 * and Q&A groups delimited by operator blocks.
 */
module JpMorgan {
  import opened Wrappers
  import opened Text
  import opened Constants

  // ------------------------------------------------------------------ role correction

  /** A replacement rule: a non-empty misspelling and its correction. */
  type Rule = r: (string, string) | |r.0| > 0 witness ("?", "")

  /**
   * `_misspelt_roles_dict` in its iteration order. The literal repeats the keys
   * "M ember" and "Amer ica" with the same values; a Python dict keeps each key once, at
   * its first position, so they appear here once.
   */
  const RolesTable: seq<Rule> := CommonRules + [("Chairman & Chief Executive Officer", "Chief Executive Officer")]

  /** All rules but the last, in order. */
  const CommonRules: seq<Rule> := Rules1 + Rules2 + Rules3 + Rules4 + Rules5 + Rules6 + Rules7 + Rules8

  // The table is written in pieces of eight rules each.
  const Rules1: seq<Rule> := [
      ("  ", " "),
      (" ,", ","),
      ("Of ficer", "Officer"),
      ("Financ ial", "Financial"),
      ("Morg an", "Morgan"),
      ("Finan cial", "Financial"),
      ("Fina ncial", "Financial"),
      ("Fin ancial", "Financial")
    ]
  const Rules2: seq<Rule> := [
      ("Analy st", "Analyst"),
      ("Cha irman", "Chairman"),
      ("JPMo rgan", "JPMorgan"),
      ("JPMorganChase", "JPMorgan Chase & Co."),
      ("JPMorga n", "JPMorgan"),
      ("JP Morgan", "JPMorgan"),
      ("Off icer", "Officer"),
      ("JPMor gan", "JPMorgan")
    ]
  const Rules3: seq<Rule> := [
      ("JPM organ", "JPMorgan"),
      ("Chair man", "Chairman"),
      ("Membe r", "Member"),
      ("-O", "O"),
      ("Membe rOperating", "Member Operating"),
      ("M ember", "Member"),
      ("Offi cer", "Officer"),
      ("& C o", "& Co")
    ]
  const Rules4: seq<Rule> := [
      ("Chas e", "Chase"),
      ("C hief", "Chief"),
      ("Oper ating", "Operating"),
      ("Comm ittee", "Committee"),
      ("Execut ive", "Executive"),
      ("Financia l", "Financial"),
      ("Ch ief", "Chief"),
      ("Co .", "Co.")
    ]
  const Rules5: seq<Rule> := [
      ("Officer ,", "Officer,"),
      ("Financi al", "Financial"),
      ("MemberOperating", "Member Operating"),
      ("Chie f", "Chief"),
      ("Mor gan", "Morgan"),
      ("M organ", "Morgan"),
      ("C apital", "Capital"),
      ("Ev ercore", "Evercore")
    ]
  const Rules6: seq<Rule> := [
      ("Ever core", "Evercore"),
      ("Evercor e", "Evercore"),
      ("Ame rica", "America"),
      ("Amer ica", "America"),
      ("P ortales", "Portales"),
      ("Po rtales", "Portales"),
      ("Seapor t", "Seaport"),
      ("Seap ort", "Seaport")
    ]
  const Rules7: seq<Rule> := [
      ("Farg o", "Fargo"),
      ("Ca pital", "Capital"),
      ("Ba nk", "Bank"),
      ("Secur ities", "Securities"),
      ("Well s", "Wells"),
      ("In c", "Inc"),
      ("Autono mous", "Autonomous"),
      ("Auton omous", "Autonomous")
    ]
  const Rules8: seq<Rule> := [
      ("S ecurities", "Securities"),
      ("M errill", "Merrill"),
      ("Inc .", "Inc."),
      ("Deutsc he", "Deutsche"),
      (CfoRole, CfoCorrected)
    ]

  // The longest rule, named so that its key is checked non-empty without spelling it out.
  const CfoRole := "Chief Financial Officer & Member " + "Operating Committee, JPMorgan " + "Chase & Co."
  const CfoCorrected := "Chief Financial Officer, JPMorgan " + "Chase & Co."

  /** The loop of `_correct_role_spelling`: each rule in table order, replacing all occurrences when present. */
  function ApplyRules(rules: seq<Rule>, s: string): string
    decreases |rules|
  {
    if rules == [] then s
    else
      var next := if Contains(s, rules[0].0) then ReplaceAll(s, rules[0].0, rules[0].1) else s;
      ApplyRules(rules[1..], next)
  }

  /** What `_correct_role_spelling` returns when the extractor's table is `table`. */
  function CorrectedRole(table: seq<Rule>, role: string): string {
    Strip(ApplyRules(table, Strip(role)))
  }

  /** `_correct_role_spelling`, reading the extractor's table `_misspelt_roles_dict`. */
  method CorrectRoleSpelling(roleName: string) returns (r: string)
    ensures r == CorrectedRole(RolesTable, roleName)
    ensures IsStripped(r)
  {
    r := CorrectSpelling(RolesTable, roleName);
  }

  /** The body of `_correct_role_spelling` for a given table. */
  method CorrectSpelling(table: seq<Rule>, roleName: string) returns (r: string)
    ensures r == CorrectedRole(table, roleName)
    ensures IsStripped(r)
  {
    r := Strip(roleName);
    var i := 0;
    while i < |table|
      invariant 0 <= i <= |table|
      invariant ApplyRules(table[i..], r) == ApplyRules(table, Strip(roleName))
    {
      var rule := table[i];
      if Contains(r, rule.0) {
        r := ReplaceAll(r, rule.0, rule.1);
      }
      assert table[i..][1..] == table[i + 1..];
      i := i + 1;
    }
    r := Strip(r);
    StripIsStripped(ApplyRules(table, Strip(roleName)));
  }

  /** Rules whose misspelling does not occur leave the text alone. */
  lemma {:induction false} ApplyRulesNoKey(rules: seq<Rule>, s: string)
    requires forall k :: 0 <= k < |rules| ==> !Contains(s, rules[k].0)
    ensures ApplyRules(rules, s) == s
    decreases |rules|
  {
    if rules != [] {
      ApplyRulesNoKey(rules[1..], s);
    }
  }

  /** A role containing no misspelling comes back stripped and otherwise unchanged. */
  lemma CorrectedRoleNoKey(role: string)
    requires forall k :: 0 <= k < |RolesTable| ==> !Contains(Strip(role), RolesTable[k].0)
    ensures CorrectedRole(RolesTable, role) == Strip(role)
  {
    ApplyRulesNoKey(RolesTable, Strip(role));
    StripIdempotent(role);
  }

  /** Applying two tables one after the other is applying their concatenation. */
  lemma {:induction false} ApplyRulesAppend(a: seq<Rule>, b: seq<Rule>, s: string)
    ensures ApplyRules(a + b, s) == ApplyRules(b, ApplyRules(a, s))
    decreases |a|
  {
    if a == [] {
      assert a + b == b;
    } else {
      var next := if Contains(s, a[0].0) then ReplaceAll(s, a[0].0, a[0].1) else s;
      assert (a + b)[0] == a[0] && (a + b)[1..] == a[1..] + b;
      assert ApplyRules(a + b, s) == ApplyRules(a[1..] + b, next);
      ApplyRulesAppend(a[1..], b, next);
    }
  }

  /** The table split where the rule for "Co ." sits. */
  lemma RolesTableParts()
    ensures RolesTable == Rules1 + Rules2 + Rules3 + Rules4[..7] + [Rules4[7]] + Rules5 + Rules6 + Rules7 + Rules8
                          + [RolesTable[|RolesTable| - 1]]
    ensures Rules4[7] == ("Co .", "Co.") && Rules1[0] == ("  ", " ")
  {
    assert Rules4 == Rules4[..7] + [Rules4[7]];
  }

  /** A misspelling ending in a character the text lacks does not occur in it. */
  lemma AbsentChar(s: string, p: string)
    requires p != [] && p[|p| - 1] !in s
    ensures !Contains(s, p)
  {
  }

  /**
   * Rules each of whose misspellings is longer than the text, or ends in a character
   * found nowhere in the text, leave the text alone.
   */
  lemma ApplyRulesUnmatched(rules: seq<Rule>, s: string)
    requires forall k :: 0 <= k < |rules| ==> |rules[k].0| > |s| || (rules[k].0 != [] && rules[k].0[|rules[k].0| - 1] !in s)
    ensures ApplyRules(rules, s) == s
  {
    forall k | 0 <= k < |rules|
      ensures !Contains(s, rules[k].0)
    {
      if |rules[k].0| > |s| {
        assert IndexOf(s, rules[k].0, 0).None?;
      } else {
        AbsentChar(s, rules[k].0);
      }
    }
    ApplyRulesNoKey(rules, s);
  }

  /** The double space of "Co  ." collapses to one. */
  lemma DoubleSpaceOnCo()
    ensures ReplaceAll("Co  .", "  ", " ") == "Co ."
  {
    assert ReplaceAll(".", "  ", " ") == ".";
    assert At("  .", 0, "  ") && "  ."[2..] == ".";
    assert ReplaceAll("  .", "  ", " ") == " .";
    assert !At("o  .", 0, "  ") && "o  ."[1..] == "  .";
    assert ReplaceAll("o  .", "  ", " ") == "o .";
    assert !At("Co  .", 0, "  ") && "Co  ."[1..] == "o  .";
  }

  lemma Rules1TailOnCo()
    ensures ApplyRules(Rules1[1..], "Co .") == "Co ."
  {
    ApplyRulesUnmatched(Rules1[1..], "Co .");
  }

  lemma Rules1OnCo()
    ensures ApplyRules(Rules1, "Co  .") == "Co ."
  {
    assert Rules1[0] == ("  ", " ");
    assert At("Co  .", 2, "  ");
    DoubleSpaceOnCo();
    Rules1TailOnCo();
  }

  lemma Rules2OnCo()
    ensures ApplyRules(Rules2, "Co .") == "Co ."
  {
    ApplyRulesUnmatched(Rules2, "Co .");
  }

  lemma Rules3OnCo()
    ensures ApplyRules(Rules3, "Co .") == "Co ."
  {
    ApplyRulesUnmatched(Rules3, "Co .");
  }

  lemma Rules4OnCo()
    ensures ApplyRules(Rules4[..7], "Co .") == "Co ."
  {
    ApplyRulesUnmatched(Rules4[..7], "Co .");
  }

  /** Every rule after the one for "Co ." has a misspelling of four or more characters. */
  lemma LastBlocksOnCo()
    ensures ApplyRules(Rules5 + Rules6 + Rules7 + Rules8 + [RolesTable[|RolesTable| - 1]], "Co.") == "Co."
  {
    ApplyRulesUnmatched(Rules5 + Rules6 + Rules7 + Rules8 + [RolesTable[|RolesTable| - 1]], "Co.");
  }

  lemma CoRuleOnCo()
    ensures ApplyRules([Rules4[7]], "Co .") == "Co."
  {
    RolesTableParts();
    assert At("Co .", 0, "Co .");
    assert ReplaceAll("Co .", "Co .", "Co.") == "Co.";
  }

  /** The first seven rules of the fourth block and the blocks before them, on "Co  .". */
  lemma LeadingBlocksOnCo()
    ensures ApplyRules(Rules1 + Rules2 + Rules3 + Rules4[..7], "Co  .") == "Co ."
  {
    ApplyRulesAppend(Rules1 + Rules2 + Rules3, Rules4[..7], "Co  .");
    ApplyRulesAppend(Rules1 + Rules2, Rules3, "Co  .");
    ApplyRulesAppend(Rules1, Rules2, "Co  .");
    Rules1OnCo();
    Rules2OnCo();
    Rules3OnCo();
    Rules4OnCo();
  }

  /**
   * Rules chain: the double-space rule turns "Co  ." into "Co .", a misspelling the input
   * did not hold, and the later rule for "Co ." then rewrites it, so one call yields "Co.".
   */
  lemma CorrectedRoleChains()
    ensures ReplaceAll("Co  .", "  ", " ") == "Co ." && !Contains("Co  .", "Co .")
    ensures CorrectedRole(RolesTable, "Co  .") == "Co."
  {
    DoubleSpaceOnCo();
    CoAbsentFromCo();
    RolesTableOnCo();
    StripOfStripped("Co  .");
    StripOfStripped("Co.");
  }

  lemma CoAbsentFromCo()
    ensures !Contains("Co  .", "Co .")
  {
    assert "Co  ."[0..4][3] != "Co ."[3];
    assert "Co  ."[1..5][0] != "Co ."[0];
    assert !At("Co  .", 0, "Co .") && !At("Co  .", 1, "Co .");
  }

  lemma RolesTableOnCo()
    ensures ApplyRules(RolesTable, "Co  .") == "Co."
  {
    RolesTableParts();
    var a := Rules1 + Rules2 + Rules3 + Rules4[..7];
    var b := Rules5 + Rules6 + Rules7 + Rules8 + [RolesTable[|RolesTable| - 1]];
    assert RolesTable == a + [Rules4[7]] + b;
    ApplyRulesAppend(a + [Rules4[7]], b, "Co  .");
    ApplyRulesAppend(a, [Rules4[7]], "Co  .");
    LeadingBlocksOnCo();
    CoRuleOnCo();
    LastBlocksOnCo();
  }

  /** Each misspelling of the table is longer than `n` or ends in one of the characters `ends`. */
  predicate LongOrEndsIn(rules: seq<Rule>, n: nat, ends: string) {
    forall k :: 0 <= k < |rules| ==>
      |rules[k].0| > n || (rules[k].0 != [] && rules[k].0[|rules[k].0| - 1] in ends)
  }

  /** Such a table leaves alone a text of at most `n` characters that holds none of `ends`. */
  lemma ApplyRulesAvoiding(rules: seq<Rule>, n: nat, ends: string, s: string)
    requires LongOrEndsIn(rules, n, ends) && |s| <= n
    requires forall c :: c in ends ==> c !in s
    ensures ApplyRules(rules, s) == s
  {
    ApplyRulesUnmatched(rules, s);
  }

  /** The condition holds of a concatenation when it holds of both parts. */
  lemma LongOrEndsInAppend(a: seq<Rule>, b: seq<Rule>, n: nat, ends: string)
    requires LongOrEndsIn(a, n, ends) && LongOrEndsIn(b, n, ends)
    ensures LongOrEndsIn(a + b, n, ends)
  {
    forall k | 0 <= k < |a + b|
      ensures |(a + b)[k].0| > n || ((a + b)[k].0 != [] && (a + b)[k].0[|(a + b)[k].0| - 1] in ends)
    {
      if k >= |a| {
        assert (a + b)[k] == b[k - |a|];
      }
    }
  }

  /** The table without its first rule, block by block. */
  lemma RolesTableRest()
    ensures RolesTable[1..] == Rules1[1..] + Rules2 + Rules3 + Rules4 + Rules5 + Rules6 + Rules7 + Rules8
                               + [RolesTable[|RolesTable| - 1]]
  {
    var rest := Rules2 + Rules3 + Rules4 + Rules5 + Rules6 + Rules7 + Rules8 + [RolesTable[|RolesTable| - 1]];
    assert RolesTable == Rules1 + rest;
    assert (Rules1 + rest)[1..] == Rules1[1..] + rest;
  }

  /** The first four blocks after the double-space rule: misspellings of five or more characters or ending in ',', 'O', '.' or 'c'. */
  lemma EarlyBlockKeys()
    ensures LongOrEndsIn(Rules1[1..], 4, ",O.c") && LongOrEndsIn(Rules2, 4, ",O.c")
    ensures LongOrEndsIn(Rules3, 4, ",O.c") && LongOrEndsIn(Rules4, 4, ",O.c")
  {
  }

  /** The remaining blocks, likewise. */
  lemma LateBlockKeys()
    ensures LongOrEndsIn(Rules5, 4, ",O.c") && LongOrEndsIn(Rules6, 4, ",O.c")
    ensures LongOrEndsIn(Rules7, 4, ",O.c") && LongOrEndsIn(Rules8, 4, ",O.c")
    ensures LongOrEndsIn([RolesTable[|RolesTable| - 1]], 4, ",O.c")
  {
  }

  /** Every rule after the double-space one has a misspelling of five or more characters or one ending in ',', 'O', '.' or 'c'. */
  lemma TableRestKeys()
    ensures LongOrEndsIn(RolesTable[1..], 4, ",O.c")
  {
    var e := ",O.c";
    EarlyBlockKeys();
    LateBlockKeys();
    var t := Rules1[1..];
    LongOrEndsInAppend(t, Rules2, 4, e);
    t := t + Rules2;
    LongOrEndsInAppend(t, Rules3, 4, e);
    t := t + Rules3;
    LongOrEndsInAppend(t, Rules4, 4, e);
    t := t + Rules4;
    LongOrEndsInAppend(t, Rules5, 4, e);
    t := t + Rules5;
    LongOrEndsInAppend(t, Rules6, 4, e);
    t := t + Rules6;
    LongOrEndsInAppend(t, Rules7, 4, e);
    t := t + Rules7;
    LongOrEndsInAppend(t, Rules8, 4, e);
    t := t + Rules8;
    LongOrEndsInAppend(t, [RolesTable[|RolesTable| - 1]], 4, e);
    RolesTableRest();
  }

  /** The double-space rule on a text that holds a double space, followed by the rest of the table. */
  lemma ApplyRolesTableFirst(s: string)
    requires Contains(s, "  ")
    ensures ApplyRules(RolesTable, s) == ApplyRules(RolesTable[1..], ReplaceAll(s, "  ", " "))
  {
    assert RolesTable[0] == ("  ", " ");
  }

  /**
   * A text holding a double space whose collapsed form is at most four characters long and
   * holds none of `,`, `O`, `.`, `c` gets the double-space rule and no other.
   */
  lemma RolesTableOnShortText(s: string, t: string)
    requires Contains(s, "  ") && ReplaceAll(s, "  ", " ") == t
    requires |t| <= 4 && forall c :: c in ",O.c" ==> c !in t
    ensures ApplyRules(RolesTable, s) == t
  {
    ApplyRolesTableFirst(s);
    TableRestKeys();
    ApplyRulesAvoiding(RolesTable[1..], 4, ",O.c", t);
  }

  /** One pass of the double-space rule turns three spaces into two. */
  lemma ThreeSpacesCollapse()
    ensures Contains("a   b", "  ") && ReplaceAll("a   b", "  ", " ") == "a  b"
    ensures forall c :: c in ",O.c" ==> c !in "a  b"
  {
    assert At("a   b", 1, "  ");
    assert ReplaceAll("b", "  ", " ") == "b";
    assert " b"[0..2][1] != "  "[1];
    assert !At(" b", 0, "  ") && " b"[1..] == "b";
    assert ReplaceAll(" b", "  ", " ") == " b";
    assert At("   b", 0, "  ") && "   b"[2..] == " b";
    assert ReplaceAll("   b", "  ", " ") == "  b";
    assert "a   b"[0..2][0] != "  "[0];
    assert !At("a   b", 0, "  ") && "a   b"[1..] == "   b";
  }

  /** One pass of the double-space rule turns two spaces into one. */
  lemma TwoSpacesCollapse()
    ensures Contains("a  b", "  ") && ReplaceAll("a  b", "  ", " ") == "a b"
    ensures forall c :: c in ",O.c" ==> c !in "a b"
  {
    assert At("a  b", 1, "  ");
  }

  /**
   * Correcting a role is not idempotent: the double-space rule replaces non-overlapping pairs
   * in one pass, so three spaces become two, and only a second correction reduces them to one.
   */
  lemma CorrectedRoleNotIdempotent()
    ensures CorrectedRole(RolesTable, "a   b") == "a  b"
    ensures CorrectedRole(RolesTable, "a  b") == "a b"
    ensures CorrectedRole(RolesTable, CorrectedRole(RolesTable, "a   b")) != CorrectedRole(RolesTable, "a   b")
  {
    StripOfStripped("a   b");
    StripOfStripped("a  b");
    StripOfStripped("a b");
    ThreeSpacesCollapse();
    RolesTableOnShortText("a   b", "a  b");
    TwoSpacesCollapse();
    RolesTableOnShortText("a  b", "a b");
  }

  // ------------------------------------------------------------------ block segmentation

  /** Ten dots: the shortest match of the separator `\.{10,}`. */
  const TenDots := ".........."

  /** The length of the run of dots starting at `i`. */
  function DotRun(s: string, i: nat): (n: nat)
    requires i <= |s|
    ensures i + n <= |s|
    ensures forall j :: i <= j < i + n ==> s[j] == '.'
    ensures i + n == |s| || s[i + n] != '.'
    decreases |s| - i
  {
    if i < |s| && s[i] == '.' then 1 + DotRun(s, i + 1) else 0
  }

  /** A separator of `\.{10,}`: ten dots or more, and nothing else. */
  predicate IsDotRun(t: string) {
    |t| >= |TenDots| && forall c :: 0 <= c < |t| ==> t[c] == '.'
  }

  predicate NoDotEnd(t: string) {
    t == [] || t[|t| - 1] != '.'
  }

  predicate NoDotStart(t: string) {
    t == [] || t[0] != '.'
  }

  /** Each run is maximal: the piece before it does not end with a dot, the piece after it does not start with one. */
  predicate RunsMaximal(pieces: seq<string>, runs: seq<string>)
    requires |pieces| == |runs| + 1
  {
    && (forall m :: 0 <= m < |runs| ==> NoDotEnd(pieces[m]))
    && (forall m :: 0 < m < |pieces| ==> NoDotStart(pieces[m]))
  }

  /**
   * `re.split(r"\.{10,}", s)` together with the runs it cuts out. The leftmost match starts
   * at the first occurrence of ten dots and, being greedy, takes the whole run. Pieces and
   * runs put back together give the text; every run is ten dots or more and maximal, and
   * no piece holds ten dots.
   */
  function DotSplit(s: string): (r: (seq<string>, seq<string>))
    ensures |r.0| == |r.1| + 1
    ensures Interleave(r.0, r.1) == s
    ensures forall m :: 0 <= m < |r.1| ==> IsDotRun(r.1[m])
    ensures RunsMaximal(r.0, r.1)
    ensures forall k :: 0 <= k < |r.0| ==> !Contains(r.0[k], TenDots)
    decreases |s|
  {
    match IndexOf(s, TenDots, 0)
    case None => ([s], [])
    case Some(i) =>
      assert s[i] == TenDots[0];
      var n := DotRun(s, i);
      var rest := DotSplit(s[i + n..]);
      BeforeFirst(s, TenDots, i);
      NoDotBeforeRun(s, i);
      DotRunIsRun(s, i);
      FirstPieceStart(rest.0, rest.1);
      RejoinCons(s[..i], s[i..i + n], rest.0, rest.1);
      SliceThree(s, i, i + n);
      ([s[..i]] + rest.0, [s[i..i + n]] + rest.1)
  }

  /** The pieces of `re.split(r"\.{10,}", s)`. */
  function SplitOnDotRuns(s: string): (r: seq<string>)
    ensures |r| >= 1
    ensures forall k :: 0 <= k < |r| ==> !Contains(r[k], TenDots)
    ensures !Contains(s, TenDots) ==> r == [s]
  {
    DotSplit(s).0
  }

  /** One more piece and run in front keep the properties of the rest. */
  lemma RejoinCons(piece: string, run: string, pieces: seq<string>, runs: seq<string>)
    requires |pieces| == |runs| + 1
    requires IsDotRun(run) && NoDotEnd(piece) && NoDotStart(pieces[0]) && !Contains(piece, TenDots)
    requires forall m :: 0 <= m < |runs| ==> IsDotRun(runs[m])
    requires forall k :: 0 <= k < |pieces| ==> !Contains(pieces[k], TenDots)
    requires RunsMaximal(pieces, runs)
    ensures Interleave([piece] + pieces, [run] + runs) == piece + run + Interleave(pieces, runs)
    ensures forall m :: 0 <= m < |runs| + 1 ==> IsDotRun(([run] + runs)[m])
    ensures forall k :: 0 <= k < |pieces| + 1 ==> !Contains(([piece] + pieces)[k], TenDots)
    ensures RunsMaximal([piece] + pieces, [run] + runs)
  {
    var ps := [piece] + pieces;
    var rs := [run] + runs;
    assert ps[1..] == pieces && rs[1..] == runs;
    forall m | 0 < m < |rs|
      ensures IsDotRun(rs[m]) && NoDotEnd(ps[m])
    {
      assert rs[m] == runs[m - 1] && ps[m] == pieces[m - 1];
    }
    forall m | 0 < m < |ps|
      ensures NoDotStart(ps[m]) && !Contains(ps[m], TenDots)
    {
      assert ps[m] == pieces[m - 1];
    }
  }

  /** The run at the first ten dots is a separator of the pattern. */
  lemma DotRunIsRun(s: string, i: nat)
    requires At(s, i, TenDots)
    ensures i + DotRun(s, i) <= |s| && IsDotRun(s[i..i + DotRun(s, i)])
    ensures i + DotRun(s, i) == |s| || s[i + DotRun(s, i)] != '.'
  {
    var n := DotRun(s, i);
    var run := s[i..i + n];
    forall c | 0 <= c < n
      ensures run[c] == '.'
    {
      assert run[c] == s[i + c];
    }
  }

  /** The first piece is where the text starts, so it starts with a dot only if the text does. */
  lemma FirstPieceStart(pieces: seq<string>, runs: seq<string>)
    requires |pieces| == |runs| + 1 && NoDotStart(Interleave(pieces, runs))
    ensures NoDotStart(pieces[0])
  {
    if runs != [] && pieces[0] != [] {
      var t := Interleave(pieces, runs);
      assert t == pieces[0] + runs[0] + Interleave(pieces[1..], runs[1..]);
      assert t[0] == pieces[0][0];
    }
  }

  /** The character before the first ten dots is not a dot, or that occurrence would start earlier. */
  lemma NoDotBeforeRun(s: string, i: nat)
    requires IndexOf(s, TenDots, 0) == Some(i)
    ensures NoDotEnd(s[..i])
  {
    if i > 0 {
      DotsExtendLeft(s, i);
    }
  }

  /** A dot just before ten dots starts ten dots itself. */
  lemma DotsExtendLeft(s: string, i: nat)
    requires i > 0 && At(s, i, TenDots)
    ensures s[i - 1] == '.' ==> At(s, i - 1, TenDots)
  {
    if s[i - 1] == '.' {
      var t := s[i - 1..i - 1 + |TenDots|];
      forall c | 0 <= c < |TenDots|
        ensures t[c] == TenDots[c]
      {
        if c > 0 {
          assert t[c] == s[i..i + |TenDots|][c - 1];
        }
      }
      assert t == TenDots;
    }
  }

  /** `[line for line in lines if not line.isdigit()]`: drops page-number lines. */
  function DropDigitLines(lines: seq<string>): (r: seq<string>)
    ensures |r| <= |lines|
    ensures forall k :: 0 <= k < |r| ==> !IsDigits(r[k]) && r[k] in lines
  {
    if lines == [] then []
    else (if IsDigits(lines[0]) then [] else [lines[0]]) + DropDigitLines(lines[1..])
  }

  /** Which lines `DropDigitLines` keeps: those that are not all digits. */
  function NotDigits(lines: seq<string>): (f: seq<bool>)
    ensures |f| == |lines| && forall j :: 0 <= j < |lines| ==> (f[j] <==> !IsDigits(lines[j]))
  {
    seq(|lines|, j requires 0 <= j < |lines| => !IsDigits(lines[j]))
  }

  /** The flags of a list are the flag of its first line, then those of the rest. */
  lemma NotDigitsCons(lines: seq<string>)
    requires lines != []
    ensures NotDigits(lines) == [!IsDigits(lines[0])] + NotDigits(lines[1..])
  {
  }

  /**
   * The result keeps, in order, exactly the lines that are not all digits: `idx` lists their
   * positions in increasing order, and each kept line is the input line at its position.
   */
  lemma {:induction false} DropDigitLinesPicks(lines: seq<string>) returns (idx: seq<nat>)
    ensures PicksAt(lines, DropDigitLines(lines), idx, NotDigits(lines))
  {
    if lines == [] {
      idx := [];
    } else {
      var t := lines[1..];
      var idx' := DropDigitLinesPicks(t);
      var keep := !IsDigits(lines[0]);
      idx := ConsShift(keep, idx');
      PicksAtCons(lines[0], t, DropDigitLines(t), idx', keep, NotDigits(t));
      NotDigitsCons(lines);
      assert [lines[0]] + t == lines;
    }
  }

  /** The cleaned lines of a block: split on newlines, stripped, without empty or all-digit lines. */
  function CleanLines(block: string): seq<string> {
    DropDigitLines(StrippedNonEmpty(Split(block, "\n")))
  }

  /** A line as the extractor keeps it. */
  predicate IsCleanLine(line: string) {
    line != [] && IsStripped(line) && !IsDigits(line) && !Contains(line, "\n")
  }

  /** The shape every block of `_extract_blocks_from_section` has. */
  predicate WellFormedBlock(block: string) {
    && block != []
    && !Contains(block, TenDots)
    && forall k :: 0 <= k < |Split(block, "\n")| ==> IsCleanLine(Split(block, "\n")[k])
  }

  lemma {:induction false} DropDigitLinesOfClean(lines: seq<string>)
    requires forall k :: 0 <= k < |lines| ==> !IsDigits(lines[k])
    ensures DropDigitLines(lines) == lines
  {
    if lines != [] {
      DropDigitLinesOfClean(lines[1..]);
      assert lines == [lines[0]] + lines[1..];
    }
  }

  /** Every cleaned line is a clean line, and none carries ten dots when the block does not. */
  lemma CleanLinesAreClean(block: string)
    ensures forall k :: 0 <= k < |CleanLines(block)| ==> IsCleanLine(CleanLines(block)[k])
    ensures !Contains(block, TenDots) ==>
              forall k :: 0 <= k < |CleanLines(block)| ==> !Contains(CleanLines(block)[k], TenDots)
  {
    var parts := Split(block, "\n");
    StrippedNonEmptyNoContains(parts, "\n");
    if !Contains(block, TenDots) {
      JoinSplit(block, "\n");
      JoinPartsNoContains(parts, "\n", TenDots);
      StrippedNonEmptyNoContains(parts, TenDots);
    }
  }

  /** The dotted rule holds no line break. */
  lemma TenDotsIsOneLine()
    ensures |TenDots| > 0 && forall k :: 0 <= k < |TenDots| ==> TenDots[k] != '\n'
  {
  }

  /** Joining the cleaned lines gives a well-formed block whose lines are those cleaned lines. */
  lemma BlockOfCleanLines(piece: string)
    requires !Contains(piece, TenDots)
    requires CleanLines(piece) != []
    ensures WellFormedBlock(Join(CleanLines(piece), "\n"))
    ensures Split(Join(CleanLines(piece), "\n"), "\n") == CleanLines(piece)
  {
    var lines := CleanLines(piece);
    CleanLinesAreClean(piece);
    SplitJoin(lines, '\n');
    TenDotsIsOneLine();
    JoinNoContains(lines, '\n', TenDots);
    assert Join(lines, "\n") != [] by {
      if |lines| > 1 {
        assert Join(lines, "\n") == lines[0] + "\n" + Join(lines[1..], "\n");
      }
    }
  }

  /** Cleaning a well-formed block again gives back its lines, as the Q&A and discussion parsers rely on. */
  lemma RecleanBlock(block: string)
    requires WellFormedBlock(block)
    ensures CleanLines(block) == Split(block, "\n")
  {
    var parts := Split(block, "\n");
    StrippedNonEmptyOfClean(parts);
    DropDigitLinesOfClean(parts);
  }

  /** The blocks joined from the cleaned lines of each piece, skipping pieces left without a line. */
  function JoinedBlocks(ls: seq<seq<string>>): seq<string> {
    if ls == [] then []
    else
      var last := ls[|ls| - 1];
      JoinedBlocks(ls[..|ls| - 1]) + (if last == [] then [] else [Join(last, "\n")])
  }

  /** The non-empty stripped pieces between dotted rules. */
  function Pieces(text: string): seq<string> {
    StrippedNonEmpty(SplitOnDotRuns(text))
  }

  /** What `_extract_blocks_from_section` returns. */
  function Blocks(text: string): seq<string> {
    JoinedBlocks(LinesOf(Pieces(text)))
  }

  /** Every piece of `Pieces` lacks ten dots. */
  lemma PiecesNoDots(text: string)
    ensures forall k :: 0 <= k < |Pieces(text)| ==> !Contains(Pieces(text)[k], TenDots)
  {
    StrippedNonEmptyNoContains(SplitOnDotRuns(text), TenDots);
  }

  /** `block` is the well-formed block cut from `piece`, and its lines are the piece's cleaned lines. */
  predicate BlockFrom(block: string, piece: string) {
    && WellFormedBlock(block)
    && block == Join(CleanLines(piece), "\n")
    && Split(block, "\n") == CleanLines(piece)
  }

  /** Which line lists are non-empty. */
  function NonEmptyFlags(ls: seq<seq<string>>): (r: seq<bool>)
    ensures |r| == |ls| && forall j :: 0 <= j < |ls| ==> (r[j] <==> ls[j] != [])
  {
    seq(|ls|, j requires 0 <= j < |ls| => ls[j] != [])
  }

  /** The positions of the set flags, in increasing order. */
  function Kept(flags: seq<bool>): seq<nat> {
    if flags == [] then []
    else Kept(flags[..|flags| - 1]) + (if flags[|flags| - 1] then [|flags| - 1] else [])
  }

  /** `Kept` lists exactly the set positions, each once and in increasing order. */
  lemma {:induction false} KeptOrdered(flags: seq<bool>)
    ensures forall k :: 0 <= k < |Kept(flags)| ==> Kept(flags)[k] < |flags| && flags[Kept(flags)[k]]
    ensures forall a, b :: 0 <= a < b < |Kept(flags)| ==> Kept(flags)[a] < Kept(flags)[b]
    ensures forall j :: 0 <= j < |flags| ==> (flags[j] <==> j in Kept(flags))
  {
    if flags != [] {
      var init := flags[..|flags| - 1];
      KeptOrdered(init);
      assert forall j :: 0 <= j < |init| ==> init[j] == flags[j];
    }
  }

  /** There are as many joined blocks as non-empty line lists. */
  lemma {:induction false} JoinedBlocksCount(ls: seq<seq<string>>)
    ensures |Kept(NonEmptyFlags(ls))| == |JoinedBlocks(ls)|
  {
    if ls != [] {
      var n := |ls| - 1;
      JoinedBlocksCount(ls[..n]);
      assert NonEmptyFlags(ls)[..n] == NonEmptyFlags(ls[..n]);
    }
  }

  /** Joined block `k` is the joined `k`-th non-empty line list. */
  lemma {:induction false} JoinedBlockAt(ls: seq<seq<string>>, k: nat)
    requires k < |JoinedBlocks(ls)|
    ensures k < |Kept(NonEmptyFlags(ls))| && Kept(NonEmptyFlags(ls))[k] < |ls|
    ensures JoinedBlocks(ls)[k] == Join(ls[Kept(NonEmptyFlags(ls))[k]], "\n")
  {
    var n := |ls| - 1;
    var init := ls[..n];
    var flags := NonEmptyFlags(ls);
    assert flags[..n] == NonEmptyFlags(init);
    var prev := Kept(NonEmptyFlags(init));
    assert Kept(flags) == prev + (if flags[n] then [n] else []);
    JoinedBlocksCount(init);
    KeptOrdered(NonEmptyFlags(init));
    if k < |JoinedBlocks(init)| {
      JoinedBlockAt(init, k);
      assert init[prev[k]] == ls[prev[k]];
    }
  }

  /**
   * Every block of `Blocks` is well formed, and the blocks are, in document order, the
   * cleaned pieces between dotted rules that keep a line: `idx` maps each block to its
   * piece, is strictly increasing and misses exactly the pieces left without a line.
   */
  lemma BlocksInOrder(text: string) returns (idx: seq<nat>)
    ensures |idx| == |Blocks(text)|
    ensures forall a, b :: 0 <= a < b < |idx| ==> idx[a] < idx[b]
    ensures forall k :: 0 <= k < |idx| ==> idx[k] < |Pieces(text)| && BlockFrom(Blocks(text)[k], Pieces(text)[idx[k]])
    ensures forall j :: 0 <= j < |Pieces(text)| ==> (CleanLines(Pieces(text)[j]) != [] <==> j in idx)
  {
    var pieces := Pieces(text);
    var ls := LinesOf(pieces);
    PiecesNoDots(text);
    JoinedBlocksCount(ls);
    KeptOrdered(NonEmptyFlags(ls));
    idx := Kept(NonEmptyFlags(ls));
    forall k | 0 <= k < |idx|
      ensures idx[k] < |pieces| && BlockFrom(Blocks(text)[k], pieces[idx[k]])
    {
      JoinedBlockAt(ls, k);
      BlockOfCleanLines(pieces[idx[k]]);
    }
  }

  /** `_extract_blocks_from_section`. */
  method ExtractBlocks(processedText: string) returns (blocks: seq<string>)
    ensures blocks == Blocks(processedText)
    ensures forall k :: 0 <= k < |blocks| ==> WellFormedBlock(blocks[k])
  {
    blocks := CutBlocks(Pieces(processedText));
    var idx := BlocksInOrder(processedText);
  }

  lemma JoinedBlocksStep(ls: seq<seq<string>>, i: nat)
    requires i < |ls|
    ensures JoinedBlocks(ls[..i + 1]) == JoinedBlocks(ls[..i]) + (if ls[i] == [] then [] else [Join(ls[i], "\n")])
  {
    assert ls[..i + 1][..i] == ls[..i];
  }

  /** The loop of `_extract_blocks_from_section` over the pieces between dotted rules. */
  method CutBlocks(pieces: seq<string>) returns (blocks: seq<string>)
    ensures blocks == JoinedBlocks(LinesOf(pieces))
  {
    ghost var all := LinesOf(pieces);
    blocks := [];
    var i := 0;
    while i < |pieces|
      invariant 0 <= i <= |pieces|
      invariant blocks == JoinedBlocks(all[..i])
    {
      var lines := CleanLines(pieces[i]);
      JoinedBlocksStep(all, i);
      if lines != [] {
        blocks := blocks + [Join(lines, "\n")];
      }
      i := i + 1;
    }
    assert all[..i] == all;
  }

  // ------------------------------------------------------------------ speaker records

  /** The implicit separator both parsers append so that the last block is closed: a newline and 88 dots. */
  const Trailer := "\n" + TenDots + TenDots + TenDots + TenDots + TenDots + TenDots + TenDots + TenDots + "........"

  /** Content: the lines after the speaker and role lines, joined and stripped. */
  function Content(lines: seq<string>): string {
    Strip(if |lines| > 2 then Join(lines[2..], "\n") else "")
  }

  /** The `morgan`/`jp` normalisation of the company column. */
  function NormalizeCompany(company: string): (r: Company)
    ensures r.Bank? ==> r.bank == JPMORGAN
    ensures r.Named? ==> r.name == company
  {
    if Contains(Lower(company), "morgan") && Contains(Lower(company), "jp") then Bank(JPMORGAN)
    else Named(company)
  }

  /** `role.split(",")[0].strip()` and the normalised `role.split(",")[-1].strip()`. */
  function RoleAndCompany(role: string): (r: (string, Company))
    ensures !Contains(r.0, ",") && IsStripped(r.0)
    ensures r.1.Named? ==> !Contains(r.1.name, ",") && IsStripped(r.1.name)
  {
    var parts := Split(role, ",");
    StripNoContains(parts[0], ",");
    StripIsStripped(parts[0]);
    StripNoContains(LastPiece(role, ","), ",");
    StripIsStripped(LastPiece(role, ","));
    (Strip(parts[0]), NormalizeCompany(Strip(LastPiece(role, ","))))
  }

  /**
   * The role/company split: the role is the stripped text before the first comma, the
   * company the stripped text after the last comma; with no comma both are the whole cue.
   */
  lemma RoleAndCompanySplit(role: string) returns (j: nat)
    ensures IndexOf(role, ",", 0).Some? ==> RoleAndCompany(role).0 == Strip(role[..IndexOf(role, ",", 0).value])
    ensures IndexOf(role, ",", 0).None? ==> RoleAndCompany(role).0 == Strip(role) && j == 0
    ensures j <= |role| && RoleAndCompany(role).1 == NormalizeCompany(Strip(role[j..]))
    ensures j == 0 || role[j - 1] == ','
    ensures !Contains(role[j..], ",")
    ensures role[j..] == LastPiece(role, ",")
  {
    j := LastPieceIsTail(role, ",");
    if j > 0 {
      AtChar(role, j - 1, ",", 0);
    }
  }

  // ------------------------------------------------------------------ Q&A

  const QnaHeader := "QUESTION AND ANSWER SECTION"

  /** The length of the whitespace run starting at `i`. */
  function SpaceRun(s: string, i: nat): (n: nat)
    requires i <= |s|
    ensures i + n <= |s|
    ensures forall j :: i <= j < i + n ==> IsSpace(s[j])
    ensures i + n == |s| || !IsSpace(s[i + n])
    decreases |s| - i
  {
    if i < |s| && IsSpace(s[i]) then 1 + SpaceRun(s, i + 1) else 0
  }

  /** The last newline in `s[a..b]`. */
  function LastNewline(s: string, a: nat, b: nat): (r: Option<nat>)
    requires a <= b <= |s|
    ensures r.Some? ==> a <= r.value < b && s[r.value] == '\n'
    ensures r.Some? ==> forall j :: r.value < j < b ==> s[j] != '\n'
    ensures r.None? ==> forall j :: a <= j < b ==> s[j] != '\n'
    decreases b - a
  {
    if a == b then None
    else if s[b - 1] == '\n' then Some(b - 1)
    else LastNewline(s, a, b - 1)
  }

  /** Where `\s*\n+` matching at `e` ends: after the last newline of the whitespace run, if it holds one. */
  function NewlinesEnd(s: string, e: nat): (r: Option<nat>)
    requires e <= |s|
    ensures r.None? <==> forall j :: e <= j < e + SpaceRun(s, e) ==> s[j] != '\n'
    ensures r.Some? ==> e < r.value <= e + SpaceRun(s, e) && s[r.value - 1] == '\n'
    ensures r.Some? ==> forall j :: r.value <= j < e + SpaceRun(s, e) ==> s[j] != '\n'
  {
    match LastNewline(s, e, e + SpaceRun(s, e))
    case None => None
    case Some(t) => Some(t + 1)
  }

  /**
   * Where a match of `^\s*QUESTION AND ANSWER SECTION\s*\n+` in multi-line mode that
   * starts at `i` ends: `i` starts a line, whitespace leads to the header, and the
   * whitespace after the header is taken up to and including its last newline.
   */
  function HeaderMatchEnd(s: string, i: nat): (r: Option<nat>)
    requires i <= |s|
    ensures r.Some? ==> i < r.value <= |s| && At(s, i + SpaceRun(s, i), QnaHeader)
    ensures r.Some? ==> (i == 0 || s[i - 1] == '\n') && s[r.value - 1] == '\n'
  {
    if i > 0 && s[i - 1] != '\n' then None
    else if !At(s, i + SpaceRun(s, i), QnaHeader) then None
    else NewlinesEnd(s, i + SpaceRun(s, i) + |QnaHeader|)
  }

  /**
   * The pattern fails at `i` exactly when `i` does not start a line, the header does not
   * follow the leading whitespace, or the whitespace after the header holds no newline;
   * a match ends just past the last newline of that whitespace.
   */
  lemma HeaderMatchEndIff(s: string, i: nat)
    requires i <= |s|
    ensures var h := i + SpaceRun(s, i) + |QnaHeader|;
            HeaderMatchEnd(s, i).None? <==>
              (i > 0 && s[i - 1] != '\n') || !At(s, i + SpaceRun(s, i), QnaHeader)
              || forall j :: h <= j < h + SpaceRun(s, h) ==> s[j] != '\n'
    ensures var h := i + SpaceRun(s, i) + |QnaHeader|;
            HeaderMatchEnd(s, i).Some? ==>
              && h < HeaderMatchEnd(s, i).value <= h + SpaceRun(s, h)
              && forall j :: HeaderMatchEnd(s, i).value <= j < h + SpaceRun(s, h) ==> s[j] != '\n'
  {
  }

  /** `re.sub(r"^\s*QUESTION AND ANSWER SECTION\s*\n+", "", s[i..], flags=re.MULTILINE)`, matching from `i` on. */
  function RemoveQnaHeaders(s: string, i: nat): (r: string)
    requires i <= |s|
    ensures |r| <= |s| - i
    decreases |s| - i
  {
    if i == |s| then []
    else
      match HeaderMatchEnd(s, i)
      case Some(e) => RemoveQnaHeaders(s, e)
      case None => [s[i]] + RemoveQnaHeaders(s, i + 1)
  }

  /** Where the leftmost match of the header pattern at or after `i` starts, if there is one. */
  function FirstHeaderMatch(s: string, i: nat): (r: Option<nat>)
    requires i <= |s|
    ensures r.Some? ==> i <= r.value < |s| && HeaderMatchEnd(s, r.value).Some?
    ensures forall j :: i <= j < (if r.Some? then r.value else |s|) ==> HeaderMatchEnd(s, j).None?
    decreases |s| - i
  {
    if i == |s| then None
    else if HeaderMatchEnd(s, i).Some? then Some(i)
    else FirstHeaderMatch(s, i + 1)
  }

  /**
   * The substitution keeps the text up to the leftmost match, drops the match, and goes
   * on after it; with no match left the rest is kept whole.
   */
  lemma {:induction false} RemoveQnaHeadersLeftmost(s: string, i: nat)
    requires i <= |s|
    ensures FirstHeaderMatch(s, i).None? ==> RemoveQnaHeaders(s, i) == s[i..]
    ensures FirstHeaderMatch(s, i).Some? ==>
              var p := FirstHeaderMatch(s, i).value;
              RemoveQnaHeaders(s, i) == s[i..p] + RemoveQnaHeaders(s, HeaderMatchEnd(s, p).value)
    decreases |s| - i
  {
    if i == |s| {
      assert FirstHeaderMatch(s, i).None? && RemoveQnaHeaders(s, i) == [];
    } else if HeaderMatchEnd(s, i).Some? {
      LeftmostHere(s, i);
    } else {
      RemoveQnaHeadersLeftmost(s, i + 1);
      LeftmostLater(s, i);
    }
  }

  /** The two facts of `RemoveQnaHeadersLeftmost` at position `i`. */
  ghost predicate LeftmostAt(s: string, i: nat)
    requires i <= |s|
  {
    && (FirstHeaderMatch(s, i).None? ==> RemoveQnaHeaders(s, i) == s[i..])
    && (FirstHeaderMatch(s, i).Some? ==>
          var p := FirstHeaderMatch(s, i).value;
          RemoveQnaHeaders(s, i) == s[i..p] + RemoveQnaHeaders(s, HeaderMatchEnd(s, p).value))
  }

  lemma LeftmostHere(s: string, i: nat)
    requires i < |s| && HeaderMatchEnd(s, i).Some?
    ensures LeftmostAt(s, i)
  {
    assert FirstHeaderMatch(s, i) == Some(i);
    assert RemoveQnaHeaders(s, i) == RemoveQnaHeaders(s, HeaderMatchEnd(s, i).value);
    assert s[i..i] == [];
  }

  lemma LeftmostLater(s: string, i: nat)
    requires i < |s| && HeaderMatchEnd(s, i).None?
    requires LeftmostAt(s, i + 1)
    ensures LeftmostAt(s, i)
  {
    RemoveQnaHeadersKeep(s, i);
    var rest := RemoveQnaHeaders(s, i + 1);
    assert RemoveQnaHeaders(s, i) == [s[i]] + rest;
    match FirstHeaderMatch(s, i + 1)
    case None =>
      assert rest == s[i + 1..];
      SliceCons(s, i, |s|);
    case Some(p) =>
      var tail := RemoveQnaHeaders(s, HeaderMatchEnd(s, p).value);
      assert rest == s[i + 1..p] + tail;
      SliceCons(s, i, p);
      AppendAssoc([s[i]], s[i + 1..p], tail);
  }

  /** Where no match starts, the character is kept and the search moves on. */
  lemma RemoveQnaHeadersKeep(s: string, i: nat)
    requires i < |s| && HeaderMatchEnd(s, i).None?
    ensures FirstHeaderMatch(s, i) == FirstHeaderMatch(s, i + 1)
    ensures RemoveQnaHeaders(s, i) == [s[i]] + RemoveQnaHeaders(s, i + 1)
  {
  }

  /** Text without the header is left as it is. */
  lemma {:induction false} RemoveQnaHeadersAbsent(s: string, i: nat)
    requires i <= |s|
    requires !Contains(s, QnaHeader)
    ensures RemoveQnaHeaders(s, i) == s[i..]
    decreases |s| - i
  {
    if i < |s| {
      assert HeaderMatchEnd(s, i).None?;
      RemoveQnaHeadersAbsent(s, i + 1);
      assert s[i..] == [s[i]] + s[i + 1..];
    }
  }

  /** The text `get_qna` cuts into blocks. */
  function QnaText(fullText: string): string {
    Strip(RemoveQnaHeaders(fullText, 0)) + Trailer
  }

  /** The marker `(Q|A)$` looks for: the index of a final `Q` or `A`, also before one final newline. */
  function MarkerIndex(s: string): (r: Option<nat>)
    ensures r.Some? ==> r.value < |s| && (s[r.value] == 'Q' || s[r.value] == 'A')
    ensures r.Some? ==> r.value == |s| - 1 || (r.value == |s| - 2 && s[|s| - 1] == '\n')
    ensures r.None? <==>
              && (|s| == 0 || (s[|s| - 1] != 'Q' && s[|s| - 1] != 'A'))
              && (|s| < 2 || s[|s| - 1] != '\n' || (s[|s| - 2] != 'Q' && s[|s| - 2] != 'A'))
  {
    var n := |s|;
    if n >= 1 && (s[n - 1] == 'Q' || s[n - 1] == 'A') then Some(n - 1)
    else if n >= 2 && s[n - 1] == '\n' && (s[n - 2] == 'Q' || s[n - 2] == 'A') then Some(n - 2)
    else None
  }

  /**
   * `re.sub(r"\s*(Q|A)$", "", s)`: removes a final `Q` or `A` together with the whole
   * whitespace run in front of it; without such a marker the text is unchanged.
   */
  function DropQaMarker(s: string): (r: string)
    ensures MarkerIndex(s).None? ==> r == s
    ensures MarkerIndex(s).Some? ==>
              exists a :: 0 <= a <= MarkerIndex(s).value
                        && r == s[..a] + s[MarkerIndex(s).value + 1..]
                        && (forall j :: a <= j < MarkerIndex(s).value ==> IsSpace(s[j]))
                        && (a == 0 || !IsSpace(s[a - 1]))
  {
    match MarkerIndex(s)
    case None => s
    case Some(k) =>
      var lead := TrimRight(s[..k]);
      TrimRightIsPrefix(s[..k]);
      assert lead == s[..|lead|];
      lead + s[k + 1..]
  }

  /** The role cue of a Q&A block: corrected, without its Q/A marker, stripped. */
  function QnaRole(table: seq<Rule>, cue: string): string {
    Strip(DropQaMarker(CorrectedRole(table, cue)))
  }

  /** One speaker record of `get_qna`. */
  datatype QnaEntry = QnaEntry(
    questionOrder: nat, groupId: nat, speaker: string, role: string, company: Company, content: string)

  /** `'operator:' in line.replace(" ", "").lower()`. */
  predicate IsOperatorLine(line: string) {
    Contains(Lower(ReplaceAll(line, " ", "")), "operator:")
  }

  predicate HasOperatorLine(lines: seq<string>) {
    exists k :: 0 <= k < |lines| && IsOperatorLine(lines[k])
  }

  /** The cleaned lines of each block, as both parsers recompute them at the top of their loops. */
  function LinesOf(blocks: seq<string>): (r: seq<seq<string>>)
    ensures |r| == |blocks| && forall i :: 0 <= i < |blocks| ==> r[i] == CleanLines(blocks[i])
  {
    seq(|blocks|, i requires 0 <= i < |blocks| => CleanLines(blocks[i]))
  }

  /** A block, given by its lines, that `get_qna` turns into a record: two lines or more, no operator line, no disclaimer. */
  predicate IsQnaTurn(lines: seq<string>) {
    |lines| >= 2 && !HasOperatorLine(lines) && !StartsWith(lines[0], "Disclaimer")
  }

  /** The record of a Q&A turn with the given counters. */
  function QnaEntryOf(table: seq<Rule>, lines: seq<string>, order: nat, group: nat): QnaEntry
    requires |lines| >= 2
  {
    var rc := RoleAndCompany(QnaRole(table, lines[1]));
    QnaEntry(order, group, lines[0], rc.0, rc.1, Content(lines))
  }

  /** The number of operator blocks. */
  function OperatorCount(blocks: seq<seq<string>>): nat {
    if blocks == [] then 0
    else OperatorCount(blocks[..|blocks| - 1]) + (if HasOperatorLine(blocks[|blocks| - 1]) then 1 else 0)
  }

  /** The number of turns after the last operator block (or from the start when there is none). */
  function TurnsSinceOperator(blocks: seq<seq<string>>): nat {
    if blocks == [] then 0
    else if HasOperatorLine(blocks[|blocks| - 1]) then 0
    else TurnsSinceOperator(blocks[..|blocks| - 1]) + (if IsQnaTurn(blocks[|blocks| - 1]) then 1 else 0)
  }

  /**
   * The records of `get_qna` over its blocks (each given by its lines): one per turn, whose
   * group id is the number of operator blocks before it and whose order is the number of
   * turns between the last of those and it.
   */
  function QnaEntries(table: seq<Rule>, blocks: seq<seq<string>>): seq<QnaEntry> {
    if blocks == [] then []
    else
      var init := blocks[..|blocks| - 1];
      QnaEntries(table, init) + QnaRecord(table, blocks[|blocks| - 1], TurnsSinceOperator(init), OperatorCount(init))
  }

  /** The record a block yields when it is reached with the given counters. */
  function QnaRecord(table: seq<Rule>, lines: seq<string>, order: nat, group: nat): seq<QnaEntry> {
    if IsQnaTurn(lines) then [QnaEntryOf(table, lines, order, group)] else []
  }

  /** How the counters and the records change with one more block. */
  lemma QnaStep(table: seq<Rule>, blocks: seq<seq<string>>, i: nat)
    requires i < |blocks|
    ensures OperatorCount(blocks[..i + 1])
              == OperatorCount(blocks[..i]) + (if HasOperatorLine(blocks[i]) then 1 else 0)
    ensures TurnsSinceOperator(blocks[..i + 1])
              == if HasOperatorLine(blocks[i]) then 0
                 else TurnsSinceOperator(blocks[..i]) + (if IsQnaTurn(blocks[i]) then 1 else 0)
    ensures QnaEntries(table, blocks[..i + 1])
              == QnaEntries(table, blocks[..i])
                   + QnaRecord(table, blocks[i], TurnsSinceOperator(blocks[..i]), OperatorCount(blocks[..i]))
  {
    assert blocks[..i + 1][..i] == blocks[..i];
  }

  /** `get_qna`. */
  method GetQna(fullText: string) returns (entries: seq<QnaEntry>)
    ensures entries == QnaEntries(RolesTable, LinesOf(Blocks(QnaText(fullText))))
  {
    var processedText := Strip(RemoveQnaHeaders(fullText, 0)) + Trailer;
    var blocks := ExtractBlocks(processedText);
    entries := QnaFromBlocks(RolesTable, blocks);
  }

  /** The loop of `get_qna` over the blocks, with its group and order counters. */
  method QnaFromBlocks(table: seq<Rule>, blocks: seq<string>) returns (entries: seq<QnaEntry>)
    ensures entries == QnaEntries(table, LinesOf(blocks))
  {
    ghost var all := LinesOf(blocks);
    entries := [];
    var group, order := 0, 0;
    var i := 0;
    while i < |blocks|
      invariant 0 <= i <= |blocks|
      invariant entries == QnaEntries(table, all[..i])
      invariant group == OperatorCount(all[..i])
      invariant order == TurnsSinceOperator(all[..i])
    {
      var lines := CleanLines(blocks[i]);
      assert lines == all[i];
      var entry, group', order' := QnaBlock(table, lines, group, order);
      QnaAdvance(table, all, i, entries, group, order, entry, group', order');
      entries, group, order := entries + entry, group', order';
      i := i + 1;
    }
    assert all[..i] == all;
  }

  /** How the loop of `get_qna` keeps its invariant: the counters and records after one more block. */
  lemma QnaAdvance(table: seq<Rule>, all: seq<seq<string>>, i: nat, entries: seq<QnaEntry>, group: nat, order: nat,
                   entry: seq<QnaEntry>, group': nat, order': nat)
    requires i < |all|
    requires entries == QnaEntries(table, all[..i])
    requires group == OperatorCount(all[..i]) && order == TurnsSinceOperator(all[..i])
    requires entry == QnaRecord(table, all[i], order, group)
    requires group' == group + (if HasOperatorLine(all[i]) then 1 else 0)
    requires order' == if HasOperatorLine(all[i]) then 0 else order + (if IsQnaTurn(all[i]) then 1 else 0)
    ensures entries + entry == QnaEntries(table, all[..i + 1])
    ensures group' == OperatorCount(all[..i + 1]) && order' == TurnsSinceOperator(all[..i + 1])
  {
    QnaStep(table, all, i);
  }

  /** One pass of the loop of `get_qna`: the record a block's lines yield, if any, and the new counters. */
  method QnaBlock(table: seq<Rule>, lines: seq<string>, group: nat, order: nat) returns (entry: seq<QnaEntry>, group': nat, order': nat)
    ensures entry == QnaRecord(table, lines, order, group)
    ensures group' == group + (if HasOperatorLine(lines) then 1 else 0)
    ensures order' == if HasOperatorLine(lines) then 0 else order + (if IsQnaTurn(lines) then 1 else 0)
  {
    entry, group', order' := [], group, order;
    if lines == [] {
    } else if |lines| == 1 || HasOperatorLine(lines) {
      if HasOperatorLine(lines) {
        group', order' := group + 1, 0;
      }
    } else if StartsWith(lines[0], "Disclaimer") {
    } else {
      var role := CorrectSpelling(table, lines[1]);
      var rc := RoleAndCompany(Strip(DropQaMarker(role)));
      entry := [QnaEntry(order, group, lines[0], rc.0, rc.1, Content(lines))];
      order' := order + 1;
    }
  }

  /**
   * The numbering `get_qna` gives its records: the first record has order 0, and each next
   * record either stays in its group with the next order, or moves to a later group at
   * order 0. Within every group the orders are therefore 0, 1, 2, ... without gaps.
   */
  predicate Numbered(es: seq<QnaEntry>) {
    && (|es| > 0 ==> es[0].questionOrder == 0)
    && forall k :: 0 <= k < |es| - 1 ==>
         || (es[k + 1].groupId == es[k].groupId && es[k + 1].questionOrder == es[k].questionOrder + 1)
         || (es[k + 1].groupId > es[k].groupId && es[k + 1].questionOrder == 0)
  }

  /**
   * What the records, the operator count and the turn count say about the last record: no
   * group id exceeds the operator count, and the last record is either in the current group,
   * with order one below the number of turns since the last operator block, or in an earlier
   * group when no turn followed that block.
   */
  predicate LastEntryOk(es: seq<QnaEntry>, operators: nat, turns: nat) {
    && (forall k :: 0 <= k < |es| ==> es[k].groupId <= operators)
    && (es == [] ==> turns == 0)
    && (es != [] ==>
          || (es[|es| - 1].groupId == operators && es[|es| - 1].questionOrder + 1 == turns)
          || (es[|es| - 1].groupId < operators && turns == 0))
  }

  /** One more block keeps `LastEntryOk`: an operator block raises the count and resets the turns, a turn appends its record. */
  lemma LastEntryStep(es: seq<QnaEntry>, rec: seq<QnaEntry>, operators: nat, turns: nat, op: bool, turn: bool)
    requires LastEntryOk(es, operators, turns)
    requires |rec| <= 1 && (turn ==> !op) && (rec != [] <==> turn)
    requires rec != [] ==> rec[0].groupId == operators && rec[0].questionOrder == turns
    ensures LastEntryOk(es + rec, operators + (if op then 1 else 0),
                        if op then 0 else turns + (if turn then 1 else 0))
  {
    var all := es + rec;
    if rec != [] {
      assert all[|all| - 1] == rec[0];
    } else if es != [] {
      assert all[|all| - 1] == es[|es| - 1];
    }
    forall k | 0 <= k < |all|
      ensures all[k].groupId <= operators + (if op then 1 else 0)
    {
      if k < |es| {
        assert all[k] == es[k];
      } else {
        assert k == |es| && all[k] == rec[0];
      }
    }
  }

  /** The records of `get_qna` against its counters, as `LastEntryOk` states. */
  lemma {:induction false} QnaLastEntry(table: seq<Rule>, blocks: seq<seq<string>>)
    ensures LastEntryOk(QnaEntries(table, blocks), OperatorCount(blocks), TurnsSinceOperator(blocks))
  {
    if blocks != [] {
      var init := blocks[..|blocks| - 1];
      var last := blocks[|blocks| - 1];
      QnaLastEntry(table, init);
      var rec := QnaRecord(table, last, TurnsSinceOperator(init), OperatorCount(init));
      LastEntryStep(QnaEntries(table, init), rec, OperatorCount(init), TurnsSinceOperator(init),
                    HasOperatorLine(last), IsQnaTurn(last));
    }
  }

  /**
   * The records of `get_qna` are numbered contiguously within their groups: the group id
   * starts at 0 and only operator blocks raise it, and the order restarts at 0 in each group.
   */
  lemma {:induction false} QnaNumbering(table: seq<Rule>, blocks: seq<seq<string>>)
    ensures Numbered(QnaEntries(table, blocks))
  {
    if blocks != [] {
      var init := blocks[..|blocks| - 1];
      QnaNumbering(table, init);
      QnaLastEntry(table, init);
      var es := QnaEntries(table, init);
      var rec := QnaRecord(table, blocks[|blocks| - 1], TurnsSinceOperator(init), OperatorCount(init));
      assert QnaEntries(table, blocks) == es + rec;
      if rec != [] {
        var all := es + rec;
        forall k | 0 <= k < |all| - 1
          ensures || (all[k + 1].groupId == all[k].groupId && all[k + 1].questionOrder == all[k].questionOrder + 1)
                  || (all[k + 1].groupId > all[k].groupId && all[k + 1].questionOrder == 0)
        {
          if k < |es| - 1 {
            assert all[k] == es[k] && all[k + 1] == es[k + 1];
          }
        }
      }
    }
  }

  // ------------------------------------------------------------------ management discussion

  /** One speaker record of `get_discussion`. */
  datatype DiscussionEntry = DiscussionEntry(speaker: string, role: string, company: Company, content: string)

  /**
   * Why an extraction raises: `get_discussion` reads its loop variable `company_name`, which
   * only blocks with a role line assign, so a one-line block before any such block raises
   * `UnboundLocalError`.
   */
  datatype Failure = UnboundCompany

  /** A block the discussion parser passes over: no lines, or an operator turn. */
  predicate IsOperatorTurn(lines: seq<string>) {
    lines == [] || StartsWith(lines[0], "Operator")
  }

  /** A discussion block with a role line, which assigns `company_name`. */
  predicate SetsCompany(lines: seq<string>) {
    !IsOperatorTurn(lines) && |lines| >= 2
  }

  /** A discussion block with only a speaker line, which reads `company_name` as left by earlier blocks. */
  predicate IsLoneSpeaker(lines: seq<string>) {
    !IsOperatorTurn(lines) && |lines| == 1
  }

  /** The role and company of the role line of a discussion block: the corrected cue split on its commas. */
  function DiscussionRoleAndCompany(table: seq<Rule>, lines: seq<string>): (string, Company)
    requires |lines| >= 2
  {
    RoleAndCompany(CorrectedRole(table, lines[1]))
  }

  /** The value `company_name` holds after the discussion loop has seen `blocks`. */
  function LastCompany(table: seq<Rule>, blocks: seq<seq<string>>): Option<Company> {
    if blocks == [] then None
    else
      var last := blocks[|blocks| - 1];
      if SetsCompany(last) then Some(DiscussionRoleAndCompany(table, last).1)
      else LastCompany(table, blocks[..|blocks| - 1])
  }

  /** The record a discussion block yields, given the company left by earlier blocks. */
  function DiscussionRecord(table: seq<Rule>, lines: seq<string>, company: Option<Company>): Result<seq<DiscussionEntry>, Failure> {
    if IsOperatorTurn(lines) then Ok([])
    else if |lines| >= 2 then
      var rc := DiscussionRoleAndCompany(table, lines);
      Ok([DiscussionEntry(lines[0], rc.0, rc.1, Content(lines))])
    else
      match company
      case None => Err(UnboundCompany)
      case Some(c) => Ok([DiscussionEntry(lines[0], "N/A", c, "")])
  }

  /** The records of `get_discussion` over its blocks (each given by its lines), or the failure it raises. */
  function DiscussionEntries(table: seq<Rule>, blocks: seq<seq<string>>): Result<seq<DiscussionEntry>, Failure> {
    if blocks == [] then Ok([])
    else
      var init := blocks[..|blocks| - 1];
      match DiscussionEntries(table, init)
      case Err(e) => Err(e)
      case Ok(es) =>
        match DiscussionRecord(table, blocks[|blocks| - 1], LastCompany(table, init))
        case Err(e) => Err(e)
        case Ok(rec) => Ok(es + rec)
  }

  /** `company_name` is still unassigned exactly when no block so far had a role line. */
  lemma {:induction false} LastCompanyNone(table: seq<Rule>, blocks: seq<seq<string>>)
    ensures LastCompany(table, blocks).None? <==> forall i :: 0 <= i < |blocks| ==> !SetsCompany(blocks[i])
  {
    if blocks != [] {
      var init := blocks[..|blocks| - 1];
      LastCompanyNone(table, init);
      assert forall i :: 0 <= i < |init| ==> init[i] == blocks[i];
    }
  }

  /** Some block has only a speaker line and no block before it has a role line. */
  predicate ReadsUnboundCompany(blocks: seq<seq<string>>) {
    exists j :: 0 <= j < |blocks| && IsLoneSpeaker(blocks[j]) && forall i :: 0 <= i < j ==> !SetsCompany(blocks[i])
  }

  /** `get_discussion` raises exactly when a one-line block comes before every block with a role line. */
  lemma {:induction false} DiscussionFails(table: seq<Rule>, blocks: seq<seq<string>>)
    ensures DiscussionEntries(table, blocks).Err? <==> ReadsUnboundCompany(blocks)
  {
    if blocks != [] {
      var n := |blocks| - 1;
      var init := blocks[..n];
      DiscussionFails(table, init);
      LastCompanyNone(table, init);
      assert forall i :: 0 <= i < n ==> init[i] == blocks[i];
      if ReadsUnboundCompany(init) {
        var j :| 0 <= j < |init| && IsLoneSpeaker(init[j]) && forall i :: 0 <= i < j ==> !SetsCompany(init[i]);
        assert IsLoneSpeaker(blocks[j]) && forall i :: 0 <= i < j ==> !SetsCompany(blocks[i]);
      } else if ReadsUnboundCompany(blocks) {
        var j :| 0 <= j < |blocks| && IsLoneSpeaker(blocks[j]) && forall i :: 0 <= i < j ==> !SetsCompany(blocks[i]);
        assert j == n;
      }
    }
  }

  /** Every record of `get_discussion` comes from a block that is not an operator turn, and its speaker is the block's first line. */
  lemma {:induction false} DiscussionSpeakers(table: seq<Rule>, blocks: seq<seq<string>>)
    requires DiscussionEntries(table, blocks).Ok?
    ensures |DiscussionEntries(table, blocks).value| <= |blocks|
    ensures forall k :: 0 <= k < |DiscussionEntries(table, blocks).value| ==>
              exists j :: 0 <= j < |blocks| && !IsOperatorTurn(blocks[j])
                          && DiscussionEntries(table, blocks).value[k].speaker == blocks[j][0]
  {
    if blocks != [] {
      var init := blocks[..|blocks| - 1];
      DiscussionEntriesLast(table, blocks);
      DiscussionSpeakers(table, init);
      var all := DiscussionEntries(table, blocks).value;
      forall k | 0 <= k < |all|
        ensures exists j :: 0 <= j < |blocks| && !IsOperatorTurn(blocks[j]) && all[k].speaker == blocks[j][0]
      {
        var j := DiscussionSpeakerAt(table, blocks, k);
      }
    }
  }

  /** The records over all blocks extend those over all but the last by at most one, from the last block. */
  lemma DiscussionEntriesLast(table: seq<Rule>, blocks: seq<seq<string>>)
    requires blocks != [] && DiscussionEntries(table, blocks).Ok?
    ensures DiscussionEntries(table, blocks[..|blocks| - 1]).Ok?
    ensures var es := DiscussionEntries(table, blocks[..|blocks| - 1]).value;
            var all := DiscussionEntries(table, blocks).value;
            var last := blocks[|blocks| - 1];
            && |es| <= |all| <= |es| + 1
            && all[..|es|] == es
            && (|all| > |es| ==> !IsOperatorTurn(last) && all[|es|].speaker == last[0])
  {
  }

  /** The block a record's speaker comes from. */
  lemma {:induction false} DiscussionSpeakerAt(table: seq<Rule>, blocks: seq<seq<string>>, k: nat) returns (j: nat)
    requires DiscussionEntries(table, blocks).Ok? && k < |DiscussionEntries(table, blocks).value|
    ensures j < |blocks| && !IsOperatorTurn(blocks[j])
    ensures DiscussionEntries(table, blocks).value[k].speaker == blocks[j][0]
    decreases |blocks|
  {
    var n := |blocks| - 1;
    var init := blocks[..n];
    DiscussionEntriesLast(table, blocks);
    var es := DiscussionEntries(table, init).value;
    if k < |es| {
      j := DiscussionSpeakerAt(table, init, k);
      assert blocks[j] == init[j];
      assert DiscussionEntries(table, blocks).value[..|es|][k] == es[k];
    } else {
      j := n;
    }
  }

  lemma DiscussionStep(table: seq<Rule>, blocks: seq<seq<string>>, i: nat)
    requires i < |blocks|
    ensures LastCompany(table, blocks[..i + 1])
              == if SetsCompany(blocks[i]) then Some(DiscussionRoleAndCompany(table, blocks[i]).1)
                 else LastCompany(table, blocks[..i])
    ensures DiscussionEntries(table, blocks[..i + 1])
              == match DiscussionEntries(table, blocks[..i])
                 case Err(e) => Err(e)
                 case Ok(es) =>
                   match DiscussionRecord(table, blocks[i], LastCompany(table, blocks[..i]))
                   case Err(e) => Err(e)
                   case Ok(rec) => Ok(es + rec)
  {
    assert blocks[..i + 1][..i] == blocks[..i];
  }

  /** Once a prefix of the blocks raises, the whole extraction raises the same failure. */
  lemma {:induction false} DiscussionErrSticks(table: seq<Rule>, blocks: seq<seq<string>>, i: nat)
    requires i <= |blocks| && DiscussionEntries(table, blocks[..i]).Err?
    ensures DiscussionEntries(table, blocks) == DiscussionEntries(table, blocks[..i])
    decreases |blocks|
  {
    if i < |blocks| {
      var init := blocks[..|blocks| - 1];
      assert init[..i] == blocks[..i];
      DiscussionErrSticks(table, init, i);
    } else {
      assert blocks[..i] == blocks;
    }
  }

  /** The loop of `get_discussion` over the blocks, carrying `company_name` from block to block. */
  method DiscussionFromBlocks(table: seq<Rule>, blocks: seq<string>) returns (r: Result<seq<DiscussionEntry>, Failure>)
    ensures r == DiscussionEntries(table, LinesOf(blocks))
  {
    ghost var all := LinesOf(blocks);
    var entries: seq<DiscussionEntry> := [];
    var companyName: Option<Company> := None;
    var i := 0;
    while i < |blocks|
      invariant 0 <= i <= |blocks|
      invariant DiscussionEntries(table, all[..i]) == Ok(entries)
      invariant companyName == LastCompany(table, all[..i])
    {
      var lines := CleanLines(blocks[i]);
      assert lines == all[i];
      var rec, companyName' := DiscussionBlock(table, lines, companyName);
      DiscussionAdvance(table, all, i, entries, companyName, rec);
      if rec.Err? {
        return Err(rec.error);
      }
      entries := entries + rec.value;
      companyName := companyName';
      i := i + 1;
    }
    assert all[..i] == all;
    r := Ok(entries);
  }

  /** How the loop of `get_discussion` keeps its invariant: one more block either extends the records or ends the extraction. */
  lemma DiscussionAdvance(table: seq<Rule>, all: seq<seq<string>>, i: nat, entries: seq<DiscussionEntry>,
                          companyName: Option<Company>, rec: Result<seq<DiscussionEntry>, Failure>)
    requires i < |all|
    requires DiscussionEntries(table, all[..i]) == Ok(entries) && companyName == LastCompany(table, all[..i])
    requires rec == DiscussionRecord(table, all[i], companyName)
    ensures LastCompany(table, all[..i + 1])
              == if SetsCompany(all[i]) then Some(DiscussionRoleAndCompany(table, all[i]).1) else companyName
    ensures rec.Err? ==> DiscussionEntries(table, all) == Err(rec.error)
    ensures rec.Ok? ==> DiscussionEntries(table, all[..i + 1]) == Ok(entries + rec.value)
  {
    DiscussionStep(table, all, i);
    if rec.Err? {
      DiscussionErrSticks(table, all, i + 1);
    }
  }

  /** One pass of the loop of `get_discussion`: the record a block's lines yield, or the failure, and the new `company_name`. */
  method DiscussionBlock(table: seq<Rule>, lines: seq<string>, companyName: Option<Company>)
    returns (rec: Result<seq<DiscussionEntry>, Failure>, companyName': Option<Company>)
    ensures rec == DiscussionRecord(table, lines, companyName)
    ensures companyName' == if SetsCompany(lines) then Some(DiscussionRoleAndCompany(table, lines).1) else companyName
  {
    companyName' := companyName;
    if lines == [] || StartsWith(lines[0], "Operator") {
      rec := Ok([]);
    } else if |lines| >= 2 {
      var role := CorrectSpelling(table, lines[1]);
      var rc := RoleAndCompany(role);
      companyName' := Some(rc.1);
      rec := Ok([DiscussionEntry(lines[0], rc.0, rc.1, Content(lines))]);
    } else if companyName.None? {
      rec := Err(UnboundCompany);
    } else {
      rec := Ok([DiscussionEntry(lines[0], "N/A", companyName.value, "")]);
    }
  }

  /** The text `get_discussion` cuts into blocks. */
  function DiscussionText(fullText: string): string {
    Strip(fullText) + Trailer
  }

  /** `get_discussion`. */
  method GetDiscussion(fullText: string) returns (r: Result<seq<DiscussionEntry>, Failure>)
    ensures r == DiscussionEntries(RolesTable, LinesOf(Blocks(DiscussionText(fullText))))
  {
    var processedText := Strip(fullText) + Trailer;
    var blocks := ExtractBlocks(processedText);
    r := DiscussionFromBlocks(RolesTable, blocks);
  }

  // ------------------------------------------------------------------ section routing

  const MdHeader := "MANAGEMENT DISCUSSION SECTION"

  /** The two section headers the transcript is split on, as the alternation of the splitting pattern. */
  const Headers: seq<string> := [MdHeader, QnaHeader]

  /** `re.sub(r"\\", "", s)`: removes every backslash. */
  function RemoveBackslashes(s: string): (r: string)
    ensures |r| <= |s|
    ensures forall i :: 0 <= i < |r| ==> r[i] != '\\'
    ensures (forall i :: 0 <= i < |s| ==> s[i] != '\\') ==> r == s
  {
    if s == [] then []
    else (if s[0] == '\\' then [] else [s[0]]) + RemoveBackslashes(s[1..])
  }

  /** `re.sub(r"\n{2,}", "\n", s)`: every run of two or more newlines becomes one newline. */
  function CondenseNewlines(s: string): (r: string)
    ensures |r| <= |s|
    ensures r == [] <==> s == []
    ensures r != [] ==> r[0] == s[0]
    ensures forall i :: 0 <= i < |r| - 1 ==> !(r[i] == '\n' && r[i + 1] == '\n')
  {
    if s == [] then []
    else if |s| >= 2 && s[0] == '\n' && s[1] == '\n' then CondenseNewlines(s[1..])
    else [s[0]] + CondenseNewlines(s[1..])
  }

  /** Which characters `RemoveBackslashes` keeps: all but the backslashes. */
  function NotBackslash(s: string): (f: seq<bool>)
    ensures |f| == |s| && forall j :: 0 <= j < |s| ==> (f[j] <==> s[j] != '\\')
  {
    seq(|s|, j requires 0 <= j < |s| => s[j] != '\\')
  }

  /** The result is the input's non-backslash characters, every one of them, in their order. */
  lemma {:induction false} RemoveBackslashesPicks(s: string) returns (idx: seq<nat>)
    ensures PicksAt(s, RemoveBackslashes(s), idx, NotBackslash(s))
  {
    if s == [] {
      idx := [];
    } else {
      var t := s[1..];
      var idx' := RemoveBackslashesPicks(t);
      var keep := s[0] != '\\';
      idx := ConsShift(keep, idx');
      PicksAtCons(s[0], t, RemoveBackslashes(t), idx', keep, NotBackslash(t));
      NotBackslashCons(s);
      assert [s[0]] + t == s;
    }
  }

  /** The flags of a text are the flag of its first character, then those of the rest. */
  lemma NotBackslashCons(s: string)
    requires s != []
    ensures NotBackslash(s) == [s[0] != '\\'] + NotBackslash(s[1..])
  {
  }

  /** Which characters `CondenseNewlines` keeps: all but a newline followed by another newline. */
  function NotRepeatedNewline(s: string): (f: seq<bool>)
    ensures |f| == |s|
    ensures forall j :: 0 <= j < |s| ==> (f[j] <==> !(s[j] == '\n' && j + 1 < |s| && s[j + 1] == '\n'))
  {
    seq(|s|, j requires 0 <= j < |s| => !(s[j] == '\n' && j + 1 < |s| && s[j + 1] == '\n'))
  }

  /**
   * The result keeps, in order, every character except a newline that another newline
   * follows: of each run of newlines only the last survives, and nothing else is touched.
   */
  lemma {:induction false} CondenseNewlinesPicks(s: string) returns (idx: seq<nat>)
    ensures PicksAt(s, CondenseNewlines(s), idx, NotRepeatedNewline(s))
  {
    if s == [] {
      idx := [];
    } else {
      var t := s[1..];
      var idx' := CondenseNewlinesPicks(t);
      var keep := !(|s| >= 2 && s[0] == '\n' && s[1] == '\n');
      idx := ConsShift(keep, idx');
      PicksAtCons(s[0], t, CondenseNewlines(t), idx', keep, NotRepeatedNewline(t));
      NotRepeatedNewlineCons(s);
      assert [s[0]] + t == s;
    }
  }

  /** The flags of a text are the flag of its first character, then those of the rest. */
  lemma NotRepeatedNewlineCons(s: string)
    requires s != []
    ensures NotRepeatedNewline(s) == [!(|s| >= 2 && s[0] == '\n' && s[1] == '\n')] + NotRepeatedNewline(s[1..])
  {
    var t := s[1..];
    var f := NotRepeatedNewline(s);
    forall j | 1 <= j < |s|
      ensures f[j] == NotRepeatedNewline(t)[j - 1]
    {
      assert s[j] == t[j - 1];
      if j + 1 < |s| {
        assert s[j + 1] == t[j];
      }
    }
  }

  /** The initial cleaning of `parse_transcript_to_dataframes`. */
  function CleanTranscript(text: string): string {
    Strip(CondenseNewlines(RemoveBackslashes(text)))
  }

  /** The list `re.split` returns for a pattern that is one capturing group: piece, header, piece, ..., piece. */
  function Alternate(pieces: seq<string>, seps: seq<string>): (r: seq<string>)
    requires |pieces| == |seps| + 1
    ensures |r| == 2 * |seps| + 1
    ensures forall k :: 0 <= k < |r| ==> r[k] == if k % 2 == 0 then pieces[k / 2] else seps[k / 2]
  {
    if seps == [] then [pieces[0]]
    else [pieces[0], seps[0]] + Alternate(pieces[1..], seps[1..])
  }

  /** What `re.split` on the two headers returns: the pieces between headers, and the headers themselves. */
  function SplitOnHeaders(text: string): seq<string> {
    var split := SplitAlt(text, Headers);
    Alternate(split.0, split.1)
  }

  /** `sections` in `parse_transcript_to_dataframes`: the split list, stripped, without empty strings. */
  function Sections(text: string): seq<string> {
    StrippedNonEmpty(SplitOnHeaders(text))
  }

  /** A header that does not occur in the text is none of its sections. */
  lemma SectionsLackHeader(text: string, h: nat)
    requires h < |Headers| && !Contains(text, Headers[h])
    ensures forall k :: 0 <= k < |Sections(text)| ==> Sections(text)[k] != Headers[h]
  {
    forall k | 0 <= k < |Sections(text)|
      ensures Sections(text)[k] != Headers[h]
    {
      SectionLacksHeader(text, h, k);
    }
  }

  /** Either free of header `h`, or a different header. */
  predicate AvoidsHeader(x: string, h: nat)
    requires h < |Headers|
  {
    !Contains(x, Headers[h]) || (x in Headers && x != Headers[h])
  }

  lemma StripAvoidsHeader(x: string, h: nat)
    requires h < |Headers| && AvoidsHeader(x, h)
    ensures Strip(x) != Headers[h]
  {
    AtContains(Headers[h], 0, Headers[h]);
    if !Contains(x, Headers[h]) {
      StripNoContains(x, Headers[h]);
    } else {
      assert IsStripped(MdHeader) && IsStripped(QnaHeader);
      StripOfStripped(MdHeader);
      StripOfStripped(QnaHeader);
    }
  }

  lemma AlternateAvoidsHeader(text: string, h: nat, j: nat)
    requires h < |Headers| && !Contains(text, Headers[h])
    requires j < |SplitOnHeaders(text)|
    ensures AvoidsHeader(SplitOnHeaders(text)[j], h)
  {
    var split := SplitAlt(text, Headers);
    if j % 2 == 0 {
      NoneOfNotContains(split.0[j / 2], Headers, h);
    } else {
      SplitAltSeps(text, Headers);
      assert Contains(text, split.1[j / 2]);
    }
  }

  lemma SectionLacksHeader(text: string, h: nat, k: nat)
    requires h < |Headers| && !Contains(text, Headers[h])
    requires k < |Sections(text)|
    ensures Sections(text)[k] != Headers[h]
  {
    PiecesAvoidHeader(text, h);
    StrippedAvoidsHeader(SplitOnHeaders(text), h, k);
  }

  /** A header absent from the text is absent from every piece, and equal to no header piece. */
  lemma PiecesAvoidHeader(text: string, h: nat)
    requires h < |Headers| && !Contains(text, Headers[h])
    ensures forall j :: 0 <= j < |SplitOnHeaders(text)| ==> AvoidsHeader(SplitOnHeaders(text)[j], h)
  {
    forall j | 0 <= j < |SplitOnHeaders(text)|
      ensures AvoidsHeader(SplitOnHeaders(text)[j], h)
    {
      AlternateAvoidsHeader(text, h, j);
    }
  }

  /** Pieces that each avoid header `h` keep avoiding it once stripped. */
  lemma StrippedAvoidsHeader(xs: seq<string>, h: nat, k: nat)
    requires h < |Headers| && k < |StrippedNonEmpty(xs)|
    requires forall j :: 0 <= j < |xs| ==> AvoidsHeader(xs[j], h)
    ensures StrippedNonEmpty(xs)[k] != Headers[h]
  {
    var j := StrippedNonEmptyFrom(xs, k);
    StripAvoidsHeader(xs[j], h);
  }

  /** The section the routing loop is in: before any header, or after the last header seen. */
  datatype SectionName = Intro | ManagementDiscussion | QuestionAndAnswer

  /** The routing loop's state: the current section and the two outputs so far (empty until assigned). */
  datatype Routed = Routed(section: SectionName, qna: seq<QnaEntry>, discussion: seq<DiscussionEntry>)

  /** What `get_qna_df` turns a Q&A section into. */
  function QnaOf(part: string): seq<QnaEntry> {
    QnaEntries(RolesTable, LinesOf(Blocks(QnaText(part))))
  }

  /** What `get_discussion_df` turns a discussion section into, or the failure it raises. */
  function DiscussionOf(part: string): Result<seq<DiscussionEntry>, Failure> {
    DiscussionEntries(RolesTable, LinesOf(Blocks(DiscussionText(part))))
  }

  /**
   * One pass of the routing loop: a header switches section; content replaces that section's output.
   * The two section parsers are parameters so that the routing can be reasoned about on its own.
   */
  function RouteStep(st: Routed, part: string, qnaOf: string -> seq<QnaEntry>,
                     discussionOf: string -> Result<seq<DiscussionEntry>, Failure>): Result<Routed, Failure> {
    if Strip(part) == [] then Ok(st)
    else if part == MdHeader then Ok(st.(section := ManagementDiscussion))
    else if part == QnaHeader then Ok(st.(section := QuestionAndAnswer))
    else if st.section == QuestionAndAnswer then Ok(st.(qna := qnaOf(part)))
    else if st.section == ManagementDiscussion then
      match discussionOf(part)
      case Err(e) => Err(e)
      case Ok(d) => Ok(st.(discussion := d))
    else Ok(st)
  }

  /** The routing loop over the sections, stopping at the first failure. */
  function Route(parts: seq<string>, qnaOf: string -> seq<QnaEntry>,
                 discussionOf: string -> Result<seq<DiscussionEntry>, Failure>): Result<Routed, Failure> {
    if parts == [] then Ok(Routed(Intro, [], []))
    else
      match Route(parts[..|parts| - 1], qnaOf, discussionOf)
      case Err(e) => Err(e)
      case Ok(st) => RouteStep(st, parts[|parts| - 1], qnaOf, discussionOf)
  }

  /** What `parse_transcript_to_dataframes` returns: the Q&A and discussion records, or the failure. */
  function Parsed(transcript: string): Result<(seq<QnaEntry>, seq<DiscussionEntry>), Failure> {
    match Route(Sections(CleanTranscript(transcript)), QnaOf, DiscussionOf)
    case Err(e) => Err(e)
    case Ok(st) => Ok((st.qna, st.discussion))
  }

  /** Without a Q&A header among the parts the routing never enters the Q&A section and its output stays empty. */
  lemma {:induction false} RouteWithoutQnaHeader(parts: seq<string>, qnaOf: string -> seq<QnaEntry>,
                                                 discussionOf: string -> Result<seq<DiscussionEntry>, Failure>)
    requires forall k :: 0 <= k < |parts| ==> parts[k] != QnaHeader
    ensures Route(parts, qnaOf, discussionOf).Ok? ==>
      Route(parts, qnaOf, discussionOf).value.section != QuestionAndAnswer && Route(parts, qnaOf, discussionOf).value.qna == []
  {
    if parts != [] {
      var init := parts[..|parts| - 1];
      assert forall k :: 0 <= k < |init| ==> init[k] == parts[k];
      RouteWithoutQnaHeader(init, qnaOf, discussionOf);
      match Route(init, qnaOf, discussionOf)
      case Err(_) =>
      case Ok(st) =>
        assert Route(parts, qnaOf, discussionOf) == RouteStep(st, parts[|parts| - 1], qnaOf, discussionOf);
        RouteStepOutsideQna(st, parts[|parts| - 1], qnaOf, discussionOf);
    }
  }

  /** A part other than the Q&A header keeps the routing outside the Q&A section. */
  lemma RouteStepOutsideQna(st: Routed, part: string, qnaOf: string -> seq<QnaEntry>,
                            discussionOf: string -> Result<seq<DiscussionEntry>, Failure>)
    requires part != QnaHeader && st.section != QuestionAndAnswer && st.qna == []
    ensures RouteStep(st, part, qnaOf, discussionOf).Ok? ==>
      RouteStep(st, part, qnaOf, discussionOf).value.section != QuestionAndAnswer
      && RouteStep(st, part, qnaOf, discussionOf).value.qna == []
  {
  }

  /** Without a discussion header among the parts the routing cannot fail and its discussion output stays empty. */
  lemma {:induction false} RouteWithoutMdHeader(parts: seq<string>, qnaOf: string -> seq<QnaEntry>,
                                                discussionOf: string -> Result<seq<DiscussionEntry>, Failure>)
    requires forall k :: 0 <= k < |parts| ==> parts[k] != MdHeader
    ensures Route(parts, qnaOf, discussionOf).Ok?
    ensures Route(parts, qnaOf, discussionOf).value.section != ManagementDiscussion
    ensures Route(parts, qnaOf, discussionOf).value.discussion == []
  {
    if parts != [] {
      var init := parts[..|parts| - 1];
      assert forall k :: 0 <= k < |init| ==> init[k] == parts[k];
      RouteWithoutMdHeader(init, qnaOf, discussionOf);
      var st := Route(init, qnaOf, discussionOf).value;
      assert Route(parts, qnaOf, discussionOf) == RouteStep(st, parts[|parts| - 1], qnaOf, discussionOf);
      RouteStepOutsideDiscussion(st, parts[|parts| - 1], qnaOf, discussionOf);
    }
  }

  /** A part other than the discussion header keeps the routing outside the discussion section, and cannot fail there. */
  lemma RouteStepOutsideDiscussion(st: Routed, part: string, qnaOf: string -> seq<QnaEntry>,
                                   discussionOf: string -> Result<seq<DiscussionEntry>, Failure>)
    requires part != MdHeader && st.section != ManagementDiscussion && st.discussion == []
    ensures RouteStep(st, part, qnaOf, discussionOf).Ok?
    ensures RouteStep(st, part, qnaOf, discussionOf).value.section != ManagementDiscussion
    ensures RouteStep(st, part, qnaOf, discussionOf).value.discussion == []
  {
    var r := RouteStep(st, part, qnaOf, discussionOf);
    if Strip(part) == [] {
      assert r == Ok(st);
    } else if part == QnaHeader {
      assert r == Ok(st.(section := QuestionAndAnswer));
    } else if st.section == QuestionAndAnswer {
      assert r == Ok(st.(qna := qnaOf(part)));
    } else {
      assert st.section == Intro && r == Ok(st);
    }
  }

  /** A transcript without the Q&A header yields no Q&A records. */
  lemma ParsedWithoutQnaHeader(transcript: string)
    requires !Contains(CleanTranscript(transcript), QnaHeader)
    ensures Parsed(transcript).Ok? ==> Parsed(transcript).value.0 == []
  {
    SectionsLackHeader(CleanTranscript(transcript), 1);
    RouteWithoutQnaHeader(Sections(CleanTranscript(transcript)), QnaOf, DiscussionOf);
  }

  /** A transcript without the discussion header is parsed without failure and yields no discussion records. */
  lemma ParsedWithoutMdHeader(transcript: string)
    requires !Contains(CleanTranscript(transcript), MdHeader)
    ensures Parsed(transcript).Ok? && Parsed(transcript).value.1 == []
  {
    SectionsLackHeader(CleanTranscript(transcript), 0);
    RouteWithoutMdHeader(Sections(CleanTranscript(transcript)), QnaOf, DiscussionOf);
  }

  /** Once a prefix of the sections fails, the routing fails with it. */
  lemma {:induction false} RouteErrSticks(parts: seq<string>, i: nat, qnaOf: string -> seq<QnaEntry>,
                                          discussionOf: string -> Result<seq<DiscussionEntry>, Failure>)
    requires i <= |parts| && Route(parts[..i], qnaOf, discussionOf).Err?
    ensures Route(parts, qnaOf, discussionOf) == Route(parts[..i], qnaOf, discussionOf)
    decreases |parts|
  {
    if i < |parts| {
      var init := parts[..|parts| - 1];
      assert init[..i] == parts[..i];
      RouteErrSticks(init, i, qnaOf, discussionOf);
    } else {
      assert parts[..i] == parts;
    }
  }

  lemma RouteStepAt(parts: seq<string>, i: nat, qnaOf: string -> seq<QnaEntry>,
                    discussionOf: string -> Result<seq<DiscussionEntry>, Failure>)
    requires i < |parts|
    ensures Route(parts[..i + 1], qnaOf, discussionOf) ==
      match Route(parts[..i], qnaOf, discussionOf)
      case Err(e) => Err(e)
      case Ok(st) => RouteStep(st, parts[i], qnaOf, discussionOf)
  {
    assert parts[..i + 1][..i] == parts[..i];
  }

  /** One pass of the routing loop, calling the section parsers. */
  method RouteSection(st: Routed, part: string) returns (r: Result<Routed, Failure>)
    ensures r == RouteStep(st, part, QnaOf, DiscussionOf)
  {
    if Strip(part) == [] {
      r := Ok(st);
    } else if part == MdHeader || part == QnaHeader {
      r := Ok(st.(section := if part == MdHeader then ManagementDiscussion else QuestionAndAnswer));
    } else if st.section == QuestionAndAnswer {
      var qna := GetQna(part);
      r := Ok(st.(qna := qna));
    } else if st.section == ManagementDiscussion {
      var d := GetDiscussion(part);
      if d.Err? {
        r := Err(d.error);
      } else {
        r := Ok(st.(discussion := d.value));
      }
    } else {
      r := Ok(st);
    }
  }

  /** The routing loop of `parse_transcript_to_dataframes`, stopping at the first failure. */
  method RouteSections(sections: seq<string>) returns (r: Result<Routed, Failure>)
    ensures r == Route(sections, QnaOf, DiscussionOf)
  {
    var st := Routed(Intro, [], []);
    var i := 0;
    while i < |sections|
      invariant 0 <= i <= |sections|
      invariant Route(sections[..i], QnaOf, DiscussionOf) == Ok(st)
    {
      RouteStepAt(sections, i, QnaOf, DiscussionOf);
      var next := RouteSection(st, sections[i]);
      if next.Err? {
        RouteErrSticks(sections, i + 1, QnaOf, DiscussionOf);
        return next;
      }
      st := next.value;
      i := i + 1;
    }
    assert sections[..i] == sections;
    r := Ok(st);
  }

  /** `parse_transcript_to_dataframes`: cleans the text, splits it at the headers and routes each section to its parser. */
  method ParseTranscript(transcriptFileText: string) returns (r: Result<(seq<QnaEntry>, seq<DiscussionEntry>), Failure>)
    ensures r == Parsed(transcriptFileText)
  {
    var text := Strip(CondenseNewlines(RemoveBackslashes(transcriptFileText)));
    var routed := RouteSections(Sections(text));
    if routed.Err? {
      r := Err(routed.error);
    } else {
      r := Ok((routed.value.qna, routed.value.discussion));
    }
  }
}
