# Quarterly-Bytes transcript extraction, modelled in Dafny

Quarterly-Bytes turns bank earnings-call transcripts, already extracted from PDF into
plain text, into tables of speaking turns. This model covers three parts of it.

* **The JP Morgan extractor** (`JpMorgan`, `jp_morgan.dfy`):
  * it cuts a transcript section into blocks at dotted page rules (ten dots or more);
  * each block is cleaned line by line: lines are stripped, blank lines and page-number lines are dropped;
  * the role line is repaired with an ordered table of misspelling rules and split into role and company;
  * get_qna numbers Q&A turns into groups delimited by operator blocks;
  * get_discussion reads management-discussion turns;
  * parse_transcript_to_dataframes cleans the transcript, splits it on the two section headers and routes each section to its parser.
* **The Goldman Sachs extractor** (`GoldmanSachs`, `goldman_sachs.dfy`):
  * it reads the company and conference-call participant rosters ("name - roles" lines);
  * it groups the Q&A section into question/answer groups delimited by "Operator" lines;
  * it locates the management discussion with two flags and splits it into turns by speaker;
  * get_qna_df flattens the groups into rows stamped with quarter and year, then drops groups with a single row.
* **The PDF utilities** (`PdfUtils`, `pdf_utils.dfy`):
  * the quarter and year read from a transcript's file name;
  * the participant lines listed under the two roster headings;
  * the first-match role corrector applied to the discussion frame.

Supporting modules:

* `Text` (`text.dfy`) models the Python string primitives the code relies on:
  * `strip`, `lower`, `in`, `str.replace`, `split`, `join`;
  * `re.split` on alternatives, a lazy `re.search` group, `splitlines`, `sorted`.
* `Wrappers` (`wrappers.dfy`) gives `Option` (Python's `None`) and `Result` (a raised exception).
* `Constants` (`constants.dfy`) gives the `BankType` enumeration stamped on records.

The loops of the source are methods with loop invariants, each proved equal to a
recursive specification function. The properties below are lemmas about those functions.

Within one call of `_correct_role_spelling` the rules chain: each rule works on the output
of the rules before it, so a rule can create a misspelling that a later rule then repairs
(`CorrectedRoleChains`). The function is not idempotent: the rule turning two spaces into
one replaces non-overlapping pairs, so three spaces become two, and a second call makes
them one (`CorrectedRoleNotIdempotent`).

## Model

| member | source | states |
|---|---|---|
| JpMorgan.CorrectRoleSpelling | src/data_extraction/bank_transcript_extractors/jp_morgan.py:110-121 | The corrected role is the stripped role with every rule of the extractor's table applied in table order, and the result is stripped. |
| JpMorgan.CorrectSpelling | src/data_extraction/bank_transcript_extractors/jp_morgan.py:117-121 | The same loop over any table: the result equals applying the rules in order to the stripped input, and it carries no outer whitespace. |
| JpMorgan.ApplyRulesNoKey | src/data_extraction/bank_transcript_extractors/jp_morgan.py:118-120 | Rules whose misspelling does not occur change nothing. |
| JpMorgan.CorrectedRoleNoKey | src/data_extraction/bank_transcript_extractors/jp_morgan.py:117-121 | A role that holds none of the table's misspellings comes back only stripped. |
| JpMorgan.ApplyRules | src/data_extraction/bank_transcript_extractors/jp_morgan.py:117-121 | Defines the loop: the rules in table order, each replacing every occurrence of its misspelling when that occurs in the text so far. |
| JpMorgan.CorrectedRole | src/data_extraction/bank_transcript_extractors/jp_morgan.py:117-121 | Defines `_correct_role_spelling` for a table: strip, run the rules, strip again. |
| JpMorgan.ApplyRulesAppend | src/data_extraction/bank_transcript_extractors/jp_morgan.py:118-120 | Running the rules of two tables one after the other is running the rules of their concatenation. |
| JpMorgan.CorrectedRoleChains | src/data_extraction/bank_transcript_extractors/jp_morgan.py:16-121 | On the extractor's table, the double-space rule turns "Co  ." into "Co .", which the input did not contain, and the later "Co ." rule rewrites it in the same call, giving "Co.". |
| JpMorgan.RolesTableOnShortText | src/data_extraction/bank_transcript_extractors/jp_morgan.py:16-121 | A role holding a double space whose collapsed form has at most four characters and none of `,` `O` `.` `c` gets the double-space rule and no other rule of the table. |
| JpMorgan.CorrectedRoleNotIdempotent | src/data_extraction/bank_transcript_extractors/jp_morgan.py:117-121 | On the extractor's table, "a   b" corrects to "a  b" and that corrects to "a b", so correcting twice differs from correcting once. |
| JpMorgan.DotRun | src/data_extraction/bank_transcript_extractors/jp_morgan.py:85-88 | The run of dots at a position is maximal: every character in it is a dot and the next one is not. |
| JpMorgan.DotSplit | src/data_extraction/bank_transcript_extractors/jp_morgan.py:85-88 | `re.split(r"\.{10,}")`: one more piece than separators, pieces and separators interleave back to the text, every separator is a run of ten or more dots with no dot just before or just after it, and no piece holds ten dots. |
| JpMorgan.SplitOnDotRuns | src/data_extraction/bank_transcript_extractors/jp_morgan.py:85-88 | The pieces `DotSplit` cuts the text into: at least one, none holding ten dots, and a text without ten dots is one piece. |
| JpMorgan.DropDigitLines | src/data_extraction/bank_transcript_extractors/jp_morgan.py:99-101 | Lines made only of digits (page numbers) are removed; every kept line is an input line that is not all digits (that every such line is kept, in order, is stated by `DropDigitLinesPicks`). |
| JpMorgan.DropDigitLinesPicks | src/data_extraction/bank_transcript_extractors/jp_morgan.py:99-101 | The result is exactly the input lines that are not all digits, in input order: each entry is the input line at an increasing index, and every index of a non-digit line is hit. |
| JpMorgan.CleanLines | src/data_extraction/bank_transcript_extractors/jp_morgan.py:95-101 | Defines the cleaned lines of a block: split on newlines, stripped, without blank or all-digit lines. |
| JpMorgan.CleanLinesAreClean | src/data_extraction/bank_transcript_extractors/jp_morgan.py:95-101 | Every cleaned line is non-empty, stripped, not all digits, and holds no ten-dot run when the block held none. |
| JpMorgan.BlockOfCleanLines | src/data_extraction/bank_transcript_extractors/jp_morgan.py:103-106 | A kept block is well formed, and splitting it on newlines gives back exactly its cleaned lines. |
| JpMorgan.RecleanBlock | src/data_extraction/bank_transcript_extractors/jp_morgan.py:152-159 | Cleaning a kept block again (as both parsers do at the top of their loops) changes nothing. |
| JpMorgan.KeptOrdered | src/data_extraction/bank_transcript_extractors/jp_morgan.py:90-91 | The kept positions are exactly the flagged ones, each below the length, in strictly increasing order. |
| JpMorgan.JoinedBlocksCount | src/data_extraction/bank_transcript_extractors/jp_morgan.py:103-106 | There is one block per piece whose cleaned lines are non-empty. |
| JpMorgan.JoinedBlockAt | src/data_extraction/bank_transcript_extractors/jp_morgan.py:103-106 | The k-th block is the newline-join of the cleaned lines of the k-th non-empty piece. |
| JpMorgan.BlocksInOrder | src/data_extraction/bank_transcript_extractors/jp_morgan.py:83-108 | The blocks come from the pieces in source order: block k comes from a piece at a strictly increasing index, and a piece gives a block exactly when it has a cleaned line. |
| JpMorgan.ExtractBlocks | src/data_extraction/bank_transcript_extractors/jp_morgan.py:83-108 | The blocks of a text, each well formed (non-empty, newline-separated clean lines). |
| JpMorgan.CutBlocks | src/data_extraction/bank_transcript_extractors/jp_morgan.py:94-106 | The loop over the pieces appends the join of each piece's cleaned lines and skips the pieces with none. |
| JpMorgan.Content | src/data_extraction/bank_transcript_extractors/jp_morgan.py:201-205 | Defines the content column: the lines after the speaker and role lines, newline-joined and stripped, or empty. |
| JpMorgan.NormalizeCompany | src/data_extraction/bank_transcript_extractors/jp_morgan.py:195-200 | The company is the bank JPMORGAN or the text itself, unchanged. |
| JpMorgan.RoleAndCompany | src/data_extraction/bank_transcript_extractors/jp_morgan.py:191-200 | Role and company are stripped and hold no comma. |
| JpMorgan.RoleAndCompanySplit | src/data_extraction/bank_transcript_extractors/jp_morgan.py:191-194 | The role is the stripped text before the first comma (the whole text when there is none); the company is the stripped text after the last comma, normalised. |
| JpMorgan.SpaceRun | src/data_extraction/bank_transcript_extractors/jp_morgan.py:138-143 | The whitespace run at a position is maximal. |
| JpMorgan.LastNewline | src/data_extraction/bank_transcript_extractors/jp_morgan.py:138-143 | The last newline in a range, or none when the range has no newline. |
| JpMorgan.NewlinesEnd | src/data_extraction/bank_transcript_extractors/jp_morgan.py:139 | `\s*\n+` from a position fails exactly when the whitespace run there holds no newline; otherwise it ends just past the last newline of that run, inside the run, with no newline after it in the run. |
| JpMorgan.HeaderMatchEnd | src/data_extraction/bank_transcript_extractors/jp_morgan.py:138-143 | A header match starts at a line start, has "QUESTION AND ANSWER SECTION" after optional whitespace, and ends just past a newline. |
| JpMorgan.HeaderMatchEndIff | src/data_extraction/bank_transcript_extractors/jp_morgan.py:138-143 | The pattern fails at a position exactly when it is not a line start, the header does not follow the leading whitespace, or the whitespace after the header holds no newline; a match ends just past the last newline of that whitespace. |
| JpMorgan.RemoveQnaHeaders | src/data_extraction/bank_transcript_extractors/jp_morgan.py:138-143 | Removing the header lines never lengthens the text (what is kept and what is dropped is stated by `RemoveQnaHeadersLeftmost`). |
| JpMorgan.RemoveQnaHeadersLeftmost | src/data_extraction/bank_transcript_extractors/jp_morgan.py:138-143 | The substitution keeps the text up to the leftmost match, drops that match and continues after it; with no match the rest is kept whole. |
| JpMorgan.RemoveQnaHeadersAbsent | src/data_extraction/bank_transcript_extractors/jp_morgan.py:138-143 | A text without the Q&A header is left unchanged. |
| JpMorgan.MarkerIndex | src/data_extraction/bank_transcript_extractors/jp_morgan.py:190 | `(Q\|A)$` finds a marker exactly when the role ends in Q or A, or in Q or A followed by one newline; the marker found is that last character, or the one before the final newline. |
| JpMorgan.DropQaMarker | src/data_extraction/bank_transcript_extractors/jp_morgan.py:190 | Without a marker the role is unchanged; otherwise the marker and the whitespace before it are removed and nothing else. |
| JpMorgan.QnaText | src/data_extraction/bank_transcript_extractors/jp_morgan.py:138-144 | Defines the text get_qna cuts into blocks: the headers removed, stripped, and the dotted trailer appended. |
| JpMorgan.QnaRecord | src/data_extraction/bank_transcript_extractors/jp_morgan.py:165-218 | Defines the record one block yields: one entry for a block of two lines or more without an operator line or disclaimer, none otherwise. |
| JpMorgan.QnaEntries | src/data_extraction/bank_transcript_extractors/jp_morgan.py:146-220 | Defines the records of get_qna: each turn numbered by the operator blocks before it and by its place since the last of them. |
| JpMorgan.QnaStep | src/data_extraction/bank_transcript_extractors/jp_morgan.py:152-218 | One more block adds one to the group id exactly when it has an operator line (resetting the order), adds one to the order for a turn, and appends that turn's record. |
| JpMorgan.QnaAdvance | src/data_extraction/bank_transcript_extractors/jp_morgan.py:152-218 | The loop's variables after a block match the specification on the blocks seen so far. |
| JpMorgan.QnaBlock | src/data_extraction/bank_transcript_extractors/jp_morgan.py:165-218 | One pass of the loop: the record of a turn, and the group id and order as updated by operator blocks and turns. |
| JpMorgan.QnaFromBlocks | src/data_extraction/bank_transcript_extractors/jp_morgan.py:146-220 | The loop of get_qna over the blocks gives the records of the specification. |
| JpMorgan.GetQna | src/data_extraction/bank_transcript_extractors/jp_morgan.py:123-220 | get_qna: the records of the blocks of the text once its header lines are removed and the trailing rule is added. |
| JpMorgan.LastEntryStep | src/data_extraction/bank_transcript_extractors/jp_morgan.py:169-218 | One more block keeps the link between the last record and the counters. |
| JpMorgan.QnaLastEntry | src/data_extraction/bank_transcript_extractors/jp_morgan.py:149-218 | No group id exceeds the number of operator blocks, and the last record sits in the current group or no turn has followed the last operator block. |
| JpMorgan.QnaNumbering | src/data_extraction/bank_transcript_extractors/jp_morgan.py:149-218 | Records are numbered as the source intends: the first has order 0; each next record either continues its group with the next order, or opens a later group at order 0. |
| JpMorgan.LastCompanyNone | src/data_extraction/bank_transcript_extractors/jp_morgan.py:264-276 | company_name is still unbound exactly when no block so far had a role line. |
| JpMorgan.DiscussionFails | src/data_extraction/bank_transcript_extractors/jp_morgan.py:222-292 | get_discussion raises exactly when a one-line speaker block comes before every block with a role line. |
| JpMorgan.DiscussionErrSticks | src/data_extraction/bank_transcript_extractors/jp_morgan.py:241-290 | Once the loop has raised, later blocks do not matter. |
| JpMorgan.DiscussionSpeakers | src/data_extraction/bank_transcript_extractors/jp_morgan.py:241-290 | There are at most as many records as blocks, and every record's speaker is the first line of a block that is not an operator block. |
| JpMorgan.DiscussionText | src/data_extraction/bank_transcript_extractors/jp_morgan.py:236-237 | Defines the text get_discussion cuts into blocks: stripped, with the dotted trailer appended. |
| JpMorgan.DiscussionRecord | src/data_extraction/bank_transcript_extractors/jp_morgan.py:250-290 | Defines the record one block yields: none for an operator block, a full entry with a role line, otherwise an entry reading the company left by an earlier block, or the unbound-company failure. |
| JpMorgan.DiscussionEntries | src/data_extraction/bank_transcript_extractors/jp_morgan.py:239-292 | Defines the records of get_discussion, stopping at the first failure. |
| JpMorgan.DiscussionStep | src/data_extraction/bank_transcript_extractors/jp_morgan.py:241-290 | One more block: the company it leaves, and its record appended (or the error raised). |
| JpMorgan.DiscussionAdvance | src/data_extraction/bank_transcript_extractors/jp_morgan.py:241-290 | The loop's variables after a block match the specification on the blocks seen so far. |
| JpMorgan.DiscussionBlock | src/data_extraction/bank_transcript_extractors/jp_morgan.py:250-290 | One pass of the loop: the block's record, or the error on a one-line block when company_name is unbound; a role line sets company_name. |
| JpMorgan.DiscussionFromBlocks | src/data_extraction/bank_transcript_extractors/jp_morgan.py:239-292 | The loop of get_discussion over the blocks gives the records of the specification, or its error. |
| JpMorgan.GetDiscussion | src/data_extraction/bank_transcript_extractors/jp_morgan.py:222-292 | get_discussion: the records of the blocks of the stripped text with the trailing rule added. |
| JpMorgan.RemoveBackslashes | src/data_extraction/bank_transcript_extractors/jp_morgan.py:319 | No backslash remains, the text never grows, and a text without backslashes is unchanged (the exact selection is stated by `RemoveBackslashesPicks`). |
| JpMorgan.CondenseNewlines | src/data_extraction/bank_transcript_extractors/jp_morgan.py:321 | No two newlines remain adjacent, the text never grows, and it starts as before (the exact selection is stated by `CondenseNewlinesPicks`). |
| JpMorgan.RemoveBackslashesPicks | src/data_extraction/bank_transcript_extractors/jp_morgan.py:319 | The result is exactly the characters of the input that are not backslashes, in their order. |
| JpMorgan.CondenseNewlinesPicks | src/data_extraction/bank_transcript_extractors/jp_morgan.py:321 | The result is exactly the characters of the input other than a newline followed by another newline, in their order, so each run of newlines leaves its last one. |
| JpMorgan.CleanTranscript | src/data_extraction/bank_transcript_extractors/jp_morgan.py:319-321 | Defines the initial cleaning: backslashes removed, newline runs condensed, then stripped. |
| JpMorgan.Alternate | src/data_extraction/bank_transcript_extractors/jp_morgan.py:324-326 | Splitting with a capturing group alternates the pieces and the captured headers. |
| JpMorgan.SplitOnHeaders | src/data_extraction/bank_transcript_extractors/jp_morgan.py:324-326 | Defines `re.split` with the two headers as one capturing group: pieces and headers alternating. |
| JpMorgan.Sections | src/data_extraction/bank_transcript_extractors/jp_morgan.py:324-327 | Defines the sections: the split list stripped, without empty strings. |
| JpMorgan.SectionsLackHeader | src/data_extraction/bank_transcript_extractors/jp_morgan.py:324-327 | A header absent from the text is never one of the sections. |
| JpMorgan.SectionLacksHeader | src/data_extraction/bank_transcript_extractors/jp_morgan.py:324-327 | A header absent from the text is not the k-th section. |
| JpMorgan.PiecesAvoidHeader | src/data_extraction/bank_transcript_extractors/jp_morgan.py:324-326 | Every split piece avoids a header that the text lacks. |
| JpMorgan.StrippedAvoidsHeader | src/data_extraction/bank_transcript_extractors/jp_morgan.py:327 | Stripping and dropping blank pieces keeps a header out. |
| JpMorgan.RouteWithoutQnaHeader | src/data_extraction/bank_transcript_extractors/jp_morgan.py:336-352 | Without a Q&A header the routing never enters the Q&A section and the Q&A output stays empty. |
| JpMorgan.RouteStepOutsideQna | src/data_extraction/bank_transcript_extractors/jp_morgan.py:341-349 | A part other than the Q&A header keeps the routing out of the Q&A section. |
| JpMorgan.RouteWithoutMdHeader | src/data_extraction/bank_transcript_extractors/jp_morgan.py:336-352 | Without a discussion header the routing cannot fail and the discussion output stays empty. |
| JpMorgan.RouteStepOutsideDiscussion | src/data_extraction/bank_transcript_extractors/jp_morgan.py:341-352 | A part other than the discussion header keeps the routing out of the discussion section and cannot fail. |
| JpMorgan.ParsedWithoutQnaHeader | src/data_extraction/bank_transcript_extractors/jp_morgan.py:314-354 | A transcript whose cleaned text lacks the Q&A header yields no Q&A records. |
| JpMorgan.ParsedWithoutMdHeader | src/data_extraction/bank_transcript_extractors/jp_morgan.py:314-354 | A transcript whose cleaned text lacks the discussion header parses without error and yields no discussion records. |
| JpMorgan.RouteErrSticks | src/data_extraction/bank_transcript_extractors/jp_morgan.py:336-352 | An error raised by a section stops the routing: later sections do not change the outcome. |
| JpMorgan.RouteStepAt | src/data_extraction/bank_transcript_extractors/jp_morgan.py:336-352 | The routing over one more section is one step on the routing so far. |
| JpMorgan.Route | src/data_extraction/bank_transcript_extractors/jp_morgan.py:336-352 | Defines the routing loop: a header switches the current section, content replaces that section's output, the first failure stops it. |
| JpMorgan.Parsed | src/data_extraction/bank_transcript_extractors/jp_morgan.py:314-354 | Defines parse_transcript_to_dataframes: cleaning, sectioning, then routing. |
| JpMorgan.RouteSection | src/data_extraction/bank_transcript_extractors/jp_morgan.py:337-352 | One pass of the routing loop: a header switches section; content replaces that section's output. |
| JpMorgan.RouteSections | src/data_extraction/bank_transcript_extractors/jp_morgan.py:336-352 | The routing loop over the sections gives the specification's outcome. |
| JpMorgan.ParseTranscript | src/data_extraction/bank_transcript_extractors/jp_morgan.py:314-354 | parse_transcript_to_dataframes: the Q&A and discussion records of the cleaned, segmented transcript, or the error. |
| GoldmanSachs.RolesValueSingle | src/data_extraction/bank_transcript_extractors/goldman_sachs.py:34-36 | A roles text without "&" or "and" is kept whole, only stripped. |
| GoldmanSachs.RosterEntry | src/data_extraction/bank_transcript_extractors/goldman_sachs.py:32-36 | A line gives an entry exactly when it contains " - ". |
| GoldmanSachs.RosterLast | src/data_extraction/bank_transcript_extractors/goldman_sachs.py:29-37 | The last line naming a participant decides that participant's roles. |
| GoldmanSachs.RosterSource | src/data_extraction/bank_transcript_extractors/goldman_sachs.py:29-37 | Every roster name comes from a line naming it, and the last such line gave its roles. |
| GoldmanSachs.RosterStep | src/data_extraction/bank_transcript_extractors/goldman_sachs.py:31-36 | One more line leaves the roster alone or sets the roles of the name it gives. |
| GoldmanSachs.ParseParticipants | src/data_extraction/bank_transcript_extractors/goldman_sachs.py:29-37 | parse_participants: the roster of the lines of a span. |
| GoldmanSachs.RolesValue | src/data_extraction/bank_transcript_extractors/goldman_sachs.py:34-36 | Defines the roles value: the roles split on "&" and "and", stripped, sorted and joined with ", ". |
| GoldmanSachs.Roster | src/data_extraction/bank_transcript_extractors/goldman_sachs.py:29-37 | Defines the roster dictionary: later lines for the same name overwrite earlier ones. |
| GoldmanSachs.CompanySpan | src/data_extraction/bank_transcript_extractors/goldman_sachs.py:40-44 | Defines the company span: the lazy group after "Company Participants" up to "Conference Call Participants" or "Operator". |
| GoldmanSachs.ConferenceSpan | src/data_extraction/bank_transcript_extractors/goldman_sachs.py:52-54 | Defines the conference span: the lazy group after "Conference Call Participants" up to "Operator". |
| GoldmanSachs.SpanMissing | src/data_extraction/bank_transcript_extractors/goldman_sachs.py:40-61 | A span whose marker, or all of whose terminators, are missing from the text is absent. |
| GoldmanSachs.ParticipantsMissing | src/data_extraction/bank_transcript_extractors/goldman_sachs.py:40-61 | Without its marker or terminators a roster is empty rather than an error. |
| GoldmanSachs.ExtractParticipants | src/data_extraction/bank_transcript_extractors/goldman_sachs.py:16-63 | _extract_participants: both rosters. |
| GoldmanSachs.RosterNamesStripped | src/data_extraction/bank_transcript_extractors/goldman_sachs.py:34 | Every roster name is stripped. |
| GoldmanSachs.ParticipantsStripped | src/data_extraction/bank_transcript_extractors/goldman_sachs.py:16-63 | Every name on either roster is stripped. |
| GoldmanSachs.ExtractQnaSection | src/data_extraction/bank_transcript_extractors/goldman_sachs.py:65-77 | Empty when the heading is missing; otherwise the stripped text after the first occurrence of the heading; always stripped. |
| GoldmanSachs.SpeakerOf | src/data_extraction/bank_transcript_extractors/goldman_sachs.py:121-127 | A cleaned line names a participant exactly when some roster name lower-cases to it, and then the returned name is that one. |
| GoldmanSachs.CloseGroup | src/data_extraction/bank_transcript_extractors/goldman_sachs.py:110-118 | An operator line with a non-empty group stores it under the next group index and starts an empty group. |
| GoldmanSachs.GroupsExtend | src/data_extraction/bank_transcript_extractors/goldman_sachs.py:112-113 | Storing a well-formed group under the next index keeps the groups keyed 0, 1, ... and well-formed. |
| GoldmanSachs.OpenItemOk | src/data_extraction/bank_transcript_extractors/goldman_sachs.py:128-144 | The entry a speaker line opens is classified as the rosters say. |
| GoldmanSachs.GroupExtendOk | src/data_extraction/bank_transcript_extractors/goldman_sachs.py:122-144 | A well-classified entry added under the next key gives a well-formed group. |
| GoldmanSachs.OpenEntry | src/data_extraction/bank_transcript_extractors/goldman_sachs.py:121-144 | A speaker line opens the next entry of the current group with empty content; groups are unchanged. |
| GoldmanSachs.GroupUpdate | src/data_extraction/bank_transcript_extractors/goldman_sachs.py:146-147 | Replacing an entry by a well-classified one keeps the group well-formed. |
| GoldmanSachs.AppendItemOk | src/data_extraction/bank_transcript_extractors/goldman_sachs.py:146-147 | Appending a space and a lower-cased line keeps an entry well-classified. |
| GoldmanSachs.AppendLine | src/data_extraction/bank_transcript_extractors/goldman_sachs.py:145-147 | A body line is appended, after a space, to the current speaker's entry, and nothing else changes. |
| GoldmanSachs.QnaStep | src/data_extraction/bank_transcript_extractors/goldman_sachs.py:104-147 | One pass keeps the loop invariant (groups keyed 0.., each non-empty and classified); an operator line clears the speaker and the current group, and changes nothing when the group is empty; with no current speaker, a line that names no participant changes nothing; a line naming a participant makes that participant the speaker. |
| GoldmanSachs.QnaDropAfterOperator | src/data_extraction/bank_transcript_extractors/goldman_sachs.py:110-147 | After an operator line, body lines are dropped until the next speaker line: when no later line names a participant, the loop ends in the state the operator line left, with no speaker and an empty group. |
| GoldmanSachs.Cleaned | src/data_extraction/bank_transcript_extractors/goldman_sachs.py:105 | Each line stripped and lower-cased. |
| GoldmanSachs.QnaFold | src/data_extraction/bank_transcript_extractors/goldman_sachs.py:104-147 | The loop keeps its invariant over any lines. |
| GoldmanSachs.CloseGroupsShape | src/data_extraction/bank_transcript_extractors/goldman_sachs.py:149-153 | Storing the last group keeps the result keyed 0, 1, ... with well-formed groups. |
| GoldmanSachs.QnaGroupsShape | src/data_extraction/bank_transcript_extractors/goldman_sachs.py:79-153 | Group keys run 0, 1, ...; every group is non-empty, keyed 0, 1, ..., and each entry is a question exactly when its speaker is on the conference roster. |
| GoldmanSachs.QnaStepIdle | src/data_extraction/bank_transcript_extractors/goldman_sachs.py:104-147 | One pass leaves the loop empty exactly when it was empty and the line opens no entry. |
| GoldmanSachs.QnaFoldIdle | src/data_extraction/bank_transcript_extractors/goldman_sachs.py:104-147 | The loop holds nothing exactly as long as no line has named a participant. |
| GoldmanSachs.CloseGroupsIdle | src/data_extraction/bank_transcript_extractors/goldman_sachs.py:149-153 | No group is returned exactly when the loop holds nothing. |
| GoldmanSachs.QnaEmptyIff | src/data_extraction/bank_transcript_extractors/goldman_sachs.py:79-153 | No Q&A group comes out exactly when no cleaned line names a participant. |
| GoldmanSachs.QnaFoldAt | src/data_extraction/bank_transcript_extractors/goldman_sachs.py:104-147 | The loop over one more line is one step on the loop so far. |
| GoldmanSachs.SplitQna | src/data_extraction/bank_transcript_extractors/goldman_sachs.py:79-153 | Defines `_split_qna_section`: the loop fold over the cleaned lines, then the last group closed. |
| GoldmanSachs.SplitQnaSection | src/data_extraction/bank_transcript_extractors/goldman_sachs.py:79-153 | _split_qna_section: the loop over the cleaned lines gives the specification's groups. |
| GoldmanSachs.FirstFrom | src/data_extraction/bank_transcript_extractors/goldman_sachs.py:170-187 | The first line at or after a position satisfying a test, or the end: nothing before it satisfies the test. |
| GoldmanSachs.CapturedEmpty | src/data_extraction/bank_transcript_extractors/goldman_sachs.py:170-187 | Without an operator line, or without a company participant's line after the first one, nothing is captured. |
| GoldmanSachs.CapturedShape | src/data_extraction/bank_transcript_extractors/goldman_sachs.py:170-187 | A non-empty capture starts with a company participant's line, and no captured line holds the Q&A heading. |
| GoldmanSachs.ManagementDiscussionExcludesQna | src/data_extraction/bank_transcript_extractors/goldman_sachs.py:155-192 | The management discussion never contains "Question-and-Answer Session". |
| GoldmanSachs.CaptureLines | src/data_extraction/bank_transcript_extractors/goldman_sachs.py:165-187 | The flag-driven loop captures the lines from the first participant line after the first operator line up to, not including, the first line holding the heading. |
| GoldmanSachs.ManagementDiscussionOf | src/data_extraction/bank_transcript_extractors/goldman_sachs.py:155-192 | Defines `_extract_management_discussion`: the captured lines, newline-joined and stripped. |
| GoldmanSachs.ExtractManagementDiscussion | src/data_extraction/bank_transcript_extractors/goldman_sachs.py:155-192 | _extract_management_discussion: the captured lines, joined with newlines and stripped. |
| GoldmanSachs.OpenTurn | src/data_extraction/bank_transcript_extractors/goldman_sachs.py:218-228 | A company participant's line opens the next turn with empty content, that participant's roles and the bank. |
| GoldmanSachs.AppendTurn | src/data_extraction/bank_transcript_extractors/goldman_sachs.py:229-231 | Another line is appended after a space to the current turn, and nothing else changes. |
| GoldmanSachs.TurnStep | src/data_extraction/bank_transcript_extractors/goldman_sachs.py:212-231 | One pass keeps the turns keyed 0, 1, ... and each one as the company roster says. |
| GoldmanSachs.TurnFold | src/data_extraction/bank_transcript_extractors/goldman_sachs.py:212-231 | The loop keeps that invariant over any lines. |
| GoldmanSachs.TurnFoldCount | src/data_extraction/bank_transcript_extractors/goldman_sachs.py:212-231 | There is one turn per line naming a company participant. |
| GoldmanSachs.DiscussionShape | src/data_extraction/bank_transcript_extractors/goldman_sachs.py:194-233 | The turns are keyed 0, 1, ..., one per speaker line, each a company participant with their roles at the bank. |
| GoldmanSachs.TurnFoldAt | src/data_extraction/bank_transcript_extractors/goldman_sachs.py:212-231 | The loop over one more line is one step on the loop so far. |
| GoldmanSachs.SplitDiscussion | src/data_extraction/bank_transcript_extractors/goldman_sachs.py:194-233 | Defines `_split_management_discussion_section`: the turn fold over the stripped lines. |
| GoldmanSachs.TurnLine | src/data_extraction/bank_transcript_extractors/goldman_sachs.py:213-231 | One pass of the loop, as the specification's step. |
| GoldmanSachs.TurnLines | src/data_extraction/bank_transcript_extractors/goldman_sachs.py:210-233 | The loop over the lines gives the specification's turns. |
| GoldmanSachs.SplitManagementDiscussionSection | src/data_extraction/bank_transcript_extractors/goldman_sachs.py:194-233 | _split_management_discussion_section: the turns of the text. |
| GoldmanSachs.GetQna | src/data_extraction/bank_transcript_extractors/goldman_sachs.py:235-244 | get_qna: the groups of the Q&A section, keyed 0, 1, ..., each well-formed. |
| GoldmanSachs.GetDiscussion | src/data_extraction/bank_transcript_extractors/goldman_sachs.py:246-255 | get_discussion: the turns of the management discussion, keyed 0, 1, ..., each as the company roster says. |
| GoldmanSachs.EntryRowsFrom | src/data_extraction/bank_transcript_extractors/goldman_sachs.py:279-290 | A group's rows are its entries stamped with the group id, quarter and year, in increasing entry order. |
| GoldmanSachs.EntryRowsIndexed | src/data_extraction/bank_transcript_extractors/goldman_sachs.py:279-290 | With entries 0..k-1 present, entry e gives the e-th row. |
| GoldmanSachs.FlatRowAt | src/data_extraction/bank_transcript_extractors/goldman_sachs.py:278-290 | Every flattened row is the stamped entry at its group id and question order, from one of the groups walked. |
| GoldmanSachs.FlatRowsOrder | src/data_extraction/bank_transcript_extractors/goldman_sachs.py:278-290 | Flattened rows are in strictly increasing group-then-entry order. |
| GoldmanSachs.FlatRowsShape | src/data_extraction/bank_transcript_extractors/goldman_sachs.py:278-290 | All rows come from the groups, in strictly increasing group-then-entry order. |
| GoldmanSachs.FlatRows | src/data_extraction/bank_transcript_extractors/goldman_sachs.py:278-290 | Defines the flattened rows: the groups in insertion order, each group's entries in order. |
| GoldmanSachs.GroupCountAppend | src/data_extraction/bank_transcript_extractors/goldman_sachs.py:294 | Counting rows of a group over two row lists adds up. |
| GoldmanSachs.GroupCountSame | src/data_extraction/bank_transcript_extractors/goldman_sachs.py:294 | Rows all of one group count fully for that group. |
| GoldmanSachs.GroupCountNone | src/data_extraction/bank_transcript_extractors/goldman_sachs.py:294 | Rows of other groups count zero. |
| GoldmanSachs.GroupRowsIds | src/data_extraction/bank_transcript_extractors/goldman_sachs.py:279-283 | Every row of group g carries group id g. |
| GoldmanSachs.FlatRowsCount | src/data_extraction/bank_transcript_extractors/goldman_sachs.py:278-294 | Each walked group contributes exactly its own rows to the count. |
| GoldmanSachs.GroupSize | src/data_extraction/bank_transcript_extractors/goldman_sachs.py:278-294 | value_counts() of group g is the number of entries of group g (zero for no such group). |
| GoldmanSachs.KeepMulti | src/data_extraction/bank_transcript_extractors/goldman_sachs.py:294-295 | A row is kept exactly when it is in the input and its group has more than one row. |
| GoldmanSachs.KeepMultiOrder | src/data_extraction/bank_transcript_extractors/goldman_sachs.py:295 | The filter keeps the kept rows in their relative order. |
| GoldmanSachs.DropSingleGroupsSpec | src/data_extraction/bank_transcript_extractors/goldman_sachs.py:292-295 | The frame keeps exactly the rows of groups with more than one row, in order. |
| GoldmanSachs.DropSingleGroups | src/data_extraction/bank_transcript_extractors/goldman_sachs.py:292-295 | Defines the filter: the rows whose group id occurs on more than one row, in order. |
| GoldmanSachs.AppendGroupRows | src/data_extraction/bank_transcript_extractors/goldman_sachs.py:279-290 | The inner loop appends one row per entry of the group in entry order. |
| GoldmanSachs.FlattenQna | src/data_extraction/bank_transcript_extractors/goldman_sachs.py:278-290 | The outer loop appends the rows of every group in group order. |
| GoldmanSachs.EntryRowsHas | src/data_extraction/bank_transcript_extractors/goldman_sachs.py:279-290 | Every entry of a group has its row. |
| GoldmanSachs.FlatRowsHas | src/data_extraction/bank_transcript_extractors/goldman_sachs.py:278-290 | Every entry of every walked group has its row among the flattened rows. |
| GoldmanSachs.QnaFrame | src/data_extraction/bank_transcript_extractors/goldman_sachs.py:257-296 | Defines get_qna_df: the Q&A groups flattened into rows, then single-row groups dropped. |
| GoldmanSachs.QnaFrameShape | src/data_extraction/bank_transcript_extractors/goldman_sachs.py:257-296 | Every row of the frame is a stamped entry of a group with more than one entry; every entry of such a group has its row; and the rows are in group-then-entry order. |
| GoldmanSachs.GetQnaDf | src/data_extraction/bank_transcript_extractors/goldman_sachs.py:257-296 | get_qna_df: the rows of the frame specification. |
| PdfUtils.FindMatch | src/utils/pdf_utils.py:138-141 | The leftmost position at or after the start where the file-name pattern matches, or none. |
| PdfUtils.FullYear | src/utils/pdf_utils.py:150-162 | Defines the century rule as written: "20" for a value in 0..99, otherwise "19" above 50 and "20" below. |
| PdfUtils.FullYearIsTwentyFirstCentury | src/utils/pdf_utils.py:150-162 | Two digits always read as 0..99, so the year is always "20" followed by those digits. |
| PdfUtils.QuarterAndYear | src/utils/pdf_utils.py:110-166 | Both parts are None exactly when the pattern matches nowhere; otherwise the quarter digit and the year of the leftmost match. |
| PdfUtils.QuarterAndYearShape | src/utils/pdf_utils.py:143-164 | On a match the quarter is one digit (not checked to lie in 1..4) and the year is four characters starting "20". |
| PdfUtils.QuarterAndYearExample | src/utils/pdf_utils.py:117-130 | The documented example: "1q22_earnings_transcript.pdf" gives ("1", "2022"). |
| PdfUtils.SpanLines | src/utils/pdf_utils.py:89-91 | A missing span lists nothing; every listed line is non-empty and stripped. |
| PdfUtils.SpanLinesPicks | src/utils/pdf_utils.py:89-91 | Of a present span, the list holds exactly the non-blank lines, stripped, in their order: each entry is the stripped line at an increasing index, and a line is used exactly when it is not blank. |
| PdfUtils.ParticipantsSections | src/utils/pdf_utils.py:68-107 | A list is empty when its heading is missing, and also when no terminator follows the heading's first occurrence ("Conference Call Participants" or "Operator" for the company list, "Operator" for the conference list). |
| PdfUtils.ParticipantsSectionsSpans | src/utils/pdf_utils.py:82-103 | The two lists come from the same spans the Goldman Sachs roster reads. |
| PdfUtils.ParticipantLinesInOrder | src/utils/pdf_utils.py:82-103 | Both lists, company and conference, hold exactly the non-blank lines of their span, stripped and in order, with the index of the line each entry comes from. |
| PdfUtils.FirstKey | src/utils/pdf_utils.py:281-284 | The first rule in table order whose misspelling occurs, or none; no earlier rule's misspelling occurs. |
| PdfUtils.CorrectRole | src/utils/pdf_utils.py:280-285 | A role holding none of the misspellings is returned unchanged. |
| PdfUtils.FirstRuleApplies | src/utils/pdf_utils.py:281-284 | When the first rule's misspelling occurs, that rule alone is applied. |
| PdfUtils.CorrectRolesWith | src/utils/pdf_utils.py:280-285 | The loop replaces the first misspelling found everywhere and then stops. |
| PdfUtils.CorrectRoles | src/utils/pdf_utils.py:213-285 | correct_roles, with the table misspelt_roles_dict. |
| PdfUtils.CollapseLeadingSpaces | src/utils/pdf_utils.py:214 | Replacing double spaces collapses a leading double space when the rest has none. |
| PdfUtils.DoubleSpaceRuleFirst | src/utils/pdf_utils.py:280-285 | A role starting with a double space gets only that rule. |
| PdfUtils.CorrectRoleFirstMatchOnly | src/utils/pdf_utils.py:280-285 | Only the first matching rule applies: "  Ch ief" becomes " Ch ief", not "Chief". |
| Text.Sort | src/data_extraction/bank_transcript_extractors/goldman_sachs.py:34 | sorted(): the result is sorted and a permutation of the input. |
| Text.Strip | src/data_extraction/bank_transcript_extractors/jp_morgan.py:117 | Defines `str.strip()`: leading and trailing whitespace removed. |
| Text.Lower | src/data_extraction/bank_transcript_extractors/jp_morgan.py:197 | Defines `str.lower()` on ASCII text, character by character. |
| Text.Join | src/data_extraction/bank_transcript_extractors/jp_morgan.py:106 | Defines `sep.join(parts)`. |
| Text.Split | src/data_extraction/bank_transcript_extractors/jp_morgan.py:95 | Defines `s.split(sep)`: at least one piece, no piece holding the separator. |
| Text.IndexOf | src/data_extraction/bank_transcript_extractors/jp_morgan.py:119 | Defines `s.find(p)`: the leftmost occurrence at or after a position, or none. |
| Text.StrippedNonEmpty | src/data_extraction/bank_transcript_extractors/jp_morgan.py:96-98 | Defines `[x.strip() for x in xs if x.strip()]`; every kept string is non-empty and stripped. |
| Text.StrippedNonEmptyPicks | src/data_extraction/bank_transcript_extractors/jp_morgan.py:96-98 | The comprehension keeps exactly the non-blank inputs, stripped, in input order: an increasing index map into the input, hit exactly by the non-blank inputs. |
| Text.SplitAlt | src/data_extraction/bank_transcript_extractors/goldman_sachs.py:35 | re.split on alternatives: pieces and separators interleave back to the input, no piece holds a separator. |
| Text.LazySpan | src/data_extraction/bank_transcript_extractors/goldman_sachs.py:40-44 | A lazy regex group: absent when the marker is absent; when the marker is present, absent exactly when no terminator starts after it; otherwise the text from just after the first marker up to the first place where a terminator starts. |
| Text.JoinSplit | src/data_extraction/bank_transcript_extractors/jp_morgan.py:95-106 | Joining the pieces of a split with the separator gives back the text. |
| Text.SplitJoin | src/data_extraction/bank_transcript_extractors/jp_morgan.py:103-106 | Splitting a join of pieces free of the separator gives back the pieces. |
| Text.LastPieceIsTail | src/data_extraction/bank_transcript_extractors/jp_morgan.py:193 | The last piece of a split is the tail after the last separator (or the whole text). |
| Text.StripIdempotent | src/data_extraction/bank_transcript_extractors/jp_morgan.py:117-121 | Stripping twice is stripping once. |
| Text.StripIsInner | src/data_extraction/bank_transcript_extractors/jp_morgan.py:117 | Strip removes only leading and trailing whitespace. |
| Text.ReplaceAll | src/data_extraction/bank_transcript_extractors/jp_morgan.py:120 | Replacing a pattern that does not occur changes nothing (the full meaning is `ReplaceAllSplitJoin`). |
| Text.ReplaceAllSplitJoin | src/data_extraction/bank_transcript_extractors/jp_morgan.py:120 | `str.replace` equals splitting on the pattern and joining the pieces with the replacement. |
| Text.SplitLines | src/data_extraction/bank_transcript_extractors/goldman_sachs.py:98 | splitlines(): no line holds a line break; the empty text has no lines (agreement with `split("\n")` is `SplitLinesSplit`). |
| Text.SplitLinesSplit | src/data_extraction/bank_transcript_extractors/goldman_sachs.py:98 | On a text whose only line breaks are newlines, `splitlines()` equals `split("\n")` without the trailing empty piece that a final newline leaves, and the empty text has no lines. |

## Left out

- PDF reading, directory walking and the driver `extract_transcripts_pdf_df_from_dir`: these are I/O. The model starts from the extracted text.
- pandas DataFrames are modelled as sequences of records, one per row. Column order and pandas index labels are not modelled.
- get_qna_df and get_discussion_df of the JP Morgan extractor only wrap lists in a DataFrame. `ParseTranscript` returns the records directly.
- get_discussion_df of the Goldman Sachs extractor only turns the turns into rows; it is not modelled.
- The Goldman Sachs constructor stores the text, the rosters and the quarter and year. The model passes the rosters (`Participants`) and the quarter and year as parameters instead.
- Logging and the exception handlers around PDF reading are not modelled.
- Text is ASCII. There is no Unicode whitespace, case folding or digit classes beyond ASCII.
  `Text.Lower`, `Text.Strip` and `Text.IsDigit` follow Python only on ASCII input.
- GoldmanSachs.SpeakerOf requires roster names to stay distinct once lower-cased.
  The source picks the speaker by iterating over a set, so with two names that differ only in case its choice depends on set order. The model leaves that case out.
- `start_index` in get_qna is assigned but never read, so it has no counterpart.
- JpMorgan.GetDiscussion: when a one-line block comes before any block with a role line, the source reads an unbound local and raises.
  The model returns `Err(UnboundCompany)` for this; `DiscussionFails` gives the exact condition.
- `misspelt_roles_dict` in the PDF utilities is the JP Morgan table without its last rule.
  The literal repeats the keys "M ember" and "Amer ica" with the same values. A Python dict keeps each key once, at its first position, and so does the model.
- The `BankType` member values live in a constants module that is not part of this model. A company is either transcript text or an enumeration member.
- `FullYear` keeps the unreachable "19" branch as written. `FullYearIsTwentyFirstCentury` shows that it is never taken.
- Text.LastPiece: `split(",")[-1]` is modelled as the text after the last comma. It is characterised by `LastPieceIsTail`, not proved equal to the last element of `Text.Split`.
