/**
 * The release-notes compiler after parsing: commits are categorised under
 * the headings of a commit-code mapping, breaking changes are counted, the
 * notes are rendered as a Markdown block between two HTML-comment markers,
 * and the block is spliced into the pull request's previous description.
 */
module ReleaseNotes {
  import opened Strings
  import opened CommitChecker
  import opened LogParsing

  const BreakingChangeNotePrefix := "**BREAKING CHANGE:** "
  const BreakingChangeCountKey := "BREAKING CHANGE COUNT"
  const OtherHeading := "### Other"
  const UncategorisedHeading := "### Uncategorised!"

  const StartMarker := "<!--- START AUTOGENERATED NOTES --->"
  const EndMarker := "<!--- END AUTOGENERATED NOTES --->"
  const SkipMarker := "<!--- SKIP AUTOGENERATED NOTES --->"

  /**
   * A commit-code-to-heading mapping: a dict's items in insertion order. A
   * dict's codes are distinct; the sequence does not insist on it, and
   * `Lookup` reads the first entry for a code.
   */
  type Mapping = seq<(string, string)>

  const DefaultMapping: Mapping := [
    ("FEA", "### New features"),
    ("ENH", "### Enhancements"),
    ("FIX", "### Fixes"),
    ("OPS", "### Operations"),
    ("DEP", "### Dependencies"),
    ("REF", "### Refactoring"),
    ("TST", "### Testing"),
    ("MRG", "### Other"),
    ("REV", "### Reversions"),
    ("CHO", "### Chores"),
    ("WIP", "### Other"),
    ("DOC", "### Other"),
    ("STY", "### Other")
  ]

  /** The mapping in force: an empty (or absent) one falls back to the default. */
  function EffectiveMapping(mapping: Mapping): Mapping
  {
    if |mapping| == 0 then DefaultMapping else mapping
  }

  /** `mapping[code]`, or `None` where it raises `KeyError`. */
  function Lookup(mapping: Mapping, code: string): (r: Option<string>)
    ensures r.Some? ==> exists i :: 0 <= i < |mapping| && mapping[i] == (code, r.value) && forall j :: 0 <= j < i ==> mapping[j].0 != code
    ensures r.None? <==> forall i :: 0 <= i < |mapping| ==> mapping[i].0 != code
  {
    if |mapping| == 0 then None
    else if mapping[0].0 == code then Some(mapping[0].1)
    else
      var r := Lookup(mapping[1..], code);
      assert r.Some? ==> exists i :: 0 <= i < |mapping| && mapping[i] == (code, r.value) && forall j :: 0 <= j < i ==> mapping[j].0 != code by {
        if r.Some? {
          var i :| 0 <= i < |mapping[1..]| && mapping[1..][i] == (code, r.value) && forall j :: 0 <= j < i ==> mapping[1..][j].0 != code;
          assert mapping[i + 1] == (code, r.value);
          forall j | 0 <= j < i + 1
            ensures mapping[j].0 != code
          {
            if j > 0 {
              assert mapping[j] == mapping[1..][j - 1];
            }
          }
        }
      }
      r
  }

  /** The mapping's headings without repeats, in order of first occurrence (the keys of the dict comprehension). */
  function Headings(mapping: Mapping): (hs: seq<string>)
    ensures forall i, j :: 0 <= i < j < |hs| ==> hs[i] != hs[j]
    ensures forall h :: h in hs <==> exists i :: 0 <= i < |mapping| && mapping[i].1 == h
  {
    if |mapping| == 0 then []
    else
      var init := mapping[..|mapping| - 1];
      var hs := Headings(init);
      var h := mapping[|mapping| - 1].1;
      assert forall i :: 0 <= i < |init| ==> mapping[i] == init[i];
      if h in hs then hs else hs + [h]
  }

  // ---------------------------------------------------------------------
  // Categorising
  // ---------------------------------------------------------------------

  datatype Section = Section(heading: string, notes: seq<string>)

  /** The sections so far and the number of breaking changes counted. */
  datatype Tally = Tally(sections: seq<Section>, breakingChanges: nat)

  datatype CategoriseError =
    | MissingOtherHeading(code: string)     // `KeyError` raised inside the handler
    | CountKeyAsHeading(code: string)       // `AttributeError`: appending to the count

  function HeadingsOf(sections: seq<Section>): (hs: seq<string>)
    ensures |hs| == |sections|
    ensures forall i :: 0 <= i < |sections| ==> hs[i] == sections[i].heading
  {
    if |sections| == 0 then [] else [sections[0].heading] + HeadingsOf(sections[1..])
  }

  function EmptySections(headings: seq<string>): (s: seq<Section>)
    ensures HeadingsOf(s) == headings
    ensures forall i :: 0 <= i < |s| ==> s[i].notes == []
  {
    if |headings| == 0 then [] else [Section(headings[0], [])] + EmptySections(headings[1..])
  }

  /** `release_notes[heading].append(note)`. */
  function AddNote(sections: seq<Section>, heading: string, note: string): (r: seq<Section>)
    ensures HeadingsOf(r) == HeadingsOf(sections)
    ensures forall i :: 0 <= i < |r| ==>
              r[i].notes == if sections[i].heading == heading then sections[i].notes + [note] else sections[i].notes
  {
    if |sections| == 0 then []
    else
      var s := sections[0];
      [if s.heading == heading then s.(notes := s.notes + [note]) else s] + AddNote(sections[1..], heading, note)
  }

  /** A commit is a breaking change when its body holds an upper-case indicator anywhere. */
  predicate IsBreakingChange(c: ParsedCommit)
  {
    MentionsIndicator(c.body)
  }

  /** The heading a commit lands under: its code's heading, or `### Other` for an unknown code. */
  function Destination(mapping: Mapping, c: ParsedCommit): string
  {
    match Lookup(mapping, c.code)
    case Some(h) => h
    case None => OtherHeading
  }

  /** The note for a commit: its header, prefixed when it is a breaking change with a known code. */
  function NoteFor(mapping: Mapping, c: ParsedCommit): string
  {
    if Lookup(mapping, c.code).Some? && IsBreakingChange(c) then BreakingChangeNotePrefix + c.header else c.header
  }

  /** The commit can be filed: its heading is not the count key, and `### Other` exists if the code is unknown. */
  predicate Fileable(mapping: Mapping, c: ParsedCommit)
  {
    match Lookup(mapping, c.code)
    case Some(h) => h != BreakingChangeCountKey
    case None => OtherHeading in Headings(mapping)
  }

  /** The loop of `_categorise_commit_messages` over the parsed commits, in order. */
  function CategoriseParsed(mapping: Mapping, commits: seq<ParsedCommit>): (r: Result<Tally, CategoriseError>)
    decreases |commits|
  {
    if |commits| == 0 then Success(Tally(EmptySections(Headings(mapping)), 0))
    else match CategoriseParsed(mapping, commits[..|commits| - 1])
      case Failure(e) => Failure(e)
      case Success(t) =>
        var c := commits[|commits| - 1];
        var count := t.breakingChanges + (if IsBreakingChange(c) then 1 else 0);
        match Lookup(mapping, c.code)
        case Some(h) =>
          if h == BreakingChangeCountKey then Failure(CountKeyAsHeading(c.code))
          else Success(Tally(AddNote(t.sections, h, NoteFor(mapping, c)), count))
        case None =>
          if OtherHeading !in Headings(mapping) then Failure(MissingOtherHeading(c.code))
          else Success(Tally(AddNote(t.sections, OtherHeading, c.header), count))
  }

  /** Every section under `heading` gets `notes` in place of its own. */
  function ReplaceNotes(sections: seq<Section>, heading: string, notes: seq<string>): (r: seq<Section>)
    ensures HeadingsOf(r) == HeadingsOf(sections)
    ensures forall i :: 0 <= i < |sections| ==>
              r[i].notes == if sections[i].heading == heading then notes else sections[i].notes
  {
    if |sections| == 0 then []
    else
      var s := sections[0];
      [if s.heading == heading then s.(notes := notes) else s] + ReplaceNotes(sections[1..], heading, notes)
  }

  /** `release_notes[heading] = notes`: replace in place, or add at the end. */
  function PutSection(sections: seq<Section>, heading: string, notes: seq<string>): (r: seq<Section>)
    ensures heading in HeadingsOf(sections) ==> HeadingsOf(r) == HeadingsOf(sections)
    ensures heading !in HeadingsOf(sections) ==> HeadingsOf(r) == HeadingsOf(sections) + [heading]
    ensures forall i :: 0 <= i < |sections| ==>
              r[i].notes == if sections[i].heading == heading then notes else sections[i].notes
    ensures heading !in HeadingsOf(sections) ==> r[|sections|] == Section(heading, notes)
  {
    if heading in HeadingsOf(sections) then ReplaceNotes(sections, heading, notes)
    else
      var r := sections + [Section(heading, notes)];
      assert HeadingsOf(r) == HeadingsOf(sections) + [heading];
      r
  }

  /** No heading occurs twice, as among a dict's keys. */
  predicate Distinct(hs: seq<string>)
  {
    forall i, j :: 0 <= i < j < |hs| ==> hs[i] != hs[j]
  }

  /** The headings other than `h`, in their order. */
  function Without(hs: seq<string>, h: string): (r: seq<string>)
    ensures forall x :: x in r <==> x in hs && x != h
    ensures h !in hs ==> r == hs
  {
    if |hs| == 0 then [] else (if hs[0] == h then [] else [hs[0]]) + Without(hs[1..], h)
  }

  /** `dict.pop(heading)`: the sections without the one under `heading`. */
  function RemoveSection(sections: seq<Section>, heading: string): (r: seq<Section>)
    ensures forall s :: s in r <==> s in sections && s.heading != heading
    ensures |sections| > 0 && sections[|sections| - 1].heading != heading ==>
              |r| > 0 && r[|r| - 1] == sections[|sections| - 1]
  {
    if |sections| == 0 then []
    else (if sections[0].heading == heading then [] else [sections[0]]) + RemoveSection(sections[1..], heading)
  }

  /** `dict.pop` keeps the other sections in their order: the headings left are the old ones with `heading` filtered out. */
  lemma {:induction false} RemoveSectionKeepsOrder(sections: seq<Section>, heading: string)
    ensures HeadingsOf(RemoveSection(sections, heading)) == Without(HeadingsOf(sections), heading)
    decreases |sections|
  {
    if |sections| > 0 {
      var first := if sections[0].heading == heading then [] else [sections[0]];
      var rest := RemoveSection(sections[1..], heading);
      RemoveSectionKeepsOrder(sections[1..], heading);
      assert RemoveSection(sections, heading) == first + rest;
      HeadingsOfAppend(first, rest);
      assert HeadingsOf(sections)[1..] == HeadingsOf(sections[1..]);
    }
  }

  lemma {:induction false} WithoutAppend(a: seq<string>, b: seq<string>, h: string)
    ensures Without(a + b, h) == Without(a, h) + Without(b, h)
    decreases |a|
  {
    if |a| == 0 {
      assert a + b == b;
    } else {
      var f := if a[0] == h then [] else [a[0]];
      calc {
        Without(a + b, h);
        == { assert (a + b)[0] == a[0] && (a + b)[1..] == a[1..] + b; }
        f + Without(a[1..] + b, h);
        == { WithoutAppend(a[1..], b, h); }
        f + (Without(a[1..], h) + Without(b, h));
        == // concatenation is associative
        Without(a, h) + Without(b, h);
      }
    }
  }

  lemma {:induction false} WithoutDistinct(hs: seq<string>, h: string)
    requires Distinct(hs)
    ensures Distinct(Without(hs, h))
    decreases |hs|
  {
    if |hs| > 0 {
      var tail := hs[1..];
      assert Distinct(tail) by {
        forall i, j | 0 <= i < j < |tail|
          ensures tail[i] != tail[j]
        {
          assert tail[i] == hs[i + 1] && tail[j] == hs[j + 1];
        }
      }
      WithoutDistinct(tail, h);
      var rest := Without(tail, h);
      assert hs[0] !in tail by {
        forall j | 0 <= j < |tail|
          ensures tail[j] != hs[0]
        {
          assert tail[j] == hs[j + 1];
        }
      }
      assert hs[0] !in rest;
      var r := Without(hs, h);
      assert r == (if hs[0] == h then [] else [hs[0]]) + rest;
      forall i, j | 0 <= i < j < |r|
        ensures r[i] != r[j]
      {
        if hs[0] != h {
          assert r[j] == rest[j - 1];
          if i > 0 {
            assert r[i] == rest[i - 1];
          }
        }
      }
    }
  }

  lemma DistinctSnoc(hs: seq<string>, h: string)
    requires Distinct(hs) && h !in hs
    ensures Distinct(hs + [h])
  {
    var r := hs + [h];
    forall i, j | 0 <= i < j < |r|
      ensures r[i] != r[j]
    {
      assert r[i] == hs[i];
      if j < |hs| {
        assert r[j] == hs[j];
      }
    }
  }

  lemma HeadingsOfAppend(a: seq<Section>, b: seq<Section>)
    ensures HeadingsOf(a + b) == HeadingsOf(a) + HeadingsOf(b)
  {
    assert forall i :: 0 <= i < |a + b| ==> HeadingsOf(a + b)[i] == (HeadingsOf(a) + HeadingsOf(b))[i];
  }

  /**
   * `_categorise_commit_messages` followed by the `pop` of the count in
   * `_build_release_notes`: the sections to render and the count.
   */
  function Categorise(mapping: Mapping, commits: Commits): Result<Tally, CategoriseError>
  {
    match CategoriseParsed(mapping, commits.parsed)
    case Failure(e) => Failure(e)
    case Success(t) =>
      var sections := PutSection(t.sections, UncategorisedHeading, commits.unparsed);
      Success(Tally(RemoveSection(sections, BreakingChangeCountKey), t.breakingChanges))
  }

  // ---------------------------------------------------------------------
  // Rendering
  // ---------------------------------------------------------------------

  /** The rendering options: `header`, `list_item_symbol`, the mapping and `include_link_to_pull_request`. */
  datatype Settings = Settings(header: string, listItemSymbol: string, mapping: Mapping, includeLinkToPullRequest: bool)

  function DefaultSettings(): Settings
  {
    Settings("## Contents", "-", [], true)
  }

  /** `_create_breaking_change_notification`. */
  function Notification(count: nat): string
  {
    "**IMPORTANT:** "
    + (if count == 1 then "There is 1 breaking change." else "There are " + NatToString(count) + " breaking changes.")
    + "\n"
  }

  /** ` ([#number](url))` after the header, when there is a pull request and links are wanted. */
  function PullRequestLink(pr: Option<PullRequest>, wanted: bool): string
  {
    if pr.Some? && wanted then " ([#" + NatToString(pr.value.number) + "](" + pr.value.htmlUrl + "))" else ""
  }

  /** `symbol + " " + note` for each note. */
  function NoteLines(symbol: string, notes: seq<string>): (lines: seq<string>)
    ensures |lines| == |notes|
    ensures forall i :: 0 <= i < |notes| ==> lines[i] == symbol + " " + notes[i]
  {
    if |notes| == 0 then [] else [symbol + " " + notes[0]] + NoteLines(symbol, notes[1..])
  }

  /** One heading with its list, or nothing for a heading without notes. */
  function RenderSection(symbol: string, s: Section): string
  {
    if |s.notes| == 0 then "" else s.heading + "\n" + Join(NoteLines(symbol, s.notes), "\n") + "\n\n"
  }

  function RenderSections(symbol: string, sections: seq<Section>): string
  {
    if |sections| == 0 then "" else RenderSection(symbol, sections[0]) + RenderSections(symbol, sections[1..])
  }

  /** The header line with the optional pull-request link, which opens every block after its start marker. */
  function BlockHeading(settings: Settings, pr: Option<PullRequest>): string
  {
    "\n" + settings.header + PullRequestLink(pr, settings.includeLinkToPullRequest) + "\n"
  }

  /** The notification, only when there are breaking changes. */
  function BreakingChangeNotice(count: nat): string
  {
    if count > 0 then Notification(count) else ""
  }

  /** What the block holds between its markers. */
  function BlockContents(settings: Settings, pr: Option<PullRequest>, tally: Tally): string
  {
    BlockHeading(settings, pr)
    + BreakingChangeNotice(tally.breakingChanges)
    + ("\n" + RenderSections(settings.listItemSymbol, tally.sections))
  }

  /** `_build_release_notes`: the autogenerated block, from the start marker to the end marker. */
  function BuildNotes(settings: Settings, pr: Option<PullRequest>, tally: Tally): string
  {
    StartMarker + BlockContents(settings, pr, tally) + EndMarker
  }

  // ---------------------------------------------------------------------
  // Merging with the previous notes, and the whole compiler
  // ---------------------------------------------------------------------

  const NewlineOnly: set<char> := {'\n'}
  const QuoteOrNewline: set<char> := {'"', '\n'}

  /**
   * The splice at the end of `compile_release_notes`, for markers `start`
   * and `end`: the text before the first `start`, the new block, and the
   * text after the last `end` in what follows it, each side trimmed of
   * newlines, joined by newlines, then trimmed of quotes and newlines.
   */
  function Splice(previous: string, block: string, start: string, end: string): string
    requires |start| > 0 && |end| > 0
  {
    var before := Split(previous, start);
    var after := Split(Join(before[1..], ""), end);
    Strip(Join([Strip(before[0], NewlineOnly), block, Strip(after[|after| - 1], NewlineOnly)], "\n"), QuoteOrNewline)
  }

  function Merge(previous: string, block: string): string
  {
    Splice(previous, block, StartMarker, EndMarker)
  }

  datatype CompileError =
    | InvalidStopPoint(name: string)
    | UnreadableLog(logError: LogError)
    | Uncategorisable(categoriseError: CategoriseError)

  /** The previous notes: the pull request's description, empty when there is none. */
  function PreviousNotes(pr: Option<PullRequest>): string
  {
    if pr.Some? && pr.value.body.Some? then pr.value.body.value else ""
  }

  /**
   * The constructor's stop-point check followed by `compile_release_notes`.
   * `pr` is the pull request as fetched (`None` when no URL was given or the
   * fetch failed) and `gitLog` the records `_get_git_log` would return.
   */
  /** The commits the compiler reads: the pull request's messages, or else the git log up to the stop. */
  function ReadCommits(pr: Option<PullRequest>, gitLog: seq<string>): Result<Commits, LogError>
  {
    if pr.Some? then Success(ParsePullRequest(pr.value.commitMessages)) else ParseGitLog(gitLog)
  }

  function Compile(stopPoint: string, pr: Option<PullRequest>, gitLog: seq<string>, settings: Settings): Result<string, CompileError>
  {
    if ParseStopPoint(stopPoint).None? then Failure(InvalidStopPoint(stopPoint))
    else
      var previous := PreviousNotes(pr);
      if |previous| > 0 && Contains(previous, SkipMarker) then Success(previous)
      else
        match ReadCommits(pr, gitLog)
        case Failure(e) => Failure(UnreadableLog(e))
        case Success(cs) =>
          match Categorise(EffectiveMapping(settings.mapping), cs)
          case Failure(e) => Failure(Uncategorisable(e))
          case Success(tally) =>
            var block := BuildNotes(settings, pr, tally);
            if |previous| == 0 then Success(block) else Success(Merge(previous, block))
  }

  // ---------------------------------------------------------------------
  // Properties of categorising
  // ---------------------------------------------------------------------

  /** Reference: the notes filed under `heading`, one per commit whose destination it is, in commit order. */
  function NotesUnder(mapping: Mapping, commits: seq<ParsedCommit>, heading: string): seq<string>
    decreases |commits|
  {
    if |commits| == 0 then []
    else
      var c := commits[|commits| - 1];
      NotesUnder(mapping, commits[..|commits| - 1], heading)
      + (if Destination(mapping, c) == heading then [NoteFor(mapping, c)] else [])
  }

  /** Reference: the number of commits that are breaking changes. */
  function CountBreaking(commits: seq<ParsedCommit>): nat
    decreases |commits|
  {
    if |commits| == 0 then 0
    else CountBreaking(commits[..|commits| - 1]) + (if IsBreakingChange(commits[|commits| - 1]) then 1 else 0)
  }

  /** Commit `i` is the first one that cannot be filed. */
  predicate FirstUnfileable(mapping: Mapping, commits: seq<ParsedCommit>, i: int)
  {
    0 <= i < |commits| && !Fileable(mapping, commits[i])
    && forall j :: 0 <= j < i ==> Fileable(mapping, commits[j])
  }

  /** The error a commit that cannot be filed raises. */
  function FilingError(mapping: Mapping, c: ParsedCommit): CategoriseError
  {
    if Lookup(mapping, c.code).Some? then CountKeyAsHeading(c.code) else MissingOtherHeading(c.code)
  }

  /** Categorising succeeds exactly when every commit can be filed. */
  lemma {:induction false} CategoriseParsedSucceeds(mapping: Mapping, commits: seq<ParsedCommit>)
    ensures CategoriseParsed(mapping, commits).Success? <==>
            forall i :: 0 <= i < |commits| ==> Fileable(mapping, commits[i])
    decreases |commits|
  {
    if |commits| > 0 {
      var n := |commits| - 1;
      var init := commits[..n];
      CategoriseParsedSucceeds(mapping, init);
      CategoriseParsedStep(mapping, commits);
      AllFileableInit(mapping, commits);
    }
  }

  /** One commit more: success needs success so far and a commit that can be filed. */
  lemma CategoriseParsedStep(mapping: Mapping, commits: seq<ParsedCommit>)
    requires |commits| > 0
    ensures CategoriseParsed(mapping, commits).Success? <==>
            CategoriseParsed(mapping, commits[..|commits| - 1]).Success? && Fileable(mapping, commits[|commits| - 1])
  {
  }

  lemma AllFileableInit(mapping: Mapping, commits: seq<ParsedCommit>)
    requires |commits| > 0
    ensures var n := |commits| - 1;
            (forall i :: 0 <= i < |commits| ==> Fileable(mapping, commits[i])) <==>
            (forall i :: 0 <= i < n ==> Fileable(mapping, commits[..n][i])) && Fileable(mapping, commits[n])
  {
    var n := |commits| - 1;
    assert forall i :: 0 <= i < n ==> commits[..n][i] == commits[i];
  }

  /** A failure of the loop is the error of the first commit that cannot be filed. */
  ghost predicate FailureExplained(mapping: Mapping, commits: seq<ParsedCommit>, r: Result<Tally, CategoriseError>)
  {
    r.Failure? ==> exists i :: FirstUnfileable(mapping, commits, i) && r.error == FilingError(mapping, commits[i])
  }

  /** Otherwise it fails with the error of the first commit that cannot be filed. */
  lemma {:induction false} CategoriseParsedFails(mapping: Mapping, commits: seq<ParsedCommit>)
    ensures FailureExplained(mapping, commits, CategoriseParsed(mapping, commits))
    decreases |commits|
  {
    if |commits| > 0 {
      CategoriseParsedFails(mapping, commits[..|commits| - 1]);
      FailureExplainedStep(mapping, commits);
    }
  }

  /** One commit more keeps every failure explained. */
  lemma FailureExplainedStep(mapping: Mapping, commits: seq<ParsedCommit>)
    requires |commits| > 0
    requires FailureExplained(mapping, commits[..|commits| - 1], CategoriseParsed(mapping, commits[..|commits| - 1]))
    ensures FailureExplained(mapping, commits, CategoriseParsed(mapping, commits))
  {
    var n := |commits| - 1;
    if CategoriseParsed(mapping, commits[..n]).Failure? {
      FailureCarriesOn(mapping, commits);
    } else if !Fileable(mapping, commits[n]) {
      UnfileableLast(mapping, commits);
    } else {
      CategoriseParsedStep(mapping, commits);
    }
  }

  /** A failure so far is the failure of the whole loop, and it is still explained. */
  lemma FailureCarriesOn(mapping: Mapping, commits: seq<ParsedCommit>)
    requires |commits| > 0 && CategoriseParsed(mapping, commits[..|commits| - 1]).Failure?
    requires FailureExplained(mapping, commits[..|commits| - 1], CategoriseParsed(mapping, commits[..|commits| - 1]))
    ensures CategoriseParsed(mapping, commits) == CategoriseParsed(mapping, commits[..|commits| - 1])
    ensures FailureExplained(mapping, commits, CategoriseParsed(mapping, commits))
  {
    var init := commits[..|commits| - 1];
    var r0 := CategoriseParsed(mapping, init);
    var i :| FirstUnfileable(mapping, init, i) && r0.error == FilingError(mapping, init[i]);
    FirstUnfileableExtends(mapping, commits, i);
  }

  /** The first commit that cannot be filed stays the first when commits are added. */
  lemma FirstUnfileableExtends(mapping: Mapping, commits: seq<ParsedCommit>, i: int)
    requires |commits| > 0 && FirstUnfileable(mapping, commits[..|commits| - 1], i)
    ensures FirstUnfileable(mapping, commits, i) && commits[..|commits| - 1][i] == commits[i]
  {
    var init := commits[..|commits| - 1];
    assert forall j :: 0 <= j < i ==> init[j] == commits[j];
  }

  /** After a successful prefix, a last commit that cannot be filed fails with its own error. */
  lemma UnfileableLast(mapping: Mapping, commits: seq<ParsedCommit>)
    requires |commits| > 0 && !Fileable(mapping, commits[|commits| - 1])
    requires CategoriseParsed(mapping, commits[..|commits| - 1]).Success?
    ensures FirstUnfileable(mapping, commits, |commits| - 1)
    ensures CategoriseParsed(mapping, commits) == Failure(FilingError(mapping, commits[|commits| - 1]))
    ensures FailureExplained(mapping, commits, CategoriseParsed(mapping, commits))
  {
    var n := |commits| - 1;
    CategoriseParsedSucceeds(mapping, commits[..n]);
    assert forall j :: 0 <= j < n ==> commits[..n][j] == commits[j];
  }

  /**
   * On success it counts the breaking changes and files under each heading
   * of the mapping exactly the notes the reference assigns to it.
   */
  lemma {:induction false} CategoriseParsedFiles(mapping: Mapping, commits: seq<ParsedCommit>)
    ensures var r := CategoriseParsed(mapping, commits);
            r.Success? ==> FiledAsReference(mapping, commits, r.value)
    decreases |commits|
  {
    if |commits| == 0 {
      NothingFiled(mapping);
    } else if CategoriseParsed(mapping, commits).Success? {
      var init := commits[..|commits| - 1];
      CategoriseParsedUnfold(mapping, commits);
      CategoriseParsedFiles(mapping, init);
      FilesStep(mapping, commits, CategoriseParsed(mapping, init).value);
    }
  }

  /**
   * `t` counts the breaking changes among `commits` and files under each
   * heading of the mapping exactly the notes the reference assigns to it.
   */
  predicate FiledAsReference(mapping: Mapping, commits: seq<ParsedCommit>, t: Tally)
  {
    && t.breakingChanges == CountBreaking(commits)
    && HeadingsOf(t.sections) == Headings(mapping)
    && (forall k :: 0 <= k < |t.sections| ==> t.sections[k].notes == NotesUnder(mapping, commits, t.sections[k].heading))
  }

  lemma NothingFiled(mapping: Mapping)
    ensures CategoriseParsed(mapping, []) == Success(Tally(EmptySections(Headings(mapping)), 0))
    ensures FiledAsReference(mapping, [], Tally(EmptySections(Headings(mapping)), 0))
  {
  }

  /** Filing the last commit keeps the reference description true. */
  lemma FilesStep(mapping: Mapping, commits: seq<ParsedCommit>, t: Tally)
    requires |commits| > 0 && FiledAsReference(mapping, commits[..|commits| - 1], t)
    ensures var c := commits[|commits| - 1];
            FiledAsReference(mapping, commits,
              Tally(AddNote(t.sections, Destination(mapping, c), NoteFor(mapping, c)),
                    t.breakingChanges + (if IsBreakingChange(c) then 1 else 0)))
  {
    var c := commits[|commits| - 1];
    var sections := AddNote(t.sections, Destination(mapping, c), NoteFor(mapping, c));
    forall k | 0 <= k < |sections|
      ensures sections[k].notes == NotesUnder(mapping, commits, sections[k].heading)
    {
      assert HeadingsOf(sections)[k] == HeadingsOf(t.sections)[k];
      NotesUnderStep(mapping, commits, sections[k].heading);
    }
  }

  /** The last step of a successful categorisation files the last commit's note under its destination. */
  lemma CategoriseParsedUnfold(mapping: Mapping, commits: seq<ParsedCommit>)
    requires |commits| > 0 && CategoriseParsed(mapping, commits).Success?
    ensures var n := |commits| - 1;
            var c := commits[n];
            var r0 := CategoriseParsed(mapping, commits[..n]);
            && r0.Success?
            && CategoriseParsed(mapping, commits).value
               == Tally(AddNote(r0.value.sections, Destination(mapping, c), NoteFor(mapping, c)),
                        r0.value.breakingChanges + (if IsBreakingChange(c) then 1 else 0))
  {
  }

  lemma NotesUnderStep(mapping: Mapping, commits: seq<ParsedCommit>, heading: string)
    requires |commits| > 0
    ensures var n := |commits| - 1;
            NotesUnder(mapping, commits, heading)
            == NotesUnder(mapping, commits[..n], heading)
               + (if Destination(mapping, commits[n]) == heading then [NoteFor(mapping, commits[n])] else [])
  {
  }

  /**
   * The headings come in order of first occurrence: of two headings, the
   * earlier one occurs in the mapping before any entry of the later one.
   */
  lemma {:induction false} HeadingsInFirstOccurrenceOrder(mapping: Mapping, i: int, j: int, q: int)
    requires 0 <= i < j < |Headings(mapping)|
    requires 0 <= q < |mapping| && mapping[q].1 == Headings(mapping)[j]
    ensures exists p :: 0 <= p < q && mapping[p].1 == Headings(mapping)[i]
    decreases |mapping|
  {
    var n := |mapping| - 1;
    var init := mapping[..n];
    var hs0 := Headings(init);
    var hs := Headings(mapping);
    HeadingsUnfold(mapping);
    assert hs[i] == hs0[i];
    assert hs0[i] in hs0;
    var p :| 0 <= p < |init| && init[p].1 == hs0[i];
    assert mapping[p] == init[p];
    if j < |hs0| {
      if q < n {
        assert init[q] == mapping[q];
        HeadingsInFirstOccurrenceOrder(init, i, j, q);
        var p' :| 0 <= p' < q && init[p'].1 == hs0[i];
        assert mapping[p'] == init[p'];
      }
    } else {
      NewHeadingOnlyAtEnd(mapping, j, q);
    }
  }

  /** A heading first added by the last entry occurs in no earlier entry. */
  lemma NewHeadingOnlyAtEnd(mapping: Mapping, j: int, q: int)
    requires |mapping| > 0
    requires |Headings(mapping[..|mapping| - 1])| <= j < |Headings(mapping)|
    requires 0 <= q < |mapping| && mapping[q].1 == Headings(mapping)[j]
    ensures q == |mapping| - 1
  {
    HeadingsUnfold(mapping);
  }

  /** One entry more: its heading is added at the end unless it is already there. */
  lemma HeadingsUnfold(mapping: Mapping)
    requires |mapping| > 0
    ensures var n := |mapping| - 1;
            var h := mapping[n].1;
            Headings(mapping) == if h in Headings(mapping[..n]) then Headings(mapping[..n]) else Headings(mapping[..n]) + [h]
  {
  }

  /** Under the default mapping every commit can be filed, so categorising never fails. */
  lemma DefaultMappingFilesEverything(c: ParsedCommit)
    ensures Fileable(DefaultMapping, c)
  {
    var r := Lookup(DefaultMapping, c.code);
    if r.Some? {
      var i :| 0 <= i < |DefaultMapping| && DefaultMapping[i] == (c.code, r.value);
      assert DefaultMapping[i].1[0] == '#' && BreakingChangeCountKey[0] == 'B';
    } else {
      assert DefaultMapping[7].1 == OtherHeading;
    }
  }

  /** A commit that can be filed has a heading among the mapping's, which is not the count. */
  lemma FileableHasHeading(mapping: Mapping, c: ParsedCommit)
    requires Fileable(mapping, c)
    ensures Destination(mapping, c) in Headings(mapping)
    ensures Destination(mapping, c) != BreakingChangeCountKey
  {
    var r := Lookup(mapping, c.code);
    if r.Some? {
      var i :| 0 <= i < |mapping| && mapping[i] == (c.code, r.value);
      assert mapping[i].1 == r.value;
    }
  }

  /** The sections to render, as the reference describes them. */
  predicate ExpectedSection(mapping: Mapping, commits: Commits, s: Section)
  {
    && (s.heading in Headings(mapping) || s.heading == UncategorisedHeading)
    && s.heading != BreakingChangeCountKey
    && s.notes == if s.heading == UncategorisedHeading then commits.unparsed
                  else NotesUnder(mapping, commits.parsed, s.heading)
  }

  /** After `release_notes[heading] = notes` the sections are the others and the new one. */
  lemma PutSectionMembers(sections: seq<Section>, heading: string, notes: seq<string>, s: Section)
    ensures s in PutSection(sections, heading, notes) <==>
            (s.heading == heading && s.notes == notes) || (s.heading != heading && s in sections)
  {
    var r := PutSection(sections, heading, notes);
    var hs := HeadingsOf(r);
    if s in r {
      var k :| 0 <= k < |r| && r[k] == s;
      assert hs[k] == s.heading;
      if k < |sections| {
        assert HeadingsOf(sections)[k] == s.heading;
      }
    }
    if s.heading == heading && s.notes == notes {
      if heading in HeadingsOf(sections) {
        var k :| 0 <= k < |sections| && HeadingsOf(sections)[k] == heading;
        assert hs[k] == heading;
        assert r[k] == s;
      } else {
        assert r[|sections|] == s;
      }
    }
    if s.heading != heading && s in sections {
      var k :| 0 <= k < |sections| && sections[k] == s;
      assert HeadingsOf(sections)[k] == s.heading;
      assert hs[k] == s.heading;
      assert r[k] == s;
    }
  }

  /** The filed sections are one per heading of the mapping, each with its reference notes. */
  lemma FiledSectionMembers(mapping: Mapping, commits: seq<ParsedCommit>, s: Section)
    requires CategoriseParsed(mapping, commits).Success?
    ensures s in CategoriseParsed(mapping, commits).value.sections <==>
            s.heading in Headings(mapping) && s.notes == NotesUnder(mapping, commits, s.heading)
  {
    CategoriseParsedFiles(mapping, commits);
    var sections := CategoriseParsed(mapping, commits).value.sections;
    var hs := HeadingsOf(sections);
    if s in sections {
      var k :| 0 <= k < |sections| && sections[k] == s;
      assert hs[k] == s.heading;
    }
    if s.heading in Headings(mapping) && s.notes == NotesUnder(mapping, commits, s.heading) {
      var k :| 0 <= k < |hs| && hs[k] == s.heading;
      assert sections[k] == s;
    }
  }

  /**
   * `_categorise_commit_messages` then the count's `pop`: categorising
   * succeeds exactly when every commit can be filed, and then the sections
   * are exactly one per heading (the count key excluded), each with its
   * reference notes, with `### Uncategorised!` holding the unparsed commits.
   */
  lemma CategoriseMeans(mapping: Mapping, commits: Commits)
    ensures var r := Categorise(mapping, commits);
            && (r.Success? <==> forall i :: 0 <= i < |commits.parsed| ==> Fileable(mapping, commits.parsed[i]))
            && (r.Success? ==> r.value.breakingChanges == CountBreaking(commits.parsed))
            && (r.Success? ==> forall s :: s in r.value.sections <==> ExpectedSection(mapping, commits, s))
            && (r.Success? ==>
                  HeadingsOf(r.value.sections)
                  == Without(Headings(mapping), BreakingChangeCountKey)
                     + (if UncategorisedHeading in Headings(mapping) then [] else [UncategorisedHeading]))
  {
    CategoriseSectionOrder(mapping, commits);
    CategoriseParsedSucceeds(mapping, commits.parsed);
    CategoriseParsedFiles(mapping, commits.parsed);
    var r0 := CategoriseParsed(mapping, commits.parsed);
    if r0.Success? {
      var put := PutSection(r0.value.sections, UncategorisedHeading, commits.unparsed);
      forall s
        ensures s in RemoveSection(put, BreakingChangeCountKey) <==> ExpectedSection(mapping, commits, s)
      {
        PutSectionMembers(r0.value.sections, UncategorisedHeading, commits.unparsed, s);
        FiledSectionMembers(mapping, commits.parsed, s);
      }
    }
  }

  /**
   * The order of the sections to render: the mapping's headings in order of
   * first occurrence with the count key taken out, then `### Uncategorised!`
   * unless the mapping already has it; no heading twice.
   */
  lemma CategoriseSectionOrder(mapping: Mapping, commits: Commits)
    ensures var r := Categorise(mapping, commits);
            r.Success? ==>
              && HeadingsOf(r.value.sections)
                 == Without(Headings(mapping), BreakingChangeCountKey)
                    + (if UncategorisedHeading in Headings(mapping) then [] else [UncategorisedHeading])
              && Distinct(HeadingsOf(r.value.sections))
  {
    CategoriseParsedFiles(mapping, commits.parsed);
    var r0 := CategoriseParsed(mapping, commits.parsed);
    if r0.Success? {
      var put := PutSection(r0.value.sections, UncategorisedHeading, commits.unparsed);
      RemoveSectionKeepsOrder(put, BreakingChangeCountKey);
      PoppedHeadings(Headings(mapping), HeadingsOf(put));
    }
  }

  /** The heading list after adding `### Uncategorised!` and popping the count key. */
  lemma PoppedHeadings(hs: seq<string>, put: seq<string>)
    requires Distinct(hs)
    requires put == if UncategorisedHeading in hs then hs else hs + [UncategorisedHeading]
    ensures Without(put, BreakingChangeCountKey)
            == Without(hs, BreakingChangeCountKey) + (if UncategorisedHeading in hs then [] else [UncategorisedHeading])
    ensures Distinct(Without(put, BreakingChangeCountKey))
  {
    var key := BreakingChangeCountKey;
    assert UncategorisedHeading[0] != key[0];
    if UncategorisedHeading !in hs {
      WithoutAppend(hs, [UncategorisedHeading], key);
      DistinctSnoc(hs, UncategorisedHeading);
    }
    WithoutDistinct(put, key);
  }

  /** Unless the mapping has a `### Uncategorised!` heading of its own, that section comes last. */
  lemma UncategorisedComesLast(mapping: Mapping, commits: Commits)
    requires UncategorisedHeading !in Headings(mapping)
    ensures var r := Categorise(mapping, commits);
            r.Success? ==>
              && |r.value.sections| > 0
              && r.value.sections[|r.value.sections| - 1] == Section(UncategorisedHeading, commits.unparsed)
  {
    CategoriseParsedFiles(mapping, commits.parsed);
    var r0 := CategoriseParsed(mapping, commits.parsed);
    if r0.Success? {
      var sections := r0.value.sections;
      var put := PutSection(sections, UncategorisedHeading, commits.unparsed);
      assert |HeadingsOf(put)| == |sections| + 1;
      assert put[|put| - 1] == Section(UncategorisedHeading, commits.unparsed);
    }
  }

  // ---------------------------------------------------------------------
  // Properties of merging
  // ---------------------------------------------------------------------

  lemma MarkersUnbordered()
    ensures |StartMarker| > 0 && Unbordered(StartMarker)
    ensures |EndMarker| > 0 && Unbordered(EndMarker)
  {
    UniqueFirstCharUnbordered(StartMarker);
    UniqueFirstCharUnbordered(EndMarker);
  }

  /** The three zones, trimmed and joined as the splice does. */
  function Surround(a: string, block: string, b: string): string
  {
    Strip(Strip(a, NewlineOnly) + "\n" + block + "\n" + Strip(b, NewlineOnly), QuoteOrNewline)
  }

  lemma JoinThree(a: string, block: string, b: string)
    ensures Join([a, block, b], "\n") == a + "\n" + block + "\n" + b
  {
    JoinCons(a, [block, b], "\n");
    JoinCons(block, [b], "\n");
  }

  /** The splice keeps the text before the first `start` and the text after the last `end` that follows it. */
  lemma SpliceZones(previous: string, block: string, start: string, end: string)
    requires |start| > 0 && |end| > 0
    ensures var before := Split(previous, start);
            var after := Split(Join(before[1..], ""), end);
            Splice(previous, block, start, end) == Surround(before[0], block, LastPiece(after))
  {
    var before := Split(previous, start);
    var after := Split(Join(before[1..], ""), end);
    JoinThree(Strip(before[0], NewlineOnly), block, Strip(after[|after| - 1], NewlineOnly));
  }

  lemma Regroup(a: string, s: string, m: string, e: string, b: string)
    ensures a + s + m + e + b == a + s + (m + e + b)
  {
  }

  /** Splitting at the only `start` gives the text before and after it. */
  lemma SplitAtOnlySeparator(a: string, sep: string, rest: string)
    requires |sep| > 0 && Unbordered(sep) && !Contains(a, sep) && !Contains(rest, sep)
    ensures Split(a + sep + rest, sep) == [a, rest]
  {
    SplitFirstPiece(a, sep, rest);
    assert Split(rest, sep) == [rest];
  }

  lemma SpliceKeepsSurroundingText(previous: string, block: string, start: string, end: string, a: string, m: string, b: string)
    requires |start| > 0 && |end| > 0 && Unbordered(start) && Unbordered(end)
    requires previous == a + start + (m + end + b)
    requires !Contains(a, start) && !Contains(m + end + b, start) && !Contains(b, end)
    ensures Splice(previous, block, start, end) == Surround(a, block, b)
  {
    var rest := m + end + b;
    var before := Split(previous, start);
    SplitAtOnlySeparator(a, start, rest);
    assert before[1..] == [rest];
    calc {
      Splice(previous, block, start, end);
      { SpliceZones(previous, block, start, end); }
      Surround(before[0], block, LastPiece(Split(Join(before[1..], ""), end)));
      Surround(a, block, LastPiece(Split(rest, end)));
      { SplitLastPiece(m, end, b); }
      Surround(a, block, b);
    }
  }

  /**
   * Previous notes holding one start marker followed by an end marker keep
   * the text before the start marker and after the last end marker; only
   * what lies between is replaced by the new block.
   */
  lemma MergeKeepsSurroundingText(previous: string, block: string, a: string, m: string, b: string)
    requires previous == a + StartMarker + m + EndMarker + b
    requires !Contains(a, StartMarker) && !Contains(m + EndMarker + b, StartMarker) && !Contains(b, EndMarker)
    ensures Merge(previous, block) == Surround(a, block, b)
  {
    MarkersUnbordered();
    Regroup(a, StartMarker, m, EndMarker, b);
    SpliceKeepsSurroundingText(previous, block, StartMarker, EndMarker, a, m, b);
  }

  lemma SpliceAppendsWithoutMarkers(previous: string, block: string, start: string, end: string)
    requires |start| > 0 && |end| > 0 && !Contains(previous, start)
    ensures Splice(previous, block, start, end) == Surround(previous, block, "")
  {
    assert Split(previous, start) == [previous];
    assert Find("", end).None?;
    assert Split("", end) == [""];
    SpliceZones(previous, block, start, end);
  }

  /** Previous notes without a start marker are kept whole, with the new block after them. */
  lemma MergeAppendsWithoutMarkers(previous: string, block: string)
    requires !Contains(previous, StartMarker)
    ensures Merge(previous, block) == Surround(previous, block, "")
  {
    SpliceAppendsWithoutMarkers(previous, block, StartMarker, EndMarker);
  }

  // ---------------------------------------------------------------------
  // Every parsed commit is filed exactly once
  // ---------------------------------------------------------------------

  /** The number of notes the reference files under the headings `hs` together. */
  function NoteCount(mapping: Mapping, commits: seq<ParsedCommit>, hs: seq<string>): nat
  {
    if |hs| == 0 then 0 else |NotesUnder(mapping, commits, hs[0])| + NoteCount(mapping, commits, hs[1..])
  }

  function Occurrences(hs: seq<string>, h: string): nat
  {
    if |hs| == 0 then 0 else (if hs[0] == h then 1 else 0) + Occurrences(hs[1..], h)
  }

  lemma {:induction false} OccurrencesOfDistinct(hs: seq<string>, h: string)
    requires forall i, j :: 0 <= i < j < |hs| ==> hs[i] != hs[j]
    ensures Occurrences(hs, h) == if h in hs then 1 else 0
    decreases |hs|
  {
    if |hs| > 0 {
      assert forall i, j :: 0 <= i < j < |hs[1..]| ==> hs[1..][i] == hs[i + 1] && hs[1..][j] == hs[j + 1];
      OccurrencesOfDistinct(hs[1..], h);
      if hs[0] == h {
        assert h !in hs[1..];
      }
      assert h in hs <==> hs[0] == h || h in hs[1..];
    }
  }

  /** Adding a commit adds one note under each occurrence of its destination. */
  lemma {:induction false} NoteCountStep(mapping: Mapping, commits: seq<ParsedCommit>, hs: seq<string>)
    requires |commits| > 0
    ensures NoteCount(mapping, commits, hs)
            == NoteCount(mapping, commits[..|commits| - 1], hs) + Occurrences(hs, Destination(mapping, commits[|commits| - 1]))
    decreases |hs|
  {
    if |hs| > 0 {
      NoteCountStep(mapping, commits, hs[1..]);
    }
  }

  lemma {:induction false} NoteCountOfNone(mapping: Mapping, hs: seq<string>)
    ensures NoteCount(mapping, [], hs) == 0
    decreases |hs|
  {
    if |hs| > 0 {
      NoteCountOfNone(mapping, hs[1..]);
    }
  }

  /** With distinct headings covering every destination, the notes number exactly the commits. */
  lemma {:induction false} NotesPartitionCommits(mapping: Mapping, commits: seq<ParsedCommit>, hs: seq<string>)
    requires forall i, j :: 0 <= i < j < |hs| ==> hs[i] != hs[j]
    requires forall i :: 0 <= i < |commits| ==> Destination(mapping, commits[i]) in hs
    ensures NoteCount(mapping, commits, hs) == |commits|
    decreases |commits|
  {
    if |commits| == 0 {
      NoteCountOfNone(mapping, hs);
    } else {
      var n := |commits| - 1;
      assert forall i :: 0 <= i < n ==> commits[..n][i] == commits[i];
      NotesPartitionCommits(mapping, commits[..n], hs);
      NoteCountStep(mapping, commits, hs);
      OccurrencesOfDistinct(hs, Destination(mapping, commits[n]));
    }
  }

  /**
   * When categorising succeeds, every parsed commit lands under exactly one
   * heading of the mapping: the notes under all headings number the commits.
   */
  lemma EveryCommitFiledOnce(mapping: Mapping, commits: seq<ParsedCommit>)
    requires forall i :: 0 <= i < |commits| ==> Fileable(mapping, commits[i])
    ensures NoteCount(mapping, commits, Headings(mapping)) == |commits|
  {
    forall i | 0 <= i < |commits|
      ensures Destination(mapping, commits[i]) in Headings(mapping)
    {
      FileableHasHeading(mapping, commits[i]);
    }
    NotesPartitionCommits(mapping, commits, Headings(mapping));
  }

  // ---------------------------------------------------------------------
  // Properties of rendering
  // ---------------------------------------------------------------------

  /** The notification opens with `*` and, like the digits of the count, holds no `<`. */
  lemma NotificationShape(count: nat)
    ensures |Notification(count)| > 0 && Notification(count)[0] == '*'
    ensures PlainText(Notification(count))
  {
    var digits := NatToString(count);
    assert forall i :: 0 <= i < |digits| ==> IsAsciiDigit(digits[i]);
    assert PlainText(digits);
    var opening := "**IMPORTANT:** ";
    assert opening[0] == '*';
    assert PlainText(opening);
    assert PlainText("There is 1 breaking change.");
    assert PlainText("There are ");
    assert PlainText(" breaking changes.");
  }

  /** Facts about a string made of three parts. */
  lemma ThreeParts(p: string, q: string, r: string)
    ensures (p + q + r)[..|p|] == p
    ensures (p + q + r)[|p|..|p| + |q|] == q
    ensures |q| > 0 ==> (p + q + r)[|p|] == q[0]
    ensures |q| == 0 && |r| > 0 ==> (p + q + r)[|p|] == r[0]
    ensures (p + q + r)[|p + q + r| - |r|..] == r
  {
  }

  /**
   * After its header line, the block goes on with the notification exactly
   * when there are breaking changes, and with a blank line otherwise.
   */
  lemma NotificationIffBreakingChanges(settings: Settings, pr: Option<PullRequest>, tally: Tally)
    ensures var contents := BlockContents(settings, pr, tally);
            var k := |BlockHeading(settings, pr)|;
            && |contents| > k
            && contents[..k] == BlockHeading(settings, pr)
            && (contents[k] == '*' <==> tally.breakingChanges > 0)
            && (tally.breakingChanges > 0 ==>
                  && |contents| > k + |Notification(tally.breakingChanges)|
                  && contents[k..k + |Notification(tally.breakingChanges)|] == Notification(tally.breakingChanges)
                  && contents[k + |Notification(tally.breakingChanges)|] == '\n')
            && (tally.breakingChanges == 0 ==> contents[k] == '\n')
  {
    var heading := BlockHeading(settings, pr);
    var notice := BreakingChangeNotice(tally.breakingChanges);
    var tail := "\n" + RenderSections(settings.listItemSymbol, tally.sections);
    ThreeParts(heading, notice, tail);
    NotificationShape(tally.breakingChanges);
    assert tail[0] == '\n';
    assert BlockContents(settings, pr, tally) == heading + notice + tail;
    assert (heading + notice + tail)[|heading| + |notice|] == tail[0];
  }

  /** Text on a single line. */
  predicate OneLine(s: string)
  {
    '\n' !in s
  }

  /**
   * A section is rendered only when it has notes, and then reads back, line
   * by line, as its heading, one `symbol note` line per note in order, and
   * a blank line.
   */
  lemma RenderSectionLines(symbol: string, s: Section)
    requires OneLine(symbol) && OneLine(s.heading)
    requires forall j :: 0 <= j < |s.notes| ==> OneLine(s.notes[j])
    ensures RenderSection(symbol, s) == "" <==> |s.notes| == 0
    ensures |s.notes| > 0 ==>
              Split(RenderSection(symbol, s), "\n") == [s.heading] + NoteLines(symbol, s.notes) + ["", ""]
  {
    if |s.notes| > 0 {
      var items := NoteLines(symbol, s.notes);
      var lines := [s.heading] + items + ["", ""];
      JoinCons("", [""], "\n");
      JoinAppend(items, ["", ""], "\n");
      assert [s.heading] + items + ["", ""] == [s.heading] + (items + ["", ""]);
      JoinCons(s.heading, items + ["", ""], "\n");
      assert Join(lines, "\n") == RenderSection(symbol, s);
      forall k | 0 <= k < |lines|
        ensures !Contains(lines[k], "\n")
      {
        MissingCharNotContained(lines[k], "\n", 0);
      }
      SplitJoin(lines, "\n");
    }
  }

  /** Text without `<`, the first character of every marker. */
  predicate PlainText(s: string)
  {
    '<' !in s
  }

  predicate PlainSections(sections: seq<Section>)
  {
    forall k :: 0 <= k < |sections| ==>
      PlainText(sections[k].heading) && forall j :: 0 <= j < |sections[k].notes| ==> PlainText(sections[k].notes[j])
  }

  lemma {:induction false} PlainJoin(parts: seq<string>, sep: string)
    requires PlainText(sep) && forall k :: 0 <= k < |parts| ==> PlainText(parts[k])
    ensures PlainText(Join(parts, sep))
    decreases |parts|
  {
    if |parts| > 1 {
      PlainJoin(parts[1..], sep);
    }
  }

  lemma {:induction false} PlainRender(symbol: string, sections: seq<Section>)
    requires PlainText(symbol) && PlainSections(sections)
    ensures PlainText(RenderSections(symbol, sections))
    decreases |sections|
  {
    if |sections| > 0 {
      var s := sections[0];
      PlainJoin(NoteLines(symbol, s.notes), "\n");
      PlainRender(symbol, sections[1..]);
    }
  }

  lemma PlainLink(pr: Option<PullRequest>, wanted: bool)
    requires pr.Some? ==> PlainText(pr.value.htmlUrl)
    ensures PlainText(PullRequestLink(pr, wanted))
  {
    if pr.Some? && wanted {
      var digits := NatToString(pr.value.number);
      assert forall i :: 0 <= i < |digits| ==> IsAsciiDigit(digits[i]);
      assert PlainText(digits);
      assert PlainText(" ([#") && PlainText("](") && PlainText("))");
    }
  }

  /**
   * A block built from texts without `<` holds no marker between its own
   * start and end markers.
   */
  lemma BuiltBlockDelimited(settings: Settings, pr: Option<PullRequest>, tally: Tally)
    requires PlainText(settings.header) && PlainText(settings.listItemSymbol)
    requires pr.Some? ==> PlainText(pr.value.htmlUrl)
    requires PlainSections(tally.sections)
    ensures exists x :: BuildNotes(settings, pr, tally) == StartMarker + x + EndMarker && PlainText(x)
  {
    PlainLink(pr, settings.includeLinkToPullRequest);
    NotificationShape(tally.breakingChanges);
    PlainRender(settings.listItemSymbol, tally.sections);
    assert PlainText(BlockContents(settings, pr, tally));
  }

  /** A start marker cannot begin inside `end + b` when `end` differs from it at `k` and holds its first character only first. */
  lemma NoStartAfter(x: string, end: string, b: string, start: string, k: int)
    requires |start| > 0 && start[0] !in x && !Contains(b, start)
    requires forall i :: 0 < i < |end| ==> end[i] != start[0]
    requires 0 <= k < |start| && k < |end| && start[k] != end[k]
    ensures !Contains(x + end + b, start)
  {
    ContainsAfterFreePrefix(x, end + b, start);
    var t := end + b;
    forall i | 0 <= i
      ensures !OccursAt(t, start, i)
    {
      if i + |start| <= |t| {
        if i == 0 {
          assert t[..|start|][k] == end[k];
        } else if i < |end| {
          assert t[i..i + |start|][0] == end[i];
        } else {
          assert b[i - |end|..i - |end| + |start|] == t[i..i + |start|];
          assert !OccursAt(b, start, i - |end|);
        }
      }
    }
    assert x + end + b == x + t;
  }

  /**
   * Re-compiling over notes that hold an earlier block (from texts without
   * `<`) replaces just that block and keeps the text around it.
   */
  lemma RecompilingReplacesBlock(previous: string, block: string, a: string, oldBlock: string, x: string, b: string)
    requires previous == a + oldBlock + b && oldBlock == StartMarker + x + EndMarker && PlainText(x)
    requires !Contains(a, StartMarker) && !Contains(b, StartMarker) && !Contains(b, EndMarker)
    ensures Merge(previous, block) == Surround(a, block, b)
  {
    NoStartAfter(x, EndMarker, b, StartMarker, 6);
    assert previous == a + StartMarker + x + EndMarker + b;
    MergeKeepsSurroundingText(previous, block, a, x, b);
  }

  // ---------------------------------------------------------------------
  // Properties of the whole compiler
  // ---------------------------------------------------------------------

  /** The compiler refuses exactly the stop points it does not know. */
  lemma CompileRejectsUnknownStopPoint(stopPoint: string, pr: Option<PullRequest>, gitLog: seq<string>, settings: Settings)
    ensures Compile(stopPoint, pr, gitLog, settings) == Failure(InvalidStopPoint(stopPoint))
            <==> ParseStopPoint(stopPoint).None?
  {
  }

  /** Notes holding the skip marker come back untouched. */
  lemma CompileSkipsMarkedNotes(stopPoint: string, pr: Option<PullRequest>, gitLog: seq<string>, settings: Settings)
    requires ParseStopPoint(stopPoint).Some? && Contains(PreviousNotes(pr), SkipMarker)
    ensures Compile(stopPoint, pr, gitLog, settings) == Success(PreviousNotes(pr))
  {
  }

  /** With a pull request the commits come from it and the git log is not read. */
  lemma CompileReadsPullRequestNotLog(stopPoint: string, pr: Option<PullRequest>, log1: seq<string>, log2: seq<string>, settings: Settings)
    requires pr.Some?
    ensures Compile(stopPoint, pr, log1, settings) == Compile(stopPoint, pr, log2, settings)
  {
  }

  /** Without a pull request, the compiler fails on the git log exactly when the log cannot be read. */
  lemma CompileFailsOnUnreadableLog(stopPoint: string, gitLog: seq<string>, settings: Settings, e: LogError)
    requires ParseStopPoint(stopPoint).Some?
    ensures Compile(stopPoint, None, gitLog, settings) == Failure(UnreadableLog(e))
            <==> ParseGitLog(gitLog) == Failure(e)
  {
  }

  /** A successful compilation returns the skipped notes, a fresh block, or a block merged into the notes. */
  lemma CompileOutcome(stopPoint: string, pr: Option<PullRequest>, gitLog: seq<string>, settings: Settings)
    ensures var r := Compile(stopPoint, pr, gitLog, settings);
            var previous := PreviousNotes(pr);
            r.Success? && !Contains(previous, SkipMarker) ==>
              && ReadCommits(pr, gitLog).Success?
              && exists tally ::
                   && Categorise(EffectiveMapping(settings.mapping), ReadCommits(pr, gitLog).value) == Success(tally)
                   && r.value == if previous == "" then BuildNotes(settings, pr, tally)
                                 else Merge(previous, BuildNotes(settings, pr, tally))
  {
    var r := Compile(stopPoint, pr, gitLog, settings);
    if r.Success? && !Contains(PreviousNotes(pr), SkipMarker) {
      var commits := ReadCommits(pr, gitLog);
      var tally := Categorise(EffectiveMapping(settings.mapping), commits.value).value;
      assert r.value == if PreviousNotes(pr) == "" then BuildNotes(settings, pr, tally)
                        else Merge(PreviousNotes(pr), BuildNotes(settings, pr, tally));
    }
  }

  /** With the default mapping in force, compiling never fails for want of a heading. */
  lemma DefaultMappingNeverUncategorisable(stopPoint: string, pr: Option<PullRequest>, gitLog: seq<string>, settings: Settings)
    requires |settings.mapping| == 0
    ensures var r := Compile(stopPoint, pr, gitLog, settings);
            r.Failure? ==> r.error.InvalidStopPoint? || r.error.UnreadableLog?
  {
    var commits := ReadCommits(pr, gitLog);
    if commits.Success? {
      DefaultMappingCategorises(commits.value);
    }
  }

  /** The default mapping files every parsed commit, so categorising with it never fails. */
  lemma DefaultMappingCategorises(commits: Commits)
    ensures Categorise(DefaultMapping, commits).Success?
  {
    var parsed := commits.parsed;
    forall i | 0 <= i < |parsed|
      ensures Fileable(DefaultMapping, parsed[i])
    {
      DefaultMappingFilesEverything(parsed[i]);
    }
    CategoriseMeans(DefaultMapping, commits);
  }

  /** Without previous notes the result is one block, from the start marker to the end marker. */
  lemma CompileFreshNotes(stopPoint: string, pr: Option<PullRequest>, gitLog: seq<string>, settings: Settings)
    requires PreviousNotes(pr) == ""
    ensures var r := Compile(stopPoint, pr, gitLog, settings);
            r.Success? ==>
              && |r.value| >= |StartMarker| + |EndMarker|
              && r.value[..|StartMarker|] == StartMarker
              && r.value[|r.value| - |EndMarker|..] == EndMarker
  {
    CompileOutcome(stopPoint, pr, gitLog, settings);
    var r := Compile(stopPoint, pr, gitLog, settings);
    if r.Success? {
      assert !Contains("", SkipMarker);
      var tally :| Categorise(EffectiveMapping(settings.mapping), ReadCommits(pr, gitLog).value) == Success(tally)
                   && r.value == BuildNotes(settings, pr, tally);
      ThreeParts(StartMarker, BlockContents(settings, pr, tally), EndMarker);
    }
  }

  /**
   * With previous notes around one earlier block, the result keeps the
   * text around it and puts the new block in its place.
   */
  lemma CompileKeepsSurroundingNotes(stopPoint: string, pr: Option<PullRequest>, gitLog: seq<string>, settings: Settings,
                                     a: string, m: string, b: string)
    requires PreviousNotes(pr) == a + StartMarker + m + EndMarker + b && !Contains(PreviousNotes(pr), SkipMarker)
    requires !Contains(a, StartMarker) && !Contains(m + EndMarker + b, StartMarker) && !Contains(b, EndMarker)
    ensures var r := Compile(stopPoint, pr, gitLog, settings);
            r.Success? ==>
              && ReadCommits(pr, gitLog).Success?
              && exists tally ::
                   && Categorise(EffectiveMapping(settings.mapping), ReadCommits(pr, gitLog).value) == Success(tally)
                   && r.value == Surround(a, BuildNotes(settings, pr, tally), b)
  {
    CompileOutcome(stopPoint, pr, gitLog, settings);
    var r := Compile(stopPoint, pr, gitLog, settings);
    if r.Success? {
      assert |PreviousNotes(pr)| >= |StartMarker|;
      var tally :| Categorise(EffectiveMapping(settings.mapping), ReadCommits(pr, gitLog).value) == Success(tally)
                   && r.value == Merge(PreviousNotes(pr), BuildNotes(settings, pr, tally));
      MergeKeepsSurroundingText(PreviousNotes(pr), BuildNotes(settings, pr, tally), a, m, b);
    }
  }
}
