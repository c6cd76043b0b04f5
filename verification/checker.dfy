/**
 * The Conventional Commits message checker: `check_commit_message` and its
 * helpers `_remove_comment_lines`, `_check_header`, `_check_body` and
 * `_validate_breaking_change_descriptions`.
 *
 * The tool exists in three revisions that differ in two features, so the
 * checker here is parameterised by them (`Features`): whether `#` comment
 * lines are removed first, and whether body lines are checked for
 * breaking-change declarations. The module `CheckerRevisions` fixes the
 * features and configuration of each revision.
 *
 * A Python `ValueError` becomes `Fail(e)` with an error kind naming the
 * rule that failed; a normal return becomes `Pass`.
 */
module CommitChecker {
  import opened Strings
  import opened Patterns

  const CodeSeparator := ": "

  /** The allowed commit codes when none (or an empty mapping) are given. */
  const DefaultCommitCodes: map<string, string> := map[
    "FEA" := "A new feature",
    "ENH" := "An improvement or optimisation to an existing feature",
    "FIX" := "A bug fix",
    "OPS" := "An operational/devops/git change e.g. to continuous integration scripts or GitHub templates",
    "DEP" := "A change in dependencies",
    "REF" := "A refactor of existing code",
    "TST" := "A change to tests or the testing framework",
    "MRG" := "A merge commit",
    "REV" := "A reversion e.g. a `git revert` commit",
    "CHO" := "A chore e.g. updating a menial configuration file or .gitignore file",
    "WIP" := "A work-in-progress commit (usually to be avoided, but makes sense for e.g. trying changes in git-based CI)",
    "DOC" := "A change to documentation, docstrings, or documentation generation",
    "STY" := "A change to code style specifications or to code to conform to new style"
  ]

  /** The two spellings of a breaking-change indicator. */
  const BreakingChangeIndicators: seq<string> := ["BREAKING-CHANGE", "BREAKING CHANGE"]

  /**
   * The checker's settings. Only the codes of the allowed-codes mapping
   * matter to the check; an empty set stands for both `None` and an empty
   * mapping, which the checker treats alike. `validHeaderEnding` is
   * the header-ending regular expression applied to the last character.
   */
  datatype Config = Config(
    allowedCommitCodes: set<string>,
    maximumHeaderLength: int,
    validHeaderEnding: char -> bool,
    requireBody: bool,
    maximumBodyLineLength: int)

  /** The constructor defaults: 72-character limits, `[A-Za-z\d]` ending, no body required. */
  function DefaultConfig(): Config
  {
    Config({}, 72, c => IsAsciiAlnum(c), false, 72)
  }

  datatype Features = Features(stripComments: bool, checkBreakingChanges: bool)

  datatype CheckError =
    | EmptyMessage
    | EmptyHeader
    | UnknownCommitCode(header: string)
    | HeaderTooLong(header: string, limit: int)
    | InvalidHeaderEnding(header: string)
    | MissingBody(header: string)
    | MissingBlankSeparator(separator: string)
    | EmptyBody
    | BodyLineTooLong(line: string, limit: int)
    | LowercaseBreakingChange(line: string)
    | MalformedBreakingChange(line: string)

  datatype Outcome = Pass | Fail(error: CheckError)

  // ---------------------------------------------------------------------
  // Comment lines
  // ---------------------------------------------------------------------

  /** `line.startswith("#")`. */
  predicate IsCommentLine(line: string)
  {
    |line| > 0 && line[0] == '#'
  }

  /** The message without its comment lines: the effect of `_remove_comment_lines`. */
  function RemoveCommentLines(lines: seq<string>): (kept: seq<string>)
    ensures |kept| <= |lines|
  {
    if |lines| == 0 then []
    else (if IsCommentLine(lines[0]) then [] else [lines[0]]) + RemoveCommentLines(lines[1..])
  }

  /** Exactly the non-comment lines survive: no comment is kept and every other line is. */
  lemma {:induction false} RemoveCommentLinesKeeps(lines: seq<string>)
    ensures forall i :: 0 <= i < |RemoveCommentLines(lines)| ==> !IsCommentLine(RemoveCommentLines(lines)[i])
    ensures forall i :: 0 <= i < |RemoveCommentLines(lines)| ==> RemoveCommentLines(lines)[i] in lines
    ensures forall i :: 0 <= i < |lines| && !IsCommentLine(lines[i]) ==> lines[i] in RemoveCommentLines(lines)
    decreases |lines|
  {
    if |lines| > 0 {
      RemoveCommentLinesKeeps(lines[1..]);
      var head := if IsCommentLine(lines[0]) then [] else [lines[0]];
      var rest := RemoveCommentLines(lines[1..]);
      assert RemoveCommentLines(lines) == head + rest;
      forall i | 0 <= i < |lines| && !IsCommentLine(lines[i])
        ensures lines[i] in head + rest
      {
        if i > 0 {
          assert lines[i] == lines[1..][i - 1];
        }
      }
    }
  }

  /** Removing comments distributes over concatenation, so the kept lines stay in their original order. */
  lemma {:induction false} RemoveCommentLinesAppend(a: seq<string>, b: seq<string>)
    ensures RemoveCommentLines(a + b) == RemoveCommentLines(a) + RemoveCommentLines(b)
    decreases |a|
  {
    if |a| > 0 {
      assert (a + b)[1..] == a[1..] + b;
      RemoveCommentLinesAppend(a[1..], b);
    } else {
      assert a + b == b;
    }
  }

  /** A message without comment lines is left as it is. */
  lemma {:induction false} RemoveCommentLinesNoComments(lines: seq<string>)
    requires forall i :: 0 <= i < |lines| ==> !IsCommentLine(lines[i])
    ensures RemoveCommentLines(lines) == lines
    decreases |lines|
  {
    if |lines| > 0 {
      RemoveCommentLinesNoComments(lines[1..]);
    }
  }

  /** A message made only of comment lines is removed entirely. */
  lemma {:induction false} RemoveCommentLinesAllComments(lines: seq<string>)
    requires forall i :: 0 <= i < |lines| ==> IsCommentLine(lines[i])
    ensures RemoveCommentLines(lines) == []
    decreases |lines|
  {
    if |lines| > 0 {
      RemoveCommentLinesAllComments(lines[1..]);
    }
  }

  /** Removing comment lines twice is the same as removing them once. */
  lemma RemoveCommentLinesIdempotent(lines: seq<string>)
    ensures RemoveCommentLines(RemoveCommentLines(lines)) == RemoveCommentLines(lines)
  {
    RemoveCommentLinesKeeps(lines);
    RemoveCommentLinesNoComments(RemoveCommentLines(lines));
  }

  /** Where the gap before the `d`-th comment index starts. */
  function GapStart(indexes: seq<nat>, d: nat): nat
    requires d <= |indexes|
  {
    if d == 0 then 0 else indexes[d - 1] + 1
  }

  /** None of `lines[lo..hi]` is a comment line. */
  predicate NoCommentIn(lines: seq<string>, lo: int, hi: int)
  {
    forall j :: lo <= j < hi && 0 <= j < |lines| ==> !IsCommentLine(lines[j])
  }

  /**
   * `indexes` are the indexes of the comment lines of `lines`, in
   * increasing order: each index is a comment line and no comment line lies
   * in a gap between consecutive indexes or after the last one.
   */
  predicate CommentIndexes(lines: seq<string>, indexes: seq<nat>)
  {
    && (forall k :: 0 <= k < |indexes| ==> indexes[k] < |lines| && IsCommentLine(lines[indexes[k]]))
    && (forall d {:trigger GapStart(indexes, d)} :: 0 <= d < |indexes| ==> GapStart(indexes, d) <= indexes[d])
    && (forall d {:trigger GapStart(indexes, d)} :: 0 <= d < |indexes| ==> NoCommentIn(lines, GapStart(indexes, d), indexes[d]))
    && NoCommentIn(lines, GapStart(indexes, |indexes|), |lines|)
  }

  /** The list comprehension of `_remove_comment_lines`: the indexes of the comment lines. */
  method CommentLineIndexes(lines: seq<string>) returns (indexes: seq<nat>)
    ensures CommentIndexes(lines, indexes)
  {
    indexes := [];
    var i := 0;
    ghost var tail := 0;
    while i < |lines|
      invariant 0 <= i <= |lines|
      invariant forall k :: 0 <= k < |indexes| ==> indexes[k] < i && IsCommentLine(lines[indexes[k]])
      invariant forall d {:trigger GapStart(indexes, d)} :: 0 <= d < |indexes| ==> GapStart(indexes, d) <= indexes[d]
      invariant forall d {:trigger GapStart(indexes, d)} :: 0 <= d < |indexes| ==> NoCommentIn(lines, GapStart(indexes, d), indexes[d])
      invariant tail == GapStart(indexes, |indexes|) <= i
      invariant NoCommentIn(lines, tail, i)
    {
      if IsCommentLine(lines[i]) {
        ghost var before := indexes;
        indexes := indexes + [i];
        assert forall d :: 0 <= d < |before| ==> GapStart(indexes, d) == GapStart(before, d);
        tail := i + 1;
      }
      i := i + 1;
    }
  }

  /**
   * The source's own algorithm: collect the indexes of the comment lines,
   * then delete them front to back, shifting each index left by the number
   * of lines already deleted. It removes exactly the comment lines.
   */
  method RemoveCommentLinesByIndex(lines: seq<string>) returns (kept: seq<string>)
    ensures kept == RemoveCommentLines(lines)
  {
    var indexes := CommentLineIndexes(lines);
    kept := lines;
    var deleted := 0;
    while deleted < |indexes|
      invariant 0 <= deleted <= |indexes|
      invariant kept == AfterDeletions(lines, indexes, deleted)
    {
      var q := indexes[deleted];
      NextDeletionInRange(lines, indexes, deleted);
      kept := kept[..q - deleted] + kept[q - deleted + 1..];
      deleted := deleted + 1;
    }
    AllDeletionsFilter(lines, indexes);
  }

  /** `kept` is the message with the `deleted` comment lines before `done` removed, and the rest untouched. */
  ghost predicate Removed(lines: seq<string>, done: nat, deleted: nat, kept: seq<string>)
  {
    && done <= |lines|
    && |RemoveCommentLines(lines[..done])| == done - deleted
    && kept == RemoveCommentLines(lines[..done]) + lines[done..]
  }

  /**
   * One deletion step: when the lines before `done` are already filtered,
   * none of `lines[done..q]` is a comment and `lines[q]` is one, deleting at
   * the shifted index `q - deleted` filters the lines before `q + 1`.
   */
  lemma DeleteShiftedIndex(lines: seq<string>, done: nat, q: nat, kept: seq<string>, deleted: nat)
    requires done <= q < |lines| && IsCommentLine(lines[q])
    requires NoCommentIn(lines, done, q)
    requires Removed(lines, done, deleted, kept)
    ensures q - deleted < |kept|
    ensures Removed(lines, q + 1, deleted + 1, kept[..q - deleted] + kept[q - deleted + 1..])
  {
    var prefix := RemoveCommentLines(lines[..done]);
    var gap := lines[done..q];
    FilterThroughComment(lines, done, q);
    assert lines[done..] == gap + [lines[q]] + lines[q + 1..];
    assert kept == (prefix + gap) + [lines[q]] + lines[q + 1..];
    DropMiddle(prefix + gap, lines[q], lines[q + 1..], q - deleted);
  }

  /** Filtering up to and including the comment line `q`, when none of `lines[done..q]` is a comment. */
  lemma FilterThroughComment(lines: seq<string>, done: nat, q: nat)
    requires done <= q < |lines| && IsCommentLine(lines[q])
    requires NoCommentIn(lines, done, q)
    ensures RemoveCommentLines(lines[..q + 1]) == RemoveCommentLines(lines[..done]) + lines[done..q]
  {
    var gap := lines[done..q];
    forall i | 0 <= i < |gap|
      ensures !IsCommentLine(gap[i])
    {
      assert gap[i] == lines[done + i];
    }
    var head := lines[..done];
    calc {
      RemoveCommentLines(lines[..q + 1]);
      { assert lines[..q + 1] == (head + gap) + [lines[q]]; }
      RemoveCommentLines((head + gap) + [lines[q]]);
      { RemoveCommentLinesAppend(head + gap, [lines[q]]); }
      RemoveCommentLines(head + gap) + RemoveCommentLines([lines[q]]);
      { assert RemoveCommentLines([lines[q]]) == []; }
      RemoveCommentLines(head + gap) + [];
      { RemoveCommentLinesAppend(head, gap); }
      RemoveCommentLines(head) + RemoveCommentLines(gap) + [];
      { RemoveCommentLinesNoComments(gap); }
      RemoveCommentLines(head) + gap + [];
    }
    assert RemoveCommentLines(head) + gap + [] == RemoveCommentLines(head) + gap;
  }

  /** Deleting the element at index `|a|` of `a + [x] + b`. */
  lemma DropMiddle<T>(a: seq<T>, x: T, b: seq<T>, n: nat)
    requires n == |a|
    ensures n < |a + [x] + b|
    ensures (a + [x] + b)[..n] + (a + [x] + b)[n + 1..] == a + b
  {
    var s := a + [x] + b;
    assert s[..n] == a;
    assert s[n + 1..] == b;
  }

  /** Once no comment line is left after `lo`, filtering the lines before `lo` filters them all. */
  lemma NoCommentAfter(lines: seq<string>, lo: nat, deleted: nat, kept: seq<string>)
    requires Removed(lines, lo, deleted, kept)
    requires NoCommentIn(lines, lo, |lines|)
    ensures kept == RemoveCommentLines(lines)
  {
    RemoveCommentLinesNoComments(lines[lo..]);
    RemoveCommentLinesAppend(lines[..lo], lines[lo..]);
    assert lines[..lo] + lines[lo..] == lines;
  }

  /**
   * The message after the first `d` deletions of `RemoveCommentLinesByIndex`,
   * the `k`-th at index `indexes[k] - k` (left alone when out of range).
   */
  ghost function AfterDeletions(lines: seq<string>, indexes: seq<nat>, d: nat): seq<string>
    requires d <= |indexes|
    decreases d
  {
    if d == 0 then lines
    else
      var before := AfterDeletions(lines, indexes, d - 1);
      var at := indexes[d - 1] - (d - 1);
      if 0 <= at < |before| then before[..at] + before[at + 1..] else before
  }

  /** After `d` deletions the lines before the `d`-th gap are filtered and the rest untouched. */
  lemma {:induction false} AfterDeletionsRemoved(lines: seq<string>, indexes: seq<nat>, d: nat)
    requires CommentIndexes(lines, indexes) && d <= |indexes|
    ensures Removed(lines, GapStart(indexes, d), d, AfterDeletions(lines, indexes, d))
    decreases d
  {
    if d == 0 {
      NoDeletions(lines, indexes);
    } else {
      var e := d - 1;
      AfterDeletionsRemoved(lines, indexes, e);
      GapFacts(lines, indexes, e);
      DeletionStep(lines, indexes, e);
    }
  }

  lemma NoDeletions(lines: seq<string>, indexes: seq<nat>)
    ensures Removed(lines, GapStart(indexes, 0), 0, AfterDeletions(lines, indexes, 0))
  {
    assert lines[..0] == [];
  }

  /** One step of `AfterDeletionsRemoved`: the `d`-th deletion removes the comment line `indexes[d]`. */
  lemma DeletionStep(lines: seq<string>, indexes: seq<nat>, d: nat)
    requires d < |indexes|
    requires GapStart(indexes, d) <= indexes[d] < |lines| && IsCommentLine(lines[indexes[d]])
    requires NoCommentIn(lines, GapStart(indexes, d), indexes[d])
    requires Removed(lines, GapStart(indexes, d), d, AfterDeletions(lines, indexes, d))
    ensures Removed(lines, GapStart(indexes, d + 1), d + 1, AfterDeletions(lines, indexes, d + 1))
  {
    var before := AfterDeletions(lines, indexes, d);
    var q := indexes[d];
    DeleteShiftedIndex(lines, GapStart(indexes, d), q, before, d);
    assert AfterDeletions(lines, indexes, d + 1) == before[..q - d] + before[q - d + 1..];
    assert GapStart(indexes, d + 1) == q + 1;
  }

  /** What `CommentIndexes` says about the `d`-th index and the gap before it. */
  lemma GapFacts(lines: seq<string>, indexes: seq<nat>, d: nat)
    requires CommentIndexes(lines, indexes) && d < |indexes|
    ensures GapStart(indexes, d) <= indexes[d] < |lines| && IsCommentLine(lines[indexes[d]])
    ensures NoCommentIn(lines, GapStart(indexes, d), indexes[d])
  {
  }

  /** The shifted index of the next deletion is in range. */
  lemma NextDeletionInRange(lines: seq<string>, indexes: seq<nat>, d: nat)
    requires CommentIndexes(lines, indexes) && d < |indexes|
    ensures 0 <= indexes[d] - d < |AfterDeletions(lines, indexes, d)|
  {
    AfterDeletionsRemoved(lines, indexes, d);
    GapFacts(lines, indexes, d);
    DeleteShiftedIndex(lines, GapStart(indexes, d), indexes[d], AfterDeletions(lines, indexes, d), d);
  }

  /** Deleting at every shifted comment index removes exactly the comment lines. */
  lemma AllDeletionsFilter(lines: seq<string>, indexes: seq<nat>)
    requires CommentIndexes(lines, indexes)
    ensures AfterDeletions(lines, indexes, |indexes|) == RemoveCommentLines(lines)
  {
    AfterDeletionsRemoved(lines, indexes, |indexes|);
    NoCommentAfter(lines, GapStart(indexes, |indexes|), |indexes|, AfterDeletions(lines, indexes, |indexes|));
  }

  // ---------------------------------------------------------------------
  // Header
  // ---------------------------------------------------------------------

  /** The codes in force: the given ones, or the defaults when none are given. */
  function EffectiveCodes(cfg: Config): set<string>
  {
    if |cfg.allowedCommitCodes| == 0 then DefaultCommitCodes.Keys else cfg.allowedCommitCodes
  }

  /** The header starts with some allowed code followed by ": ". */
  predicate HasAllowedCode(codes: set<string>, header: string)
  {
    exists code :: code in codes && code + CodeSeparator <= header
  }

  /** No codes (or an empty set of them) means the thirteen default codes; otherwise exactly the given ones. */
  lemma EffectiveCodesFallback(cfg: Config)
    ensures |cfg.allowedCommitCodes| == 0 ==>
              EffectiveCodes(cfg) == {"FEA", "ENH", "FIX", "OPS", "DEP", "REF", "TST", "MRG", "REV", "CHO", "WIP", "DOC", "STY"}
    ensures |cfg.allowedCommitCodes| > 0 ==> EffectiveCodes(cfg) == cfg.allowedCommitCodes
  {
  }

  /** Every header rule holds. */
  predicate HeaderValid(cfg: Config, header: string)
  {
    && |header| > 0
    && HasAllowedCode(EffectiveCodes(cfg), header)
    && |header| <= cfg.maximumHeaderLength
    && cfg.validHeaderEnding(header[|header| - 1])
  }

  /**
   * `_check_header`: the rules are tried in a fixed order and the first
   * one broken is reported: blank, unknown code, too long, bad ending.
   */
  function CheckHeader(cfg: Config, header: string): (o: Outcome)
    ensures o.Pass? <==> HeaderValid(cfg, header)
    ensures o == Fail(EmptyHeader) <==> |header| == 0
    ensures o == Fail(UnknownCommitCode(header)) <==>
              |header| > 0 && !HasAllowedCode(EffectiveCodes(cfg), header)
    ensures o == Fail(HeaderTooLong(header, cfg.maximumHeaderLength)) <==>
              |header| > 0 && HasAllowedCode(EffectiveCodes(cfg), header)
              && |header| > cfg.maximumHeaderLength
    ensures o == Fail(InvalidHeaderEnding(header)) <==>
              |header| > 0 && HasAllowedCode(EffectiveCodes(cfg), header)
              && |header| <= cfg.maximumHeaderLength && !cfg.validHeaderEnding(header[|header| - 1])
  {
    if |header| == 0 then Fail(EmptyHeader)
    else if !HasAllowedCode(EffectiveCodes(cfg), header) then Fail(UnknownCommitCode(header))
    else if |header| > cfg.maximumHeaderLength then Fail(HeaderTooLong(header, cfg.maximumHeaderLength))
    else if !cfg.validHeaderEnding(header[|header| - 1]) then Fail(InvalidHeaderEnding(header))
    else Pass
  }

  // ---------------------------------------------------------------------
  // Breaking changes
  // ---------------------------------------------------------------------

  /** `(BREAKING-CHANGE|BREAKING CHANGE): ([A-Za-z\d]+)` for one of the two indicators. */
  function DeclarationPattern(indicator: string): Pattern
  {
    [Lit(indicator + ": "), Plus(AlnumClass)]
  }

  /** The line starts with an indicator, ": " and at least one letter or digit (`re.match`). */
  predicate IsDeclaration(line: string)
  {
    exists k :: 0 <= k < |BreakingChangeIndicators|
      && MatchesAtStart(DeclarationPattern(BreakingChangeIndicators[k]), line)
  }

  /** Some indicator appears in lower case (`indicator.lower() in line`). */
  predicate MentionsLowercaseIndicator(line: string)
  {
    Contains(line, "breaking-change") || Contains(line, "breaking change")
  }

  /** Some indicator appears in upper case (`indicator in line`). */
  predicate MentionsIndicator(line: string)
  {
    Contains(line, "BREAKING-CHANGE") || Contains(line, "BREAKING CHANGE")
  }

  /** The breaking-change rule holds for one line. */
  predicate BreakingChangeValid(line: string)
  {
    !MentionsLowercaseIndicator(line) && (MentionsIndicator(line) ==> IsDeclaration(line))
  }

  /**
   * `_validate_breaking_change_descriptions`: a lower-case indicator is
   * always an error; an upper-case one is an error unless the whole line is
   * a declaration.
   */
  function BreakingChangeError(line: string): (e: Option<CheckError>)
    ensures e.None? <==> BreakingChangeValid(line)
    ensures e == Some(LowercaseBreakingChange(line)) <==> MentionsLowercaseIndicator(line)
    ensures e == Some(MalformedBreakingChange(line)) <==>
              !MentionsLowercaseIndicator(line) && MentionsIndicator(line) && !IsDeclaration(line)
  {
    if MentionsLowercaseIndicator(line) then Some(LowercaseBreakingChange(line))
    else if MentionsIndicator(line) && !IsDeclaration(line) then Some(MalformedBreakingChange(line))
    else None
  }

  // ---------------------------------------------------------------------
  // Body
  // ---------------------------------------------------------------------

  /** Every rule for a single body line holds. */
  predicate BodyLineValid(f: Features, cfg: Config, line: string)
  {
    |line| <= cfg.maximumBodyLineLength && (f.checkBreakingChanges ==> BreakingChangeValid(line))
  }

  /** The first rule a body line breaks: length first, then the breaking-change rule. */
  function BodyLineError(f: Features, cfg: Config, line: string): (e: Option<CheckError>)
    ensures e.None? <==> BodyLineValid(f, cfg, line)
    ensures |line| > cfg.maximumBodyLineLength ==> e == Some(BodyLineTooLong(line, cfg.maximumBodyLineLength))
  {
    if |line| > cfg.maximumBodyLineLength then Some(BodyLineTooLong(line, cfg.maximumBodyLineLength))
    else if f.checkBreakingChanges then BreakingChangeError(line)
    else None
  }

  /** Line `i` is the first body line that breaks a rule, and breaks it with `e`. */
  predicate FirstBadLine(f: Features, cfg: Config, body: seq<string>, i: int, e: CheckError)
  {
    && 0 <= i < |body|
    && BodyLineError(f, cfg, body[i]) == Some(e)
    && forall j :: 0 <= j < i ==> BodyLineValid(f, cfg, body[j])
  }

  /** The loop over the body lines of `_check_body`: lines are checked in order and the first failure wins. */
  function CheckBodyLines(f: Features, cfg: Config, body: seq<string>): (o: Outcome)
    ensures o.Pass? <==> forall i :: 0 <= i < |body| ==> BodyLineValid(f, cfg, body[i])
    ensures o.Fail? ==> exists i :: FirstBadLine(f, cfg, body, i, o.error)
    decreases |body|
  {
    if |body| == 0 then Pass
    else match BodyLineError(f, cfg, body[0])
      case Some(e) =>
        assert FirstBadLine(f, cfg, body, 0, e);
        Fail(e)
      case None =>
        var rest := CheckBodyLines(f, cfg, body[1..]);
        assert rest.Fail? ==> exists i :: FirstBadLine(f, cfg, body, i, rest.error) by {
          if rest.Fail? {
            var i :| FirstBadLine(f, cfg, body[1..], i, rest.error);
            assert FirstBadLine(f, cfg, body, i + 1, rest.error);
          }
        }
        rest
  }

  /** `_check_body`: a required body made of one blank line is rejected before the lines are checked. */
  function CheckBody(f: Features, cfg: Config, body: seq<string>): Outcome
  {
    if cfg.requireBody && |body| == 1 && |body[0]| == 0 then Fail(EmptyBody)
    else CheckBodyLines(f, cfg, body)
  }

  // ---------------------------------------------------------------------
  // The whole message
  // ---------------------------------------------------------------------

  /** The lines the rules are applied to. */
  function MessageLines(f: Features, lines: seq<string>): seq<string>
  {
    if f.stripComments then RemoveCommentLines(lines) else lines
  }

  /** Every rule holds for the message: the declarative reading of the checker. */
  predicate Accepted(f: Features, cfg: Config, lines: seq<string>)
  {
    AcceptedLines(f, cfg, MessageLines(f, lines))
  }

  /** Every rule holds for the lines the rules are applied to. */
  predicate AcceptedLines(f: Features, cfg: Config, m: seq<string>)
  {
    && |m| > 0
    && HeaderValid(cfg, m[0])
    && (|m| == 1 ==> !cfg.requireBody)
    && (|m| >= 2 ==>
          && m[1] == ""
          && !(cfg.requireBody && m[2..] == [""])
          && forall i :: 2 <= i < |m| ==> BodyLineValid(f, cfg, m[i]))
  }

  /** `check_commit_message`: passes exactly when every rule holds. */
  function Check(f: Features, cfg: Config, lines: seq<string>): (o: Outcome)
    ensures o.Pass? <==> Accepted(f, cfg, lines)
  {
    CheckLines(f, cfg, MessageLines(f, lines))
  }

  /** The rules applied in order to the lines left after the optional comment removal. */
  function CheckLines(f: Features, cfg: Config, m: seq<string>): (o: Outcome)
    ensures o.Pass? <==> AcceptedLines(f, cfg, m)
  {
    if |m| == 0 then Fail(EmptyMessage)
    else match CheckHeader(cfg, m[0])
      case Fail(e) => Fail(e)
      case Pass =>
        if |m| == 1 then
          if cfg.requireBody then Fail(MissingBody(m[0])) else Pass
        else if |m[1]| > 0 then Fail(MissingBlankSeparator(m[1]))
        else
          var body := m[2..];
          assert forall i :: 2 <= i < |m| ==> m[i] == body[i - 2];
          assert (|body| == 1 && |body[0]| == 0) <==> body == [""];
          CheckBody(f, cfg, body)
  }

  // ---------------------------------------------------------------------
  // Properties of the whole check
  // ---------------------------------------------------------------------

  /** The message is rejected as empty exactly when nothing is left once comments are (optionally) removed. */
  lemma EmptyMessageRejected(f: Features, cfg: Config, lines: seq<string>)
    ensures Check(f, cfg, lines) == Fail(EmptyMessage) <==> |MessageLines(f, lines)| == 0
  {
  }

  /** With comment removal, a message made only of comment lines counts as empty. */
  lemma CommentOnlyMessageRejected(f: Features, cfg: Config, lines: seq<string>)
    requires f.stripComments
    requires forall i :: 0 <= i < |lines| ==> IsCommentLine(lines[i])
    ensures Check(f, cfg, lines) == Fail(EmptyMessage)
  {
    RemoveCommentLinesAllComments(lines);
  }

  /** A broken header is reported before anything about the body, whatever the body holds. */
  lemma HeaderErrorsComeFirst(f: Features, cfg: Config, lines: seq<string>)
    requires |MessageLines(f, lines)| > 0
    ensures var header := MessageLines(f, lines)[0];
            !HeaderValid(cfg, header) ==> Check(f, cfg, lines) == CheckHeader(cfg, header)
  {
  }

  /** A header-only message passes exactly when the header is valid (and kept) and no body is required. */
  lemma HeaderOnlyMessage(f: Features, cfg: Config, header: string)
    ensures Check(f, cfg, [header]).Pass? <==>
              (!f.stripComments || !IsCommentLine(header)) && HeaderValid(cfg, header) && !cfg.requireBody
    ensures (!f.stripComments || !IsCommentLine(header)) && HeaderValid(cfg, header) && cfg.requireBody ==>
              Check(f, cfg, [header]) == Fail(MissingBody(header))
  {
    assert [header][1..] == [];
  }

  /** After a valid header, a second line that is not blank is always reported as a missing separator. */
  lemma SeparatorMustBeBlank(f: Features, cfg: Config, lines: seq<string>)
    requires |MessageLines(f, lines)| >= 2
    ensures var m := MessageLines(f, lines);
            HeaderValid(cfg, m[0]) && m[1] != "" ==> Check(f, cfg, lines) == Fail(MissingBlankSeparator(m[1]))
  {
  }

  /** Any body line over the limit makes the message fail. */
  lemma LongBodyLineRejected(f: Features, cfg: Config, lines: seq<string>, i: int)
    requires 2 <= i < |MessageLines(f, lines)|
    requires |MessageLines(f, lines)[i]| > cfg.maximumBodyLineLength
    ensures Check(f, cfg, lines).Fail?
  {
    assert !BodyLineValid(f, cfg, MessageLines(f, lines)[i]);
  }

  /** Removing comments before calling the checker changes nothing: the removal is idempotent. */
  lemma PreStrippedMessageSameOutcome(f: Features, cfg: Config, lines: seq<string>)
    requires f.stripComments
    ensures Check(f, cfg, RemoveCommentLines(lines)) == Check(f, cfg, lines)
  {
    RemoveCommentLinesIdempotent(lines);
  }

  /** A message with no comment lines is checked the same whether or not comments are removed. */
  lemma CommentFreeMessageSameOutcome(cfg: Config, lines: seq<string>, checkBreakingChanges: bool)
    requires forall i :: 0 <= i < |lines| ==> !IsCommentLine(lines[i])
    ensures Check(Features(true, checkBreakingChanges), cfg, lines) == Check(Features(false, checkBreakingChanges), cfg, lines)
  {
    RemoveCommentLinesNoComments(lines);
    if |lines| >= 2 {
      BodyLinesIgnoreStripping(cfg, lines[2..], checkBreakingChanges);
    }
  }

  /** The body rules do not depend on whether comments were removed. */
  lemma {:induction false} BodyLinesIgnoreStripping(cfg: Config, body: seq<string>, checkBreakingChanges: bool)
    ensures CheckBodyLines(Features(true, checkBreakingChanges), cfg, body)
         == CheckBodyLines(Features(false, checkBreakingChanges), cfg, body)
    decreases |body|
  {
    if |body| > 0 {
      BodyLinesIgnoreStripping(cfg, body[1..], checkBreakingChanges);
    }
  }

  /** A required body consisting of a single blank line is rejected. */
  lemma BlankRequiredBodyRejected(f: Features, cfg: Config, header: string)
    requires !IsCommentLine(header) && HeaderValid(cfg, header) && cfg.requireBody
    ensures Check(f, cfg, [header, "", ""]) == Fail(EmptyBody)
  {
    RemoveCommentLinesNoComments([header, "", ""]);
    assert [header, "", ""][2..] == [""];
  }

  /**
   * A trailing blank line after a valid header is accepted even when a body
   * is required: the body is then empty, which the single-blank-line rule
   * does not catch. With comment removal this includes an editor message
   * whose only other lines are comments.
   */
  lemma TrailingBlankLineAccepted(f: Features, cfg: Config, header: string, comments: seq<string>)
    requires !IsCommentLine(header) && HeaderValid(cfg, header)
    requires f.stripComments
    requires forall i :: 0 <= i < |comments| ==> IsCommentLine(comments[i])
    ensures Check(f, cfg, [header, ""] + comments) == Pass
  {
    RemoveCommentLinesAppend([header, ""], comments);
    RemoveCommentLinesNoComments([header, ""]);
    RemoveCommentLinesAllComments(comments);
    assert RemoveCommentLines([header, ""] + comments) == [header, ""];
    assert [header, ""][2..] == [];
  }

  /** A body line that is a well-formed declaration, with no lower-case indicator, passes the breaking-change rule. */
  lemma DeclarationAccepted(k: int, description: string)
    requires 0 <= k < |BreakingChangeIndicators|
    requires |description| > 0 && IsAsciiAlnum(description[0])
    requires !MentionsLowercaseIndicator(description)
    ensures BreakingChangeValid(BreakingChangeIndicators[k] + ": " + description)
  {
    var prefix := BreakingChangeIndicators[k] + ": ";
    var line := prefix + description;
    assert 'b' !in prefix;
    ContainsAfterFreePrefix(prefix, description, "breaking-change");
    ContainsAfterFreePrefix(prefix, description, "breaking change");
    DeclarationMatches(BreakingChangeIndicators[k], description);
  }

  /** `indicator: ` followed by a letter or digit matches the declaration pattern of `indicator`. */
  lemma DeclarationMatches(indicator: string, description: string)
    requires |description| > 0 && IsAsciiAlnum(description[0])
    ensures MatchesAtStart(DeclarationPattern(indicator), indicator + ": " + description)
  {
    var prefix := indicator + ": ";
    var line := prefix + description;
    var pat := DeclarationPattern(indicator);
    assert OccursAt(line, prefix, 0) by { assert line[0..|prefix|] == prefix; }
    assert line[|prefix|] == description[0];
    var n := RunLength(line, |prefix|, AlnumClass);
    assert MatchFrom(pat, line, 0) == MatchFrom(pat[1..], line, |prefix|);
    assert MatchFrom(pat[1..], line, |prefix|) == MatchFrom(pat[2..], line, |prefix| + n);
  }

  /** A mixed-case spelling is neither indicator, so the line passes the rule whatever follows it. */
  lemma MixedCaseIndicatorAccepted()
    ensures BreakingChangeError("Breaking-Change: blah") == None
  {
    var line := "Breaking-Change: blah";
    assert 'c' !in line && 'R' !in line;
    var lower1, lower2, upper1, upper2 := "breaking-change", "breaking change", "BREAKING-CHANGE", "BREAKING CHANGE";
    assert lower1[9] == 'c' && lower2[9] == 'c' && upper1[1] == 'R' && upper2[1] == 'R';
    MissingCharNotContained(line, lower1, 9);
    MissingCharNotContained(line, lower2, 9);
    MissingCharNotContained(line, upper1, 1);
    MissingCharNotContained(line, upper2, 1);
  }

  /** An indicator in lower case is rejected wherever it appears in the line, even in prose. */
  lemma LowercaseIndicatorRejected(line: string, before: string, after: string)
    requires line == before + "breaking change" + after || line == before + "breaking-change" + after
    ensures BreakingChangeError(line) == Some(LowercaseBreakingChange(line))
  {
    if line == before + "breaking change" + after {
      assert OccursAt(line, "breaking change", |before|) by {
        assert line[|before|..|before| + 15] == "breaking change";
      }
    } else {
      assert OccursAt(line, "breaking-change", |before|) by {
        assert line[|before|..|before| + 15] == "breaking-change";
      }
    }
  }

  /** The line opens with `indicator`, then `: `, then a letter or digit. */
  predicate OpensDeclaration(line: string, indicator: string)
  {
    var t := indicator + ": ";
    |t| < |line| && line[..|t|] == t && IsAsciiAlnum(line[|t|])
  }

  /** The line opens as a declaration with one of the two indicators. */
  predicate DeclarationForm(line: string)
  {
    OpensDeclaration(line, BreakingChangeIndicators[0]) || OpensDeclaration(line, BreakingChangeIndicators[1])
  }

  /** `re.match` of one indicator's declaration pattern, read in the regex semantics. */
  lemma DeclarationPatternMeans(indicator: string, line: string)
    ensures MatchesAtStart(DeclarationPattern(indicator), line) <==> OpensDeclaration(line, indicator)
  {
    var pat := DeclarationPattern(indicator);
    var t := indicator + ": ";
    assert Separated(pat) by {
      assert |pat| == 2 && !pat[0].Plus?;
    }
    MatchesAtStartMeans(pat, line);
    if OpensDeclaration(line, indicator) {
      var n := |t| + 1;
      assert OccursAt(line, t, 0) by {
        assert line[0..|t|] == line[..|t|];
      }
      assert MatchesSpan(pat[1..][1..], line, n, n);
      assert AllInClass(line, |t|, n, AlnumClass);
      assert MatchesSpan(pat[1..], line, |t|, n);
      assert MatchesSpan(pat, line, 0, n);
    }
    if exists j :: MatchesSpan(pat, line, 0, j) {
      var j :| MatchesSpan(pat, line, 0, j);
      assert OccursAt(line, t, 0);
      assert line[..|t|] == line[0..|t|];
      assert MatchesSpan(pat[1..], line, |t|, j);
      var k :| |t| < k && AllInClass(line, |t|, k, AlnumClass) && MatchesSpan(pat[1..][1..], line, k, j);
      assert InClass(line[|t|], AlnumClass);
    }
  }

  /**
   * The declaration test of the breaking-change rule means what it says: a
   * line passes it exactly when it opens with an indicator, `: ` and a
   * letter or digit; so the rule holds exactly when no lower-case
   * indicator appears and any upper-case one opens such a declaration.
   */
  lemma DeclarationMeans(line: string)
    ensures IsDeclaration(line) <==> DeclarationForm(line)
    ensures BreakingChangeValid(line) <==>
              !MentionsLowercaseIndicator(line) && (MentionsIndicator(line) ==> DeclarationForm(line))
  {
    DeclarationPatternMeans(BreakingChangeIndicators[0], line);
    DeclarationPatternMeans(BreakingChangeIndicators[1], line);
    if DeclarationForm(line) {
      if OpensDeclaration(line, BreakingChangeIndicators[0]) {
        assert MatchesAtStart(DeclarationPattern(BreakingChangeIndicators[0]), line);
      } else {
        assert MatchesAtStart(DeclarationPattern(BreakingChangeIndicators[1]), line);
      }
    }
  }

  /**
   * An upper-case indicator in a line that does not open with an indicator,
   * `: ` and a letter or digit is reported as malformed: the indicator is
   * elsewhere in the line, the colon or the space is missing, or nothing
   * alphanumeric follows.
   */
  lemma MisplacedIndicatorRejected(line: string)
    requires MentionsIndicator(line) && !MentionsLowercaseIndicator(line)
    requires !DeclarationForm(line)
    ensures BreakingChangeError(line) == Some(MalformedBreakingChange(line))
  {
    DeclarationMeans(line);
  }

  /** A line with no lower-case `k` holds no lower-case indicator. */
  lemma NoLowercaseK(line: string)
    requires 'k' !in line
    ensures !MentionsLowercaseIndicator(line)
  {
    var lower1, lower2 := "breaking-change", "breaking change";
    assert lower1[4] == 'k' && lower2[4] == 'k';
    MissingCharNotContained(line, lower1, 4);
    MissingCharNotContained(line, lower2, 4);
  }

  /** A line opening with an upper-case indicator mentions one. */
  lemma OpensWithIndicator(line: string, k: int)
    requires 0 <= k < |BreakingChangeIndicators|
    requires |BreakingChangeIndicators[k]| <= |line| && line[..|BreakingChangeIndicators[k]|] == BreakingChangeIndicators[k]
    ensures MentionsIndicator(line)
  {
    assert OccursAt(line, BreakingChangeIndicators[k], 0) by {
      assert line[0..|BreakingChangeIndicators[k]|] == line[..|BreakingChangeIndicators[k]|];
    }
  }

  /** An indicator with no space after its colon is rejected. */
  lemma MissingSpaceRejected(k: int, description: string)
    requires 0 <= k < |BreakingChangeIndicators|
    requires 'k' !in description && (|description| == 0 || description[0] != ' ')
    ensures var line := BreakingChangeIndicators[k] + ":" + description;
            BreakingChangeError(line) == Some(MalformedBreakingChange(line))
  {
    var ind := BreakingChangeIndicators[k];
    var line := ind + ":" + description;
    assert 'k' !in ind;
    NoLowercaseK(line);
    assert line[..|ind|] == ind;
    OpensWithIndicator(line, k);
    if |description| == 0 {
      assert |BreakingChangeIndicators[0]| == |BreakingChangeIndicators[1]| == |line| - 1;
    } else {
      assert line[|ind| + 1] == description[0];
      NoDeclarationAt(line, k, |ind| + 1);
    }
    MisplacedIndicatorRejected(line);
  }

  /** An indicator followed by a space but no colon is rejected. */
  lemma MissingColonRejected(k: int, description: string)
    requires 0 <= k < |BreakingChangeIndicators|
    requires 'k' !in description
    ensures var line := BreakingChangeIndicators[k] + " " + description;
            BreakingChangeError(line) == Some(MalformedBreakingChange(line))
  {
    var ind := BreakingChangeIndicators[k];
    var line := ind + " " + description;
    assert 'k' !in ind;
    NoLowercaseK(line);
    assert line[..|ind|] == ind;
    OpensWithIndicator(line, k);
    assert line[|ind|] == ' ';
    NoDeclarationAt(line, k, |ind|);
    MisplacedIndicatorRejected(line);
  }

  /** An indicator with `: ` but no description is rejected. */
  lemma EmptyDescriptionRejected(k: int)
    requires 0 <= k < |BreakingChangeIndicators|
    ensures var line := BreakingChangeIndicators[k] + ": ";
            BreakingChangeError(line) == Some(MalformedBreakingChange(line))
  {
    var ind := BreakingChangeIndicators[k];
    var line := ind + ": ";
    assert 'k' !in line;
    NoLowercaseK(line);
    assert line[..|ind|] == ind;
    OpensWithIndicator(line, k);
    MisplacedIndicatorRejected(line);
  }

  /** An indicator after some other text, such as a commit code, is rejected. */
  lemma IndicatorAfterCodeRejected(code: string, k: int, description: string)
    requires 0 <= k < |BreakingChangeIndicators|
    requires |code| > 0 && code[0] != 'B'
    requires 'k' !in code && 'k' !in description
    ensures var line := code + BreakingChangeIndicators[k] + ": " + description;
            BreakingChangeError(line) == Some(MalformedBreakingChange(line))
  {
    var ind := BreakingChangeIndicators[k];
    var line := code + ind + ": " + description;
    assert 'k' !in ind;
    NoLowercaseK(line);
    assert OccursAt(line, ind, |code|) by {
      assert line[|code|..|code| + |ind|] == ind;
    }
    assert line[0] == code[0];
    MisplacedIndicatorRejected(line);
  }

  /** Where indicator `k` opens the line, a character other than the declaration's at `at` rules the declaration out. */
  lemma NoDeclarationAt(line: string, k: int, at: int)
    requires 0 <= k < |BreakingChangeIndicators|
    requires |BreakingChangeIndicators[k]| <= at < |BreakingChangeIndicators[k]| + 2 && at < |line|
    requires line[..|BreakingChangeIndicators[k]|] == BreakingChangeIndicators[k]
    requires line[at] != (BreakingChangeIndicators[k] + ": ")[at]
    ensures !DeclarationForm(line)
  {
    var ind := BreakingChangeIndicators[k];
    var other := BreakingChangeIndicators[1 - k];
    assert |other| == |ind| == 15;
    assert line[8] == ind[8] != other[8];
    forall m | 0 <= m < 2
      ensures !OpensDeclaration(line, BreakingChangeIndicators[m])
    {
      var t := BreakingChangeIndicators[m] + ": ";
      if |t| < |line| {
        if m == k {
          assert line[..|t|][at] == line[at] != t[at];
        } else {
          assert line[..|t|][8] == line[8] != t[8];
        }
      }
    }
  }

  /** The lines the checker's tests reject for lacking the space after the colon. */
  lemma RejectedTestLinesNoSpace()
    ensures BreakingChangeError("BREAKING CHANGE" + ":" + "blah").Some?
    ensures BreakingChangeError("BREAKING-CHANGE" + ":" + "blah").Some?
  {
    var blah := "blah";
    assert 'k' !in blah && blah[0] != ' ';
    MissingSpaceRejected(0, blah);
    MissingSpaceRejected(1, blah);
    assert BreakingChangeIndicators[0] == "BREAKING-CHANGE" && BreakingChangeIndicators[1] == "BREAKING CHANGE";
  }

  /** The lines the checker's tests reject for lacking the colon. */
  lemma RejectedTestLinesNoColon()
    ensures BreakingChangeError("BREAKING CHANGE" + " " + "blah").Some?
    ensures BreakingChangeError("BREAKING-CHANGE" + " " + "blah").Some?
  {
    var blah := "blah";
    assert 'k' !in blah;
    MissingColonRejected(0, blah);
    MissingColonRejected(1, blah);
    assert BreakingChangeIndicators[0] == "BREAKING-CHANGE" && BreakingChangeIndicators[1] == "BREAKING CHANGE";
  }

  /** The lines the checker's tests reject for having no description. */
  lemma RejectedTestLinesNoDescription()
    ensures BreakingChangeError("BREAKING CHANGE" + ": ").Some?
    ensures BreakingChangeError("BREAKING-CHANGE" + ": ").Some?
  {
    EmptyDescriptionRejected(0);
    EmptyDescriptionRejected(1);
    assert BreakingChangeIndicators[0] == "BREAKING-CHANGE" && BreakingChangeIndicators[1] == "BREAKING CHANGE";
  }
}
