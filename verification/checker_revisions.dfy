/**
 * The three revisions of the commit-message checker, as instances of the
 * parameterised checker:
 *
 * - the current one (`conventional_commits/check_commit_message.py`)
 *   removes comment lines and validates breaking-change declarations;
 * - the intermediate one (`pre_commit_hooks/conventional_commits/checker.py`)
 *   removes comment lines only;
 * - the original one (`check_commit_message.py` of the
 *   `pre-commit-conventional-commit-message` package) does neither, and its
 *   codes and limits are fixed module constants rather than settings.
 */
module CheckerRevisions {
  import opened Strings
  import opened CommitChecker

  const Current := Features(true, true)
  const Intermediate := Features(true, false)
  const Original := Features(false, false)

  /** The original revision's fixed code set: `IMP`, `CLN` and `OPT` instead of `ENH`, `WIP`, `DOC` and `STY`. */
  const OriginalCommitCodes: set<string> :=
    {"FEA", "IMP", "FIX", "OPS", "DEP", "REF", "TST", "CLN", "OPT", "MRG", "REV", "CHO"}

  /** The original revision's settings: only `require_body` can be chosen. */
  function OriginalConfig(requireBody: bool): Config
  {
    Config(OriginalCommitCodes, 72, c => IsAsciiAlnum(c), requireBody, 72)
  }

  /** `check_commit_message(lines, require_body)` of the original revision. */
  function CheckOriginal(lines: seq<string>, requireBody: bool): (o: Outcome)
    ensures o.Pass? <==> Accepted(Original, OriginalConfig(requireBody), lines)
    ensures |lines| == 0 <==> o == Fail(EmptyMessage)
  {
    Check(Original, OriginalConfig(requireBody), lines)
  }

  /** `ConventionalCommitMessageChecker(...).check_commit_message(lines)` of the intermediate revision. */
  function CheckIntermediate(cfg: Config, lines: seq<string>): (o: Outcome)
    ensures o.Pass? <==> Accepted(Intermediate, cfg, lines)
    ensures |RemoveCommentLines(lines)| == 0 <==> o == Fail(EmptyMessage)
  {
    Check(Intermediate, cfg, lines)
  }

  /** `ConventionalCommitMessageChecker(...).check_commit_message(lines)` of the current revision. */
  function CheckCurrent(cfg: Config, lines: seq<string>): (o: Outcome)
    ensures o.Pass? <==> Accepted(Current, cfg, lines)
    ensures |RemoveCommentLines(lines)| == 0 <==> o == Fail(EmptyMessage)
  {
    Check(Current, cfg, lines)
  }

  /** The original revision keeps comment lines, so a leading comment is taken for a header without a code. */
  lemma OriginalTreatsCommentAsHeader(lines: seq<string>, requireBody: bool)
    requires |lines| > 0 && IsCommentLine(lines[0])
    ensures CheckOriginal(lines, requireBody) == Fail(UnknownCommitCode(lines[0]))
  {
    var header := lines[0];
    forall code | code in OriginalCommitCodes
      ensures !(code + CodeSeparator <= header)
    {
      assert (code + CodeSeparator)[0] != '#';
    }
  }

  /** The later revisions skip a leading comment and check the first line that is not one. */
  lemma LaterRevisionsSkipComments(cfg: Config, comments: seq<string>, rest: seq<string>, checkBreakingChanges: bool)
    requires forall i :: 0 <= i < |comments| ==> IsCommentLine(comments[i])
    ensures Check(Features(true, checkBreakingChanges), cfg, comments + rest)
         == Check(Features(true, checkBreakingChanges), cfg, rest)
  {
    RemoveCommentLinesAppend(comments, rest);
    RemoveCommentLinesAllComments(comments);
    assert RemoveCommentLines(comments + rest) == RemoveCommentLines(rest);
    RemoveCommentLinesIdempotent(rest);
  }

  /**
   * Only the current revision applies the breaking-change rule: for a body
   * line within the length limit, after a valid header, the intermediate
   * revision always passes and the current one passes exactly when the line
   * obeys the rule.
   */
  lemma BreakingChangeRuleOnlyInCurrent(cfg: Config, header: string, line: string)
    requires !IsCommentLine(header) && HeaderValid(cfg, header)
    requires !IsCommentLine(line) && 0 < |line| <= cfg.maximumBodyLineLength
    ensures CheckIntermediate(cfg, [header, "", line]) == Pass
    ensures CheckCurrent(cfg, [header, "", line]).Pass? <==> BreakingChangeValid(line)
  {
    RemoveCommentLinesNoComments([header, "", line]);
    assert [header, "", line][2..] == [line];
  }

  /** No default code is `IMP`, so a header opening with `IMP: ` has no default code. */
  lemma NoDefaultCodeImp(header: string)
    requires "IMP: " <= header
    ensures !HasAllowedCode(DefaultCommitCodes.Keys, header)
  {
    assert header[..3] == "IMP";
    var keys := {"FEA", "ENH", "FIX", "OPS", "DEP", "REF", "TST", "MRG", "REV", "CHO", "WIP", "DOC", "STY"};
    assert DefaultCommitCodes.Keys == keys;
    forall code | code in keys
      ensures !(code + CodeSeparator <= header)
    {
      assert |code| == 3 && code != "IMP";
      assert (code + CodeSeparator)[..3] == code;
    }
  }

  /** The default code sets of the revisions differ: `IMP` is allowed only by the original one. */
  lemma CodeSetsDiffer(description: string)
    requires |description| > 0 && |description| <= 67 && IsAsciiAlnum(description[|description| - 1])
    ensures CheckOriginal(["IMP: " + description], false) == Pass
    ensures CheckCurrent(DefaultConfig(), ["IMP: " + description]) == Fail(UnknownCommitCode("IMP: " + description))
    ensures CheckIntermediate(DefaultConfig(), ["IMP: " + description]) == Fail(UnknownCommitCode("IMP: " + description))
  {
    var header := "IMP: " + description;
    assert "IMP" + CodeSeparator <= header;
    assert header[|header| - 1] == description[|description| - 1];
    NoDefaultCodeImp(header);
    RemoveCommentLinesNoComments([header]);
  }
}
