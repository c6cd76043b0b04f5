/**
 * The parsing stages of the release-notes compiler: the stop-point
 * argument, the decorated git-log records (`hash|§header|§body|§decoration`)
 * read up to the last semantically-versioned release, and the commit
 * messages of a pull request. Each commit becomes a parsed
 * `(code, header, body)` triple, an unparsed header, or nothing (a
 * `Merge <ref> into <ref>` commit).
 */
module LogParsing {
  import opened Strings
  import opened Patterns

  // ---------------------------------------------------------------------
  // Stop point
  // ---------------------------------------------------------------------

  datatype StopPoint = LastRelease | PullRequestStart

  function StopPointName(p: StopPoint): string
  {
    match p
    case LastRelease => "LAST_RELEASE"
    case PullRequestStart => "PULL_REQUEST_START"
  }

  /**
   * Python's `str.upper()` for one character, restricted to the characters
   * whose upper case is pure ASCII: the ASCII lower-case letters, the
   * dotless i, the long s, the sharp s and the Latin ligatures. Every other
   * character maps to itself here; in Python it maps to a string that is
   * either itself or still contains a non-ASCII character, so comparisons
   * with ASCII names come out the same.
   */
  function UpperChar(c: char): string
  {
    if 'a' <= c <= 'z' then [(c as int - 32) as char]
    else if c == '\U{0131}' then "I"     // dotless i
    else if c == '\U{017F}' then "S"     // long s
    else if c == '\U{00DF}' then "SS"    // sharp s
    else if c == '\U{FB00}' then "FF"
    else if c == '\U{FB01}' then "FI"
    else if c == '\U{FB02}' then "FL"
    else if c == '\U{FB03}' then "FFI"
    else if c == '\U{FB04}' then "FFL"
    else if c == '\U{FB05}' || c == '\U{FB06}' then "ST"
    else [c]
  }

  /** `s.upper()`, character by character. */
  function Upper(s: string): (r: string)
    ensures |r| >= |s|
  {
    if |s| == 0 then "" else UpperChar(s[0]) + Upper(s[1..])
  }

  /** The stop point named by `name` in any letter case, or `None` where the constructor raises `ValueError`. */
  function ParseStopPoint(name: string): (r: Option<StopPoint>)
    ensures r.Some? <==> Upper(name) == "LAST_RELEASE" || Upper(name) == "PULL_REQUEST_START"
    ensures r.Some? ==> StopPointName(r.value) == Upper(name)
  {
    var upper := Upper(name);
    if upper == "LAST_RELEASE" then Some(LastRelease)
    else if upper == "PULL_REQUEST_START" then Some(PullRequestStart)
    else None
  }

  /** ASCII case folding to upper case, the reference for `Upper` on ASCII text. */
  function FoldAscii(c: char): char
  {
    if 'a' <= c <= 'z' then (c as int - 32) as char else c
  }

  predicate IsAscii(s: string)
  {
    forall i :: 0 <= i < |s| ==> s[i] < '\U{0080}'
  }

  /** On ASCII text `Upper` folds each character in place. */
  lemma {:induction false} UpperAscii(s: string)
    requires IsAscii(s)
    ensures |Upper(s)| == |s|
    ensures forall i :: 0 <= i < |s| ==> Upper(s)[i] == FoldAscii(s[i])
    decreases |s|
  {
    if |s| > 0 {
      UpperAscii(s[1..]);
      assert UpperChar(s[0]) == [FoldAscii(s[0])];
      forall i | 0 <= i < |s|
        ensures Upper(s)[i] == FoldAscii(s[i])
      {
        if i > 0 {
          assert Upper(s)[i] == Upper(s[1..])[i - 1];
          assert s[1..][i - 1] == s[i];
        }
      }
    }
  }

  /** Any ASCII spelling of a stop-point name, whatever its letter case, selects that stop point. */
  lemma StopPointCaseInsensitive(name: string, p: StopPoint)
    requires IsAscii(name) && |name| == |StopPointName(p)|
    requires forall i :: 0 <= i < |name| ==> FoldAscii(name[i]) == StopPointName(p)[i]
    ensures ParseStopPoint(name) == Some(p)
  {
    UpperAscii(name);
    assert Upper(name) == StopPointName(p);
  }

  /** A stop-point name parses to itself. */
  lemma StopPointRoundTrip(p: StopPoint)
    ensures ParseStopPoint(StopPointName(p)) == Some(p)
  {
    var name := StopPointName(p);
    forall i | 0 <= i < |name|
      ensures FoldAscii(name[i]) == name[i] && name[i] < '\U{0080}'
    {
    }
    StopPointCaseInsensitive(name, p);
  }

  // ---------------------------------------------------------------------
  // Patterns
  // ---------------------------------------------------------------------

  /** `tag: (\d+\.\d+\.\d+)` */
  const SemanticVersionPattern: Pattern :=
    [Lit("tag: "), Plus(DigitClass), Lit("."), Plus(DigitClass), Lit("."), Plus(DigitClass)]

  /** `Merge [0-9a-f]+ into [0-9a-f]+` */
  const CommitRefMergePattern: Pattern :=
    [Lit("Merge "), Plus(HexClass), Lit(" into "), Plus(HexClass)]

  /** A decoration marks a release: it mentions `tag` and some span of it matches the semantic-version pattern. */
  predicate IsReleaseDecoration(decoration: string)
  {
    Contains(decoration, "tag") && Search(SemanticVersionPattern, decoration)
  }

  lemma SemanticVersionPatternSeparated()
    ensures Separated(SemanticVersionPattern)
  {
    var pat := SemanticVersionPattern;
    assert pat[1].Plus? && pat[2] == Lit(".") && !IsAsciiDigit('.');
    assert pat[3].Plus? && pat[4] == Lit(".");
    assert !pat[0].Plus? && !pat[2].Plus? && !pat[4].Plus?;
  }

  /** A semantic-version match starts with `tag`. */
  lemma SemanticVersionMatchHasTag(decoration: string, a: int, b: int)
    requires MatchesSpan(SemanticVersionPattern, decoration, a, b)
    ensures OccursAt(decoration, "tag", a)
  {
    var pat := SemanticVersionPattern;
    assert pat[0] == Lit("tag: ");
    assert OccursAt(decoration, "tag: ", a);
    assert decoration[a..a + 3] == decoration[a..a + 5][..3];
  }

  /** The `"tag" in decoration` test is implied by the pattern search: a release decoration is exactly one holding a `tag: N.N.N` span. */
  lemma ReleaseDecorationMeans(decoration: string)
    ensures IsReleaseDecoration(decoration) <==>
              exists a, b :: MatchesSpan(SemanticVersionPattern, decoration, a, b)
  {
    SemanticVersionPatternSeparated();
    SearchMeans(SemanticVersionPattern, decoration);
    if exists a, b :: MatchesSpan(SemanticVersionPattern, decoration, a, b) {
      var a, b :| MatchesSpan(SemanticVersionPattern, decoration, a, b);
      SemanticVersionMatchHasTag(decoration, a, b);
    }
  }

  /** A decoration without any digit is never a release. */
  lemma NoDigitNoRelease(decoration: string)
    requires forall i :: 0 <= i < |decoration| ==> !IsAsciiDigit(decoration[i])
    ensures !IsReleaseDecoration(decoration)
  {
    ReleaseDecorationMeans(decoration);
    forall a, b | MatchesSpan(SemanticVersionPattern, decoration, a, b)
      ensures exists p :: 0 <= p < |decoration| && IsAsciiDigit(decoration[p])
    {
      MatchHasClassChar(SemanticVersionPattern, decoration, a, b, 1);
    }
  }

  predicate IsDigits(s: string)
  {
    |s| > 0 && forall i :: 0 <= i < |s| ==> IsAsciiDigit(s[i])
  }

  /** A decoration holding `tag: X.Y.Z` with digit runs `X`, `Y`, `Z` marks a release, whatever surrounds it. */
  lemma SemanticVersionTagIsRelease(before: string, x: string, y: string, z: string, after: string)
    requires IsDigits(x) && IsDigits(y) && IsDigits(z)
    ensures IsReleaseDecoration(before + "tag: " + x + "." + y + "." + z + after)
  {
    var d := before + "tag: " + x + "." + y + "." + z + after;
    SemanticVersionTagMatches(before, x, y, z, after);
    assert MatchesSpan(SemanticVersionPattern, d, |before|, |before| + 7 + |x| + |y| + |z|);
    ReleaseDecorationMeans(d);
  }

  lemma DigitsInClass(d: string, lo: nat, digits: string)
    requires IsDigits(digits) && lo + |digits| <= |d| && d[lo..lo + |digits|] == digits
    ensures AllInClass(d, lo, lo + |digits|, DigitClass)
  {
    forall m | lo <= m < lo + |digits|
      ensures InClass(d[m], DigitClass)
    {
      assert d[m] == d[lo..lo + |digits|][m - lo];
    }
  }

  lemma SemanticVersionTagMatches(before: string, x: string, y: string, z: string, after: string)
    requires IsDigits(x) && IsDigits(y) && IsDigits(z)
    ensures MatchesSpan(SemanticVersionPattern, before + "tag: " + x + "." + y + "." + z + after,
                        |before|, |before| + 7 + |x| + |y| + |z|)
  {
    var d := before + "tag: " + x + "." + y + "." + z + after;
    SemanticVersionPieces(before, x, y, z, after);
    SemanticVersionSpanMatches(d, |before|, x, y, z);
  }

  /** Where the pieces of `before + "tag: " + x + "." + y + "." + z + after` lie. */
  lemma SemanticVersionPieces(before: string, x: string, y: string, z: string, after: string)
    ensures var d := before + "tag: " + x + "." + y + "." + z + after;
            var p1 := |before| + 5;
            var p3 := p1 + |x| + 1;
            var p5 := p3 + |y| + 1;
            && p5 + |z| <= |d|
            && d[|before|..p1] == "tag: " && d[p1..p1 + |x|] == x && d[p1 + |x|..p3] == "."
            && d[p3..p3 + |y|] == y && d[p3 + |y|..p5] == "." && d[p5..p5 + |z|] == z
  {
  }

  /** The semantic-version pattern matches a span laid out as `tag: X.Y.Z`. */
  lemma SemanticVersionSpanMatches(d: string, p0: nat, x: string, y: string, z: string)
    requires IsDigits(x) && IsDigits(y) && IsDigits(z)
    requires var p1 := p0 + 5;
             var p3 := p1 + |x| + 1;
             var p5 := p3 + |y| + 1;
             && p5 + |z| <= |d|
             && d[p0..p1] == "tag: " && d[p1..p1 + |x|] == x && d[p1 + |x|..p3] == "."
             && d[p3..p3 + |y|] == y && d[p3 + |y|..p5] == "." && d[p5..p5 + |z|] == z
    ensures MatchesSpan(SemanticVersionPattern, d, p0, p0 + 7 + |x| + |y| + |z|)
  {
    var p1 := p0 + 5;
    var p2 := p1 + |x|;
    var p3 := p2 + 1;
    var p4 := p3 + |y|;
    var p5 := p4 + 1;
    var p6 := p5 + |z|;
    DigitsInClass(d, p5, z);
    DigitsInClass(d, p3, y);
    DigitsInClass(d, p1, x);
    var last: Pattern := [Lit("."), Plus(DigitClass)];
    var middle: Pattern := [Lit("."), Plus(DigitClass)] + last;
    assert SemanticVersionPattern == [Lit("tag: "), Plus(DigitClass)] + middle;
    LitPlusMatches(".", DigitClass, [], d, p4, p6, p6);
    assert last + [] == last;
    LitPlusMatches(".", DigitClass, last, d, p2, p4, p6);
    LitPlusMatches("tag: ", DigitClass, middle, d, p0, p2, p6);
  }

  /** A literal, then a run of `cls`, then `rest`. */
  lemma LitPlusMatches(t: string, cls: CharClass, rest: Pattern, d: string, i: int, k: int, j: int)
    requires OccursAt(d, t, i) && i + |t| < k && AllInClass(d, i + |t|, k, cls)
    requires MatchesSpan(rest, d, k, j)
    ensures MatchesSpan([Lit(t), Plus(cls)] + rest, d, i, j)
  {
    var pat := [Lit(t), Plus(cls)] + rest;
    assert pat[1..][1..] == rest;
    MatchPlusThen(pat[1..], d, i + |t|, k, j);
    MatchLitThen(pat, d, i, j);
  }

  // ---------------------------------------------------------------------
  // Records and commits
  // ---------------------------------------------------------------------

  /** Separates the fields of a git-log record (`--pretty=format:%h|§%s|§%b|§%d`). */
  const FieldSeparator := "|\U{00A7}"

  datatype LogRecord = LogRecord(hash: string, header: string, body: string, decoration: string)

  /** The record text git prints for a commit. */
  function FormatRecord(r: LogRecord): string
  {
    Join([r.hash, r.header, r.body, r.decoration], FieldSeparator)
  }

  /** `hash, header, body, decoration = record.split("|§")`: `None` where unpacking raises `ValueError`. */
  function ParseRecord(record: string): (r: Option<LogRecord>)
    ensures r.Some? <==> |Split(record, FieldSeparator)| == 4
    ensures r.Some? ==> FormatRecord(r.value) == record
  {
    var fields := Split(record, FieldSeparator);
    JoinSplit(record, FieldSeparator);
    if |fields| == 4 then
      assert fields == [fields[0], fields[1], fields[2], fields[3]];
      Some(LogRecord(fields[0], fields[1], fields[2], fields[3]))
    else None
  }

  predicate FieldsFree(r: LogRecord)
  {
    && !Contains(r.hash, FieldSeparator) && !Contains(r.header, FieldSeparator)
    && !Contains(r.body, FieldSeparator) && !Contains(r.decoration, FieldSeparator)
  }

  /** A record whose fields do not contain the separator parses back to itself. */
  lemma ParseFormatRecord(r: LogRecord)
    requires FieldsFree(r)
    ensures ParseRecord(FormatRecord(r)) == Some(r)
  {
    UniqueFirstCharUnbordered(FieldSeparator);
    var fields := [r.hash, r.header, r.body, r.decoration];
    SplitJoin(fields, FieldSeparator);
  }

  /** The empty record (what follows the last terminator of git's output) cannot be unpacked. */
  lemma EmptyRecordMalformed()
    ensures ParseRecord("") == None
  {
    assert Find("", FieldSeparator) == None;
    assert Split("", FieldSeparator) == [""];
  }

  datatype ParsedCommit = ParsedCommit(code: string, header: string, body: string)

  /** What becomes of one commit: parsed, kept as an unparsed header, or ignored. */
  datatype Classified = Parsed(commit: ParsedCommit) | Unparsed(header: string) | Ignored

  /**
   * The shared loop body of both parsers: a header without a colon is
   * unparsed (stripped) unless it is a ref merge, which is ignored; otherwise
   * the code is the text before the first colon and the header the rest,
   * colons included, each stripped.
   */
  function Classify(header: string, body: string): (c: Classified)
    ensures c.Parsed? <==> ':' in header
    ensures c.Ignored? <==> ':' !in header && Search(CommitRefMergePattern, header)
    ensures c.Unparsed? ==> c.header == Strip(header, Whitespace)
  {
    if ':' !in header then
      if Search(CommitRefMergePattern, header) then Ignored else Unparsed(Strip(header, Whitespace))
    else
      var parts := Split(header, ":");
      Parsed(ParsedCommit(Strip(parts[0], Whitespace), Strip(Join(parts[1..], ":"), Whitespace), Strip(body, Whitespace)))
  }

  lemma MergePatternSeparated()
    ensures Separated(CommitRefMergePattern)
  {
    var pat := CommitRefMergePattern;
    assert pat[1].Plus? && pat[2] == Lit(" into ") && !IsLowerHex(' ');
    assert !pat[0].Plus? && !pat[2].Plus?;
  }

  /** A header is ignored exactly when it has no colon and some span of it matches `Merge [0-9a-f]+ into [0-9a-f]+`. */
  lemma MergeRefMeans(header: string, body: string)
    ensures Search(CommitRefMergePattern, header) <==> exists a, b :: MatchesSpan(CommitRefMergePattern, header, a, b)
    ensures Classify(header, body).Ignored? <==>
              ':' !in header && exists a, b :: MatchesSpan(CommitRefMergePattern, header, a, b)
  {
    MergePatternSeparated();
    SearchMeans(CommitRefMergePattern, header);
  }

  /** A header is split at its first colon; later colons stay in the header. */
  lemma ClassifySplitsAtFirstColon(header: string, body: string, i: int)
    requires 0 <= i < |header| && header[i] == ':' && ':' !in header[..i]
    ensures Classify(header, body)
         == Parsed(ParsedCommit(Strip(header[..i], Whitespace), Strip(header[i + 1..], Whitespace), Strip(body, Whitespace)))
  {
    var a := header[..i];
    var r := header[i + 1..];
    assert header == a + ":" + r;
    MissingCharNotContained(a, ":", 0);
    UniqueFirstCharUnbordered(":");
    SplitFirstPiece(a, ":", r);
    JoinSplit(r, ":");
    assert Split(header, ":")[1..] == Split(r, ":");
  }

  datatype Commits = Commits(parsed: seq<ParsedCommit>, unparsed: seq<string>)

  /** Add a classified commit in front (the recursive parsers build their lists this way). */
  function Prepend(c: Classified, cs: Commits): Commits
  {
    match c
    case Parsed(p) => cs.(parsed := [p] + cs.parsed)
    case Unparsed(h) => cs.(unparsed := [h] + cs.unparsed)
    case Ignored => cs
  }

  /** Add a classified commit at the back, as the source's `append` calls do. */
  function Append(cs: Commits, c: Classified): Commits
  {
    match c
    case Parsed(p) => cs.(parsed := cs.parsed + [p])
    case Unparsed(h) => cs.(unparsed := cs.unparsed + [h])
    case Ignored => cs
  }

  /** Reference reading of the parsers: the classified commits, collected in order from the front. */
  function Collect(cs: seq<Classified>): Commits
  {
    if |cs| == 0 then Commits([], []) else Append(Collect(cs[..|cs| - 1]), cs[|cs| - 1])
  }

  lemma {:induction false} CollectCons(c: Classified, cs: seq<Classified>)
    ensures Collect([c] + cs) == Prepend(c, Collect(cs))
    decreases |cs|
  {
    if |cs| > 0 {
      var init := cs[..|cs| - 1];
      assert ([c] + cs)[..|cs|] == [c] + init;
      CollectCons(c, init);
    } else {
      assert [c] + cs == [c];
      assert [c][..0] == [];
    }
  }

  /** Every parsed commit comes from a header with a colon and every unparsed header from one without. */
  lemma {:induction false} CollectCounts(cs: seq<Classified>)
    ensures |Collect(cs).parsed| + |Collect(cs).unparsed| <= |cs|
    decreases |cs|
  {
    if |cs| > 0 {
      CollectCounts(cs[..|cs| - 1]);
    }
  }

  // ---------------------------------------------------------------------
  // The git-log walk
  // ---------------------------------------------------------------------

  datatype LogError = MalformedRecord(record: string)

  /**
   * `_parse_commit_messages_from_git_log`: records are read in order until
   * the first one whose decoration marks a release; that record and all
   * after it are not read, so a malformed record there does no harm.
   */
  function ParseGitLog(records: seq<string>): (r: Result<Commits, LogError>)
    decreases |records|
  {
    if |records| == 0 then Success(Commits([], []))
    else match ParseRecord(records[0])
      case None => Failure(MalformedRecord(records[0]))
      case Some(rec) =>
        if IsReleaseDecoration(rec.decoration) then Success(Commits([], []))
        else match ParseGitLog(records[1..])
          case Failure(e) => Failure(e)
          case Success(rest) => Success(Prepend(Classify(rec.header, rec.body), rest))
  }

  /** Record `j` is well formed and not a release, so the walk reads it and goes on. */
  predicate ReadOn(records: seq<string>, j: int)
    requires 0 <= j < |records|
  {
    ParseRecord(records[j]).Some? && !IsReleaseDecoration(ParseRecord(records[j]).value.decoration)
  }

  /** The classification of the well-formed records, in order. */
  function ClassifyRecords(records: seq<string>): (cs: seq<Classified>)
    ensures |cs| <= |records|
  {
    if |records| == 0 then []
    else match ParseRecord(records[0])
      case None => ClassifyRecords(records[1..])
      case Some(rec) => [Classify(rec.header, rec.body)] + ClassifyRecords(records[1..])
  }

  /** One step of the walk over a record it reads on. */
  lemma GitLogStep(records: seq<string>)
    requires |records| > 0 && ReadOn(records, 0)
    ensures var rec := ParseRecord(records[0]).value;
            ParseGitLog(records) == match ParseGitLog(records[1..])
              case Failure(e) => Failure(e)
              case Success(rest) => Success(Prepend(Classify(rec.header, rec.body), rest))
  {
  }

  /**
   * The walk's result, when it ends at index `n` (the end of the log or a
   * release record): the records before `n` classified and collected in
   * order, and nothing from `n` on.
   */
  lemma {:induction false} GitLogReadsUpToRelease(records: seq<string>, n: int)
    requires 0 <= n <= |records|
    requires forall j :: 0 <= j < n ==> ReadOn(records, j)
    requires n < |records| ==> ParseRecord(records[n]).Some? && IsReleaseDecoration(ParseRecord(records[n]).value.decoration)
    ensures ParseGitLog(records) == Success(Collect(ClassifyRecords(records[..n])))
    decreases n
  {
    if n == 0 {
      assert records[..0] == [];
      if |records| > 0 {
        assert ParseRecord(records[0]).Some?;
      }
    } else {
      var rest := records[1..];
      ReadOnShift(records, n);
      GitLogReadsUpToRelease(rest, n - 1);
      GitLogStep(records);
      var rec := ParseRecord(records[0]).value;
      var c := Classify(rec.header, rec.body);
      var tail := ClassifyRecords(rest[..n - 1]);
      ClassifyFirstRecord(records, n);
      CollectCons(c, tail);
    }
  }

  /** The walk's preconditions, moved one record on. */
  lemma ReadOnShift(records: seq<string>, n: int)
    requires 0 < n <= |records|
    requires forall j :: 0 <= j < n ==> ReadOn(records, j)
    requires n < |records| ==> ParseRecord(records[n]).Some? && IsReleaseDecoration(ParseRecord(records[n]).value.decoration)
    ensures ReadOn(records, 0)
    ensures forall j :: 0 <= j < n - 1 ==> ReadOn(records[1..], j)
    ensures n - 1 < |records[1..]| ==> ParseRecord(records[1..][n - 1]).Some? && IsReleaseDecoration(ParseRecord(records[1..][n - 1]).value.decoration)
  {
    var rest := records[1..];
    assert ReadOn(records, 0);
    forall j | 0 <= j < n - 1
      ensures ReadOn(rest, j)
    {
      assert rest[j] == records[j + 1];
      assert ReadOn(records, j + 1);
    }
    if n < |records| {
      assert rest[n - 1] == records[n];
    }
  }

  /** The first record of a read prefix is classified first. */
  lemma ClassifyFirstRecord(records: seq<string>, n: int)
    requires 0 < n <= |records| && ParseRecord(records[0]).Some?
    ensures var rec := ParseRecord(records[0]).value;
            ClassifyRecords(records[..n]) == [Classify(rec.header, rec.body)] + ClassifyRecords(records[1..][..n - 1])
  {
    assert records[..n][0] == records[0];
    assert records[..n][1..] == records[1..][..n - 1];
  }

  /** The first malformed record reached makes the whole walk fail. */
  lemma {:induction false} GitLogMalformedRecordFails(records: seq<string>, n: int)
    requires 0 <= n < |records|
    requires forall j :: 0 <= j < n ==> ReadOn(records, j)
    requires ParseRecord(records[n]).None?
    ensures ParseGitLog(records) == Failure(MalformedRecord(records[n]))
    decreases n
  {
    if n > 0 {
      assert ReadOn(records, 0);
      var rest := records[1..];
      forall j | 0 <= j < n - 1
        ensures ReadOn(rest, j)
      {
        assert rest[j] == records[j + 1];
        assert ReadOn(records, j + 1);
      }
      GitLogMalformedRecordFails(rest, n - 1);
    }
  }

  /** Nothing after a release record is read: what follows it cannot change the result. */
  lemma GitLogIgnoresAfterRelease(records: seq<string>, n: int, later: seq<string>)
    requires 0 <= n < |records|
    requires forall j :: 0 <= j < n ==> ReadOn(records, j)
    requires ParseRecord(records[n]).Some? && IsReleaseDecoration(ParseRecord(records[n]).value.decoration)
    ensures ParseGitLog(records[..n + 1] + later) == ParseGitLog(records)
  {
    var cut := records[..n + 1] + later;
    assert forall j :: 0 <= j <= n ==> cut[j] == records[j];
    forall j | 0 <= j < n
      ensures ReadOn(cut, j)
    {
      assert ReadOn(records, j);
    }
    GitLogReadsUpToRelease(records, n);
    GitLogReadsUpToRelease(cut, n);
    assert cut[..n] == records[..n];
  }

  /**
   * A history with no release fails on the empty record that follows git's
   * final terminator: the walk only succeeds on such output when it meets a
   * release first.
   */
  lemma UnreleasedHistoryFails(records: seq<string>)
    requires forall j :: 0 <= j < |records| ==> ReadOn(records, j)
    ensures ParseGitLog(records + [""]) == Failure(MalformedRecord(""))
  {
    var all := records + [""];
    forall j | 0 <= j < |records|
      ensures ReadOn(all, j)
    {
      assert all[j] == records[j];
      assert ReadOn(records, j);
    }
    EmptyRecordMalformed();
    GitLogMalformedRecordFails(all, |records|);
  }

  // ---------------------------------------------------------------------
  // Pull requests
  // ---------------------------------------------------------------------

  /** The parts of a GitHub pull request the compiler reads; `body` is `None` for a pull request without a description. */
  datatype PullRequest = PullRequest(number: nat, htmlUrl: string, body: Option<string>, commitMessages: seq<string>)

  /** `header, *body = message.split("\n")` and `body = "\n".join(body)`. */
  function SplitMessage(message: string): (hb: (string, string))
    ensures hb.0 + (if Contains(message, "\n") then "\n" else "") + hb.1 == message
  {
    var lines := Split(message, "\n");
    JoinSplit(message, "\n");
    if Contains(message, "\n") then
      var i := Find(message, "\n").value;
      assert lines == [message[..i]] + Split(message[i + 1..], "\n");
      JoinCons(lines[0], lines[1..], "\n");
      assert [lines[0]] + lines[1..] == lines;
      (lines[0], Join(lines[1..], "\n"))
    else
      assert lines == [message];
      (message, "")
  }

  /** The header is the text before the first newline and the body everything after it. */
  lemma SplitMessageAtFirstNewline(message: string, i: int)
    requires 0 <= i < |message| && message[i] == '\n' && '\n' !in message[..i]
    ensures SplitMessage(message) == (message[..i], message[i + 1..])
  {
    var a := message[..i];
    var r := message[i + 1..];
    assert message == a + "\n" + r;
    MissingCharNotContained(a, "\n", 0);
    UniqueFirstCharUnbordered("\n");
    SplitFirstPiece(a, "\n", r);
    JoinSplit(r, "\n");
    assert OccursAt(message, "\n", i) by { assert message[i..i + 1] == "\n"; }
    assert Split(message, "\n")[1..] == Split(r, "\n");
  }

  /** The classification of each pull-request commit message. */
  function ClassifyMessages(messages: seq<string>): (cs: seq<Classified>)
    ensures |cs| == |messages|
  {
    if |messages| == 0 then []
    else
      var (header, body) := SplitMessage(messages[0]);
      [Classify(header, body)] + ClassifyMessages(messages[1..])
  }

  /** `_parse_commit_messages_from_github`: every commit of the pull request is read; there is no stop point. */
  function ParsePullRequest(messages: seq<string>): (cs: Commits)
    ensures cs == Collect(ClassifyMessages(messages))
    decreases |messages|
  {
    if |messages| == 0 then Commits([], [])
    else
      var (header, body) := SplitMessage(messages[0]);
      var rest := ParsePullRequest(messages[1..]);
      CollectCons(Classify(header, body), ClassifyMessages(messages[1..]));
      Prepend(Classify(header, body), rest)
  }
}
