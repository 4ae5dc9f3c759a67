/**
 * The analyzer of the linter's text report: it reads the report line by line,
 * keeps the lines of the form
 *
 *   <path>: line <n>, col <n>, Error - <message>
 *   <path>: line <n>, col <n>, Warning - <message>
 *
 * counts them per file under the file's directory, and lists the directories by
 * non-increasing number of issues, each with its files by non-increasing count.
 *
 * The line grammar is the regular expression
 * `^(.+?):\s+line\s+\d+,\s+col\s+\d+,\s+(Error|Warning)\s+-`, matched by hand.
 * After the lazy path, every repetition is followed by a character outside its
 * class (`l`, `,`, `c`, `E`, `W`, `-`), so taking the longest run is the only way
 * it can match, and the two words of the alternation start with different letters:
 * the tail after the path is matched without backtracking.
 */
module AnalyzeText {
  import opened Wrappers
  import opened Text
  import opened Dicts
  import opened Sorting
  import opened Patterns

  // ---------------------------------------------------------------------------
  // The line grammar

  /** A step of the tail: fixed text, `\s+`, or `\d+`. */
  datatype Token = Exact(t: string) | Spaces | Digits

  /** The length of the longest run of class-k characters at the start of s. */
  function RunLength(k: CharClass, s: string): (n: nat)
    ensures n <= |s|
  {
    if s != [] && InClass(k, s[0]) then 1 + RunLength(k, s[1..]) else 0
  }

  /** How many characters at the start of s the token takes, if it matches there. */
  function Lead(tok: Token, s: string): (r: Option<nat>)
    ensures r.Some? ==> r.value <= |s|
  {
    match tok
    case Exact(t) => if StartsWith(s, t) then Some(|t|) else None
    case Spaces => if RunLength(Space, s) > 0 then Some(RunLength(Space, s)) else None
    case Digits => if RunLength(Digit, s) > 0 then Some(RunLength(Digit, s)) else None
  }

  /** What is left of s after the tokens from the k-th on have matched at its start,
      one after the other. */
  function Scan(toks: seq<Token>, k: nat, s: string): (r: Option<string>)
    requires k <= |toks|
    decreases |toks| - k, |s|
  {
    if k == |toks| then Some(s)
    else if Lead(toks[k], s).None? then None
    else Scan(toks, k + 1, s[Lead(toks[k], s).value..])
  }

  /** `:\s+line\s+\d+,\s+col\s+\d+,\s+` */
  const Opening: seq<Token> :=
    [Exact(":"), Spaces, Exact("line"), Spaces, Digits, Exact(","),
     Spaces, Exact("col"), Spaces, Digits, Exact(","), Spaces]

  /** `\s+-` */
  const Closing: seq<Token> := [Spaces, Exact("-")]

  /** The severity (group 2) when the tail of the grammar matches at the start of s. */
  function TailAt(s: string): (kind: Option<string>)
  {
    match Scan(Opening, 0, s)
    case None => None
    case Some(rest) =>
      if StartsWith(rest, "Error") && Scan(Closing, 0, rest[5..]).Some? then Some("Error")
      else if StartsWith(rest, "Warning") && Scan(Closing, 0, rest[7..]).Some? then Some("Warning")
      else None
  }

  /** The lazy `(.+?)` from length k on, followed by the pattern `tail`: the first length
      whose last character is not a newline (`.` stops at one) and after which `tail`
      matches, with what `tail` matched. */
  function LazyFrom(s: string, k: nat, tail: string -> Option<string>): (r: Option<(nat, string)>)
    requires 1 <= k
    ensures r.Some? ==> k <= r.value.0 <= |s|
    decreases |s| + 1 - k
  {
    if k > |s| || s[k - 1] == '\n' then None
    else match tail(s[k..])
      case Some(kind) => Some((k, kind))
      case None => LazyFrom(s, k + 1, tail)
  }

  /** `file_pattern.match(s)`: the path (group 1) and the severity (group 2). */
  function MatchLine(s: string): Option<(string, string)>
  {
    match LazyFrom(s, 1, TailAt)
    case None => None
    case Some((n, kind)) => Some((s[..n], kind))
  }

  /** The lazy group could end after n characters: it is not empty, has no newline, and
      `tail` matches right after it. */
  predicate Candidate(s: string, n: nat, tail: string -> Option<string>) {
    1 <= n <= |s| && (forall t :: 0 <= t < n ==> s[t] != '\n') && tail(s[n..]).Some?
  }

  /** The search returns the first candidate from k on, if there is one. */
  lemma {:induction false} LazyFromFirst(s: string, k: nat, tail: string -> Option<string>)
    requires 1 <= k
    requires forall t :: 0 <= t < k - 1 && t < |s| ==> s[t] != '\n'
    ensures LazyFrom(s, k, tail).Some? ==>
              var n := LazyFrom(s, k, tail).value.0;
              Candidate(s, n, tail) && tail(s[n..]) == Some(LazyFrom(s, k, tail).value.1)
              && forall j :: k <= j < n ==> !Candidate(s, j, tail)
    ensures LazyFrom(s, k, tail).None? ==> forall j :: k <= j ==> !Candidate(s, j, tail)
    decreases |s| + 1 - k
  {
    if k <= |s| && s[k - 1] != '\n' && tail(s[k..]).None? {
      LazyFromFirst(s, k + 1, tail);
    }
  }

  /** A match's path is the shortest non-empty beginning of the line, without a newline,
      after which the tail matches, and the severity is what the tail matched. */
  lemma {:induction false} MatchLineFound(s: string, path: string, kind: string)
    requires MatchLine(s) == Some((path, kind))
    ensures |path| <= |s| && path == s[..|path|]
    ensures Candidate(s, |path|, TailAt) && TailAt(s[|path|..]) == Some(kind)
    ensures forall j :: 1 <= j < |path| ==> !Candidate(s, j, TailAt)
  {
    LazyFromFirst(s, 1, TailAt);
  }

  /** A line fails to match exactly when no length of path would do. */
  lemma {:induction false} MatchLineNone(s: string)
    ensures MatchLine(s).None? <==> forall j :: !Candidate(s, j, TailAt)
  {
    LazyFromFirst(s, 1, TailAt);
  }

  // ---------------------------------------------------------------------------
  // The lines the grammar is written for

  /** A non-empty run of decimal digits. */
  predicate Numeral(n: string) {
    n != [] && forall t :: 0 <= t < |n| ==> IsDigit(n[t])
  }

  /** A report line for one message, `<path>: line <line>, col <col>, <kind> - <text>`,
      built from the pieces the grammar's steps take one at a time. */
  function ReportLine(path: string, line: string, col: string, kind: string, text: string): string {
    path + LinePart(line, ColumnPart(col, kind + Dash(text)))
  }

  /** `: line <line>` followed by rest. */
  function LinePart(line: string, rest: string): string {
    ":" + (" " + ("line" + (" " + (line + rest))))
  }

  /** `, col <col>, ` followed by rest. */
  function ColumnPart(col: string, rest: string): string {
    "," + (" " + ("col" + (" " + (col + ("," + (" " + rest))))))
  }

  /** ` - <text>` */
  function Dash(text: string): string {
    " " + ("-" + (" " + text))
  }

  /** Token k takes piece from the start of piece + rest, and the tokens after it go on
      from rest. */
  lemma {:induction false} ScanStep(toks: seq<Token>, k: nat, tok: Token, piece: string, rest: string)
    requires k < |toks| && toks[k] == tok && Lead(tok, piece + rest) == Some(|piece|)
    ensures Scan(toks, k, piece + rest) == Scan(toks, k + 1, rest)
  {
    var s := piece + rest;
    assert s[|piece|..] == rest;
  }

  lemma {:induction false} LeadExact(t: string, rest: string)
    ensures Lead(Exact(t), t + rest) == Some(|t|)
  {
    assert (t + rest)[..|t|] == t;
  }

  lemma {:induction false} LeadSpace(rest: string)
    requires rest != [] && !IsSpace(rest[0])
    ensures Lead(Spaces, " " + rest) == Some(1)
  {
    RunLengthOf(Space, " ", rest);
  }

  /** A run of class-k characters followed by one outside the class is the whole run. */
  lemma {:induction false} RunLengthOf(k: CharClass, run: string, rest: string)
    requires forall t :: 0 <= t < |run| ==> InClass(k, run[t])
    requires rest != [] && !InClass(k, rest[0])
    ensures RunLength(k, run + rest) == |run|
  {
    if run == [] {
      assert run + rest == rest;
    } else {
      assert (run + rest)[1..] == run[1..] + rest;
      RunLengthOf(k, run[1..], rest);
    }
  }

  lemma {:induction false} LeadDigits(n: string, rest: string)
    requires Numeral(n) && rest != [] && !IsDigit(rest[0])
    ensures Lead(Digits, n + rest) == Some(|n|)
  {
    RunLengthOf(Digit, n, rest);
  }

  /** The steps of `Opening`, one by one; the proofs below are stated over any token
      sequence with these steps, so that the constant is unfolded only once. */
  predicate OpeningSteps(toks: seq<Token>) {
    |toks| == 12 && toks[0] == Exact(":") && toks[1] == Spaces && toks[2] == Exact("line")
    && toks[3] == Spaces && toks[4] == Digits && toks[5] == Exact(",") && toks[6] == Spaces
    && toks[7] == Exact("col") && toks[8] == Spaces && toks[9] == Digits
    && toks[10] == Exact(",") && toks[11] == Spaces
  }

  /** `,\s+col\s+\d+,\s+` over ", col <col>, ", up to the severity. */
  lemma {:induction false} ColumnScan(toks: seq<Token>, col: string, rest: string)
    requires OpeningSteps(toks)
    requires Numeral(col) && rest != [] && !IsSpace(rest[0])
    ensures Scan(toks, 5, ColumnPart(col, rest)) == Some(rest)
  {
    var r10 := " " + rest;
    var r9 := "," + r10;
    var r8 := col + r9;
    var r7 := " " + r8;
    var r6 := "col" + r7;
    var r5 := " " + r6;
    LeadSpace(rest);
    ScanStep(toks, 11, Spaces, " ", rest);
    LeadExact(",", r10);
    ScanStep(toks, 10, Exact(","), ",", r10);
    LeadDigits(col, r9);
    ScanStep(toks, 9, Digits, col, r9);
    LeadSpace(r8);
    ScanStep(toks, 8, Spaces, " ", r8);
    LeadExact("col", r7);
    ScanStep(toks, 7, Exact("col"), "col", r7);
    LeadSpace(r6);
    ScanStep(toks, 6, Spaces, " ", r6);
    LeadExact(",", r5);
    ScanStep(toks, 5, Exact(","), ",", r5);
  }

  /** `:\s+line\s+\d+` over ": line <line>", up to the comma after the line number. */
  lemma {:induction false} LineScan(toks: seq<Token>, line: string, rest: string)
    requires OpeningSteps(toks)
    requires Numeral(line) && rest != [] && rest[0] == ','
    ensures Scan(toks, 0, LinePart(line, rest)) == Scan(toks, 5, rest)
  {
    var r3 := line + rest;
    var r2 := " " + r3;
    var r1 := "line" + r2;
    LeadDigits(line, rest);
    ScanStep(toks, 4, Digits, line, rest);
    LeadSpace(r3);
    ScanStep(toks, 3, Spaces, " ", r3);
    LeadExact("line", r2);
    ScanStep(toks, 2, Exact("line"), "line", r2);
    LeadSpace(r1);
    ScanStep(toks, 1, Spaces, " ", r1);
    LeadExact(":", " " + r1);
    ScanStep(toks, 0, Exact(":"), ":", " " + r1);
  }

  /** The opening takes everything from the colon after the path to the severity. */
  lemma {:induction false} OpeningScan(line: string, col: string, after: string)
    requires Numeral(line) && Numeral(col) && after != [] && !IsSpace(after[0])
    ensures Scan(Opening, 0, LinePart(line, ColumnPart(col, after))) == Some(after)
  {
    assert OpeningSteps(Opening);
    ColumnScan(Opening, col, after);
    LineScan(Opening, line, ColumnPart(col, after));
  }

  /** `\s+-` matches at the start of " - <text>". */
  lemma {:induction false} ClosingScan(text: string)
    ensures Scan(Closing, 0, Dash(text)).Some?
  {
    LeadSpace("-" + (" " + text));
    ScanStep(Closing, 0, Spaces, " ", "-" + (" " + text));
    LeadExact("-", " " + text);
    ScanStep(Closing, 1, Exact("-"), "-", " " + text);
  }

  /** The tail of a report line, right after its path, matches with the line's severity. */
  lemma {:induction false} TailOfReportLine(line: string, col: string, kind: string, text: string)
    requires Numeral(line) && Numeral(col)
    requires kind == "Error" || kind == "Warning"
    ensures TailAt(LinePart(line, ColumnPart(col, kind + Dash(text)))) == Some(kind)
  {
    var after := kind + Dash(text);
    assert after[0] == kind[0];
    OpeningScan(line, col, after);
    ClosingScan(text);
    assert after[..|kind|] == kind;
    assert after[|kind|..] == Dash(text);
  }

  /** The tail can only match at a colon. */
  lemma {:induction false} TailAtColon(u: string)
    ensures TailAt(u).Some? ==> u != [] && u[0] == ':'
  {
    assert Opening[0] == Exact(":");
  }

  /** A report line whose path has no colon and no newline, does not start with
      whitespace, and whose message does not end with whitespace, read with its newline:
      the analyzer finds the path and the severity it was written with. */
  lemma {:induction false} ReportLineParsed(path: string, line: string, col: string, kind: string, text: string)
    requires path != [] && !IsSpace(path[0])
    requires forall t :: 0 <= t < |path| ==> path[t] != ':' && path[t] != '\n'
    requires Numeral(line) && Numeral(col)
    requires kind == "Error" || kind == "Warning"
    requires text != [] && !IsSpace(text[|text| - 1])
    ensures MatchLine(Strip(ReportLine(path, line, col, kind, text) + "\n")) == Some((path, kind))
  {
    var s := ReportLine(path, line, col, kind, text);
    var rest := LinePart(line, ColumnPart(col, kind + Dash(text)));
    assert s[0] == path[0];
    assert s[|s| - 1] == text[|text| - 1];
    StripNewline(s);
    assert s[..|path|] == path && s[|path|..] == rest;
    TailOfReportLine(line, col, kind, text);
    PathBeforeTail(s, path, kind);
  }

  /** A line that starts with a path free of ':' and newlines, followed by a tail that
      matches, yields that path: the lazy group cannot stop earlier, since the tail
      begins with ':'. */
  lemma {:induction false} PathBeforeTail(s: string, path: string, kind: string)
    requires path != [] && |path| <= |s| && s[..|path|] == path
    requires forall t :: 0 <= t < |path| ==> path[t] != ':' && path[t] != '\n'
    requires TailAt(s[|path|..]) == Some(kind)
    ensures MatchLine(s) == Some((path, kind))
  {
    var m := |path|;
    forall n | 0 <= n < m
      ensures TailAt(s[n..]).None?
    {
      TailAtColon(s[n..]);
      assert s[n] == path[n];
    }
    assert Candidate(s, m, TailAt);
    MatchLineNone(s);
    var r := MatchLine(s).value;
    MatchLineFound(s, r.0, r.1);
    assert |r.0| == m;
  }

  /** Stripping a line that starts and ends with visible characters removes only its
      newline. */
  lemma {:induction false} StripNewline(s: string)
    requires s != [] && !IsSpace(s[0]) && !IsSpace(s[|s| - 1])
    ensures Strip(s + "\n") == s
  {
    var u := s + "\n";
    var ab := StripBounds(u);
    assert u[0] == s[0] && u[|s| - 1] == s[|s| - 1];
    assert u[..|s|] == s;
  }

  // ---------------------------------------------------------------------------
  // parse_eslint_report

  /** `folder_file_errors[folder]`: the number of matched lines per file path. */
  type FileCounts = Dict<string, nat>

  /** `folder_file_errors`: folder -> file path -> number of matched lines. */
  type Folders = Dict<string, FileCounts>

  /** The path a line contributes, if it matches once stripped. */
  function CapturedPath(line: string): Option<string> {
    match MatchLine(Strip(line))
    case None => None
    case Some((path, _)) => Some(path)
  }

  /** `folder_file_errors[os.path.dirname(path)][path] += 1`, through the two
      `defaultdict`s: a new folder or path is added after the existing ones. */
  function Hit(d: Folders, path: string): Folders {
    var folder := Dirname(path);
    var files := Get(d, folder, []);
    Put(d, folder, Put<string, nat>(files, path, Get(files, path, 0) + 1))
  }

  /** The paths of the matching lines, in report order. */
  function Hits(lines: seq<string>): seq<string>
  {
    if lines == [] then []
    else
      var prev := Hits(lines[..|lines| - 1]);
      match CapturedPath(lines[|lines| - 1])
      case None => prev
      case Some(path) => prev + [path]
  }

  /** The mapping after counting the matched paths one after the other. */
  function CountPaths(paths: seq<string>): Folders
  {
    if paths == [] then [] else Hit(CountPaths(paths[..|paths| - 1]), paths[|paths| - 1])
  }

  lemma HitsSnoc(lines: seq<string>, i: nat)
    requires i < |lines|
    ensures CapturedPath(lines[i]).None? ==> Hits(lines[..i + 1]) == Hits(lines[..i])
    ensures CapturedPath(lines[i]).Some? ==> Hits(lines[..i + 1]) == Hits(lines[..i]) + [CapturedPath(lines[i]).value]
  {
    assert lines[..i + 1][..i] == lines[..i];
  }

  lemma CountPathsSnoc(paths: seq<string>, p: string)
    ensures CountPaths(paths + [p]) == Hit(CountPaths(paths), p)
  {
    assert (paths + [p])[..|paths|] == paths;
  }

  lemma TallySnoc(lines: seq<string>, i: nat)
    requires i < |lines|
    ensures CapturedPath(lines[i]).None? ==> Tally(lines[..i + 1]) == Tally(lines[..i])
    ensures CapturedPath(lines[i]).Some? ==> Tally(lines[..i + 1]) == Hit(Tally(lines[..i]), CapturedPath(lines[i]).value)
  {
    HitsSnoc(lines, i);
    if CapturedPath(lines[i]).Some? {
      CountPathsSnoc(Hits(lines[..i]), CapturedPath(lines[i]).value);
    }
  }

  /** What the loop over the report's lines builds. */
  function Tally(lines: seq<string>): Folders {
    CountPaths(Hits(lines))
  }

  /** Every count belongs to its path's folder: each file is counted exactly as often
      as it was matched, under its own folder and no other. */
  lemma {:induction false} CountPathsCounts(paths: seq<string>, folder: string, path: string)
    ensures Get(Get(CountPaths(paths), folder, []), path, 0)
            == if folder == Dirname(path) then multiset(paths)[path] else 0
  {
    if paths != [] {
      var init, p := paths[..|paths| - 1], paths[|paths| - 1];
      CountPathsCounts(init, folder, path);
      var d := CountPaths(init);
      var files := Get(d, Dirname(p), []);
      var files' := Put<string, nat>(files, p, Get(files, p, 0) + 1);
      GetPut(d, Dirname(p), files', folder, []);
      GetPut(files, p, Get(files, p, 0) + 1, path, 0);
      assert paths == init + [p];
      assert multiset(paths) == multiset(init) + multiset{p};
      if folder == Dirname(p) && path != p && Dirname(path) == Dirname(p) {
        CountPathsCounts(init, Dirname(p), path);
      }
    }
  }

  /** The counts add up to the number of matched paths. */
  lemma {:induction false} CountPathsTotal(paths: seq<string>)
    ensures SumBy(CountPaths(paths), Total) == |paths|
  {
    if paths != [] {
      var init, p := paths[..|paths| - 1], paths[|paths| - 1];
      CountPathsTotal(init);
      var d := CountPaths(init);
      var files := Get(d, Dirname(p), []);
      var files' := Put<string, nat>(files, p, Get(files, p, 0) + 1);
      TotalPut(files, p, Get(files, p, 0) + 1);
      SumByPut(d, Dirname(p), files', [], Total);
    }
  }

  /** Every folder holds at least one file, every file at least one count, no key is
      repeated, and every file is held by its own folder. */
  predicate FoldersTidy(d: Folders) {
    Distinct(d) && forall x :: x in d ==> FilesTidy(x.0, x.1)
  }

  predicate FilesTidy(folder: string, files: FileCounts) {
    files != [] && Distinct(files) && forall y :: y in files ==> y.1 >= 1 && Dirname(y.0) == folder
  }

  lemma {:induction false} HitTidy(d: Folders, path: string)
    requires FoldersTidy(d)
    ensures FoldersTidy(Hit(d, path))
  {
    var folder := Dirname(path);
    var files := Get(d, folder, []);
    if folder in Keys(d) {
      GetIn(d, folder, []);
    } else {
      GetMissing(d, folder, []);
    }
    var files' := Put<string, nat>(files, path, Get(files, path, 0) + 1);
    DistinctPut(files, path, Get(files, path, 0) + 1);
    PutItems(files, path, Get(files, path, 0) + 1);
    PutHas(files, path, Get(files, path, 0) + 1);
    assert FilesTidy(folder, files');
    DistinctPut(d, folder, files');
    PutItems(d, folder, files');
  }

  lemma {:induction false} CountPathsTidy(paths: seq<string>)
    ensures FoldersTidy(CountPaths(paths))
  {
    if paths != [] {
      CountPathsTidy(paths[..|paths| - 1]);
      HitTidy(CountPaths(paths[..|paths| - 1]), paths[|paths| - 1]);
    }
  }

  /** The mapping is empty exactly when no path was matched. */
  lemma {:induction false} CountPathsEmpty(paths: seq<string>)
    ensures CountPaths(paths) == [] <==> paths == []
  {
    if paths != [] {
      var d := CountPaths(paths[..|paths| - 1]);
      var p := paths[|paths| - 1];
      var files := Get(d, Dirname(p), []);
      PutHas(d, Dirname(p), Put<string, nat>(files, p, Get(files, p, 0) + 1));
    }
  }

  /** One line of the loop: a matching line counts its path once more. */
  method CountLine(d: Folders, line: string) returns (d': Folders)
    ensures CapturedPath(line).None? ==> d' == d
    ensures CapturedPath(line).Some? ==> d' == Hit(d, CapturedPath(line).value)
  {
    d' := d;
    var m := MatchLine(Strip(line));
    if m.Some? {
      var path := m.value.0;
      var folder := Dirname(path);
      var files := Get(d, folder, []);
      d' := Put(d, folder, Put<string, nat>(files, path, Get(files, path, 0) + 1));
    }
  }

  /** `parse_eslint_report`: `report` is the file's text, None when the file is missing
      or reading it fails; both cases give the empty mapping. */
  method ParseReport(report: Option<string>) returns (d: Folders)
    ensures report.None? ==> d == []
    ensures report.Some? ==> d == Tally(ReadLines(report.value))
  {
    if report.None? {
      return [];
    }
    var lines := ReadLines(report.value);
    d := [];
    for i := 0 to |lines|
      invariant d == Tally(lines[..i])
    {
      TallySnoc(lines, i);
      d := CountLine(d, lines[i]);
    }
    assert lines[..|lines|] == lines;
  }

  // ---------------------------------------------------------------------------
  // display_sorted_results, without the printing

  /** A file's line: its base name and its count. */
  datatype FileLine = FileLine(filename: string, count: nat)

  /** A folder's heading (its short name and total) and its files. */
  datatype FolderBlock = FolderBlock(shortName: string, total: nat, files: seq<FileLine>)

  /** "No ESLint issues found" when the mapping is empty, the folders otherwise. */
  datatype Listing = NoIssues | Listing(folders: seq<FolderBlock>)

  /** `os.path.basename(folder) or folder`. */
  function ShortName(folder: string): string {
    if Basename(folder) != [] then Basename(folder) else folder
  }

  /** The name shown is an end of the folder's path, never empty for a non-empty folder,
      and free of `/` unless it is the whole folder. */
  lemma ShortNameShape(folder: string)
    ensures EndsWith(folder, ShortName(folder))
    ensures folder != [] ==> ShortName(folder) != []
    ensures ShortName(folder) != folder ==> forall k :: 0 <= k < |ShortName(folder)| ==> ShortName(folder)[k] != '/'
  {
    BasenameShape(folder);
  }

  function FileLines(sorted: seq<(string, nat)>): seq<FileLine>
  {
    if sorted == [] then []
    else FileLines(sorted[..|sorted| - 1]) + [FileLine(Basename(sorted[|sorted| - 1].0), sorted[|sorted| - 1].1)]
  }

  function BlockOf(d: Folders, item: (string, nat)): FolderBlock {
    FolderBlock(ShortName(item.0), item.1, FileLines(SortByCountDesc(Get(d, item.0, []))))
  }

  function Blocks(d: Folders, sorted: seq<(string, nat)>): seq<FolderBlock>
  {
    if sorted == [] then [] else Blocks(d, sorted[..|sorted| - 1]) + [BlockOf(d, sorted[|sorted| - 1])]
  }

  /** What the listing shows for a mapping. */
  function Display(d: Folders): Listing {
    if d == [] then NoIssues else Listing(Blocks(d, SortByCountDesc(MapValues(d, Total))))
  }

  /** The `folder_errors` loop. */
  method FolderTotals(d: Folders) returns (folderErrors: Dict<string, nat>)
    ensures folderErrors == MapValues(d, Total)
  {
    folderErrors := [];
    for i := 0 to |d|
      invariant folderErrors == MapValues(d[..i], Total)
    {
      assert d[..i + 1][..i] == d[..i];
      folderErrors := Put(folderErrors, d[i].0, Total(d[i].1));
    }
    assert d[..|d|] == d;
  }

  /** One folder's heading and its files, sorted. */
  method ListFolder(d: Folders, folder: string, errorCount: nat) returns (block: FolderBlock)
    ensures block == BlockOf(d, (folder, errorCount))
  {
    var sortedFiles := SortByCountDesc(Get(d, folder, []));
    var lines: seq<FileLine> := [];
    for j := 0 to |sortedFiles|
      invariant lines == FileLines(sortedFiles[..j])
    {
      assert sortedFiles[..j + 1][..j] == sortedFiles[..j];
      lines := lines + [FileLine(Basename(sortedFiles[j].0), sortedFiles[j].1)];
    }
    assert sortedFiles[..|sortedFiles|] == sortedFiles;
    block := FolderBlock(ShortName(folder), errorCount, lines);
  }

  /** `display_sorted_results`: what it lists, in the order it lists it. */
  method DisplaySortedResults(d: Folders) returns (listing: Listing)
    ensures listing == Display(d)
  {
    if d == [] {
      return NoIssues;
    }
    var folderErrors := FolderTotals(d);
    var sortedFolders := SortByCountDesc(folderErrors);
    var blocks: seq<FolderBlock> := [];
    for i := 0 to |sortedFolders|
      invariant blocks == Blocks(d, sortedFolders[..i])
    {
      assert sortedFolders[..i + 1][..i] == sortedFolders[..i];
      var block := ListFolder(d, sortedFolders[i].0, sortedFolders[i].1);
      blocks := blocks + [block];
    }
    assert sortedFolders[..|sortedFolders|] == sortedFolders;
    listing := Listing(blocks);
  }

  // ---------------------------------------------------------------------------
  // What the listing shows

  lemma {:induction false} BlocksItems(d: Folders, sorted: seq<(string, nat)>)
    ensures |Blocks(d, sorted)| == |sorted|
    ensures forall i :: 0 <= i < |sorted| ==> Blocks(d, sorted)[i] == BlockOf(d, sorted[i])
  {
    if sorted != [] {
      var init := sorted[..|sorted| - 1];
      var prev := Blocks(d, init);
      BlocksItems(d, init);
      assert Blocks(d, sorted) == prev + [BlockOf(d, sorted[|sorted| - 1])];
      forall i | 0 <= i < |init| ensures prev[i] == BlockOf(d, sorted[i]) {
        assert init[i] == sorted[i];
      }
    }
  }

  lemma {:induction false} FileLinesItems(sorted: seq<(string, nat)>)
    ensures |FileLines(sorted)| == |sorted|
    ensures forall i :: 0 <= i < |sorted| ==> FileLines(sorted)[i] == FileLine(Basename(sorted[i].0), sorted[i].1)
  {
    if sorted != [] {
      var prev := FileLines(sorted[..|sorted| - 1]);
      FileLinesItems(sorted[..|sorted| - 1]);
      forall i | 0 <= i < |sorted|
        ensures (prev + [FileLine(Basename(sorted[|sorted| - 1].0), sorted[|sorted| - 1].1)])[i]
                == FileLine(Basename(sorted[i].0), sorted[i].1)
      {
        if i < |prev| {
          assert sorted[..|sorted| - 1][i] == sorted[i];
        }
      }
    }
  }

  /** The counts of a listing's file lines, added up. */
  function LinesTotal(ls: seq<FileLine>): nat {
    if ls == [] then 0 else LinesTotal(ls[..|ls| - 1]) + ls[|ls| - 1].count
  }

  lemma {:induction false} FileLinesTotal(sorted: seq<(string, nat)>)
    ensures LinesTotal(FileLines(sorted)) == Total(sorted)
  {
    if sorted != [] {
      var prev := FileLines(sorted[..|sorted| - 1]);
      var line := FileLine(Basename(sorted[|sorted| - 1].0), sorted[|sorted| - 1].1);
      FileLinesTotal(sorted[..|sorted| - 1]);
      TotalLast(sorted);
      assert (prev + [line])[..|prev + [line]| - 1] == prev;
    }
  }

  /** The issues of a listing's folder headings, added up. */
  function BlocksTotal(bs: seq<FolderBlock>): nat {
    if bs == [] then 0 else BlocksTotal(bs[..|bs| - 1]) + bs[|bs| - 1].total
  }

  lemma {:induction false} BlocksTotalOf(d: Folders, sorted: seq<(string, nat)>)
    ensures BlocksTotal(Blocks(d, sorted)) == Total(sorted)
  {
    if sorted != [] {
      var prev := Blocks(d, sorted[..|sorted| - 1]);
      var block := BlockOf(d, sorted[|sorted| - 1]);
      BlocksTotalOf(d, sorted[..|sorted| - 1]);
      TotalLast(sorted);
      assert (prev + [block])[..|prev + [block]| - 1] == prev;
    }
  }

  /** An item of the sorted folder totals is a folder of the mapping with its own total. */
  lemma {:induction false} SortedFolderItem(d: Folders, item: (string, nat))
    requires FoldersTidy(d) && item in SortByCountDesc(MapValues(d, Total))
    ensures item.0 in Keys(d) && item.1 == Total(Get(d, item.0, [])) && item.1 >= 1
  {
    var m := MapValues(d, Total);
    SortedItems(m);
    MapValuesItems(d, Total);
    var t :| 0 <= t < |m| && m[t] == item;
    GetPresent(d, t, []);
    assert d[t] in d;
    assert d[t].1[0] in d[t].1;
    TotalItem(d[t].1, d[t].1[0]);
  }

  /** Unless the mapping is empty, the listing has one heading per folder, by
      non-increasing total. */
  lemma {:induction false} FoldersListed(d: Folders)
    requires Distinct(d) && d != []
    ensures Display(d).Listing?
    ensures var bs := Display(d).folders;
            && |bs| == |d|
            && (forall i, j :: 0 <= i < j < |bs| ==> bs[i].total >= bs[j].total)
  {
    var m := MapValues(d, Total);
    MapValuesItems(d, Total);
    BlocksItems(d, SortByCountDesc(m));
    SortedItems(m);
    SortByCountDescSpec(m);
  }

  /** The folders in the order their headings are listed. */
  function ListedFolders(d: Folders): seq<string> {
    Keys(SortByCountDesc(MapValues(d, Total)))
  }

  /** The folder totals of a mapping without repeated folders repeat no folder either. */
  lemma FolderTotalsDistinct(d: Folders)
    requires Distinct(d)
    ensures Distinct(MapValues(d, Total))
  {
    var m := MapValues(d, Total);
    MapValuesItems(d, Total);
    forall i, j | 0 <= i < j < |m| ensures m[i].0 != m[j].0 {
      assert m[i].0 == d[i].0 && m[j].0 == d[j].0;
    }
  }

  /** The i-th sorted total is that of the i-th listed folder, a folder of the mapping. */
  lemma {:induction false} ListedFolderItems(d: Folders)
    requires FoldersTidy(d)
    ensures var sorted := SortByCountDesc(MapValues(d, Total));
            var order := ListedFolders(d);
            && |order| == |sorted|
            && forall i :: 0 <= i < |sorted| ==>
                 sorted[i] == (order[i], Total(Get(d, order[i], []))) && order[i] in Keys(d)
  {
    var sorted := SortByCountDesc(MapValues(d, Total));
    var order := ListedFolders(d);
    forall i | 0 <= i < |sorted|
      ensures sorted[i] == (order[i], Total(Get(d, order[i], []))) && order[i] in Keys(d)
    {
      assert sorted[i] in sorted;
      SortedFolderItem(d, sorted[i]);
    }
  }

  /** Every folder of the mapping is among the listed folders. */
  lemma {:induction false} FoldersAllListed(d: Folders)
    requires FoldersTidy(d)
    ensures forall f :: f in Keys(d) ==> f in ListedFolders(d)
  {
    var m := MapValues(d, Total);
    var sorted := SortByCountDesc(m);
    var order := ListedFolders(d);
    MapValuesItems(d, Total);
    SortedItems(m);
    forall f | f in Keys(d) ensures f in order {
      var t :| 0 <= t < |d| && Keys(d)[t] == f;
      assert m[t] in m;
      var i :| 0 <= i < |sorted| && sorted[i] == m[t];
      assert order[i] == f;
    }
  }

  /** Every folder of the mapping gets exactly one heading, and each heading is its
      folder's block with the folder's total. */
  lemma {:induction false} FoldersOnce(d: Folders)
    requires FoldersTidy(d) && d != []
    ensures var bs := Display(d).folders;
            var order := ListedFolders(d);
            && |order| == |bs|
            && (forall i :: 0 <= i < |bs| ==> bs[i] == BlockOf(d, (order[i], Total(Get(d, order[i], [])))))
            && (forall i, j :: 0 <= i < j < |order| ==> order[i] != order[j])
            && (forall f :: f in Keys(d) <==> f in order)
  {
    var m := MapValues(d, Total);
    var sorted := SortByCountDesc(m);
    var order := ListedFolders(d);
    FolderTotalsDistinct(d);
    SortedDistinct(m);
    ListedFolderItems(d);
    FoldersAllListed(d);
    BlocksItems(d, sorted);
  }

  /** b is the heading of a folder of the mapping, with the sum of the folder's counts,
      which is at least 1. */
  predicate IsHeading(d: Folders, b: FolderBlock) {
    b.total >= 1 && exists f :: f in Keys(d) && b == BlockOf(d, (f, Total(Get(d, f, []))))
  }

  /** Every heading of the listing is that of a folder of the mapping. */
  lemma {:induction false} FolderHeadings(d: Folders)
    requires FoldersTidy(d) && d != []
    ensures forall b :: b in Display(d).folders ==> IsHeading(d, b)
  {
    var sorted := SortByCountDesc(MapValues(d, Total));
    BlocksItems(d, sorted);
    var bs := Blocks(d, sorted);
    forall b | b in bs ensures IsHeading(d, b) {
      var i :| 0 <= i < |bs| && bs[i] == b;
      SortedFolderItem(d, sorted[i]);
      var f := sorted[i].0;
      assert b == BlockOf(d, (f, Total(Get(d, f, []))));
    }
  }

  /** A folder's files are listed one line per file, by non-increasing count, and their
      counts add up to the folder's total. */
  lemma {:induction false} BlockAddsUp(d: Folders, folder: string)
    ensures var b := BlockOf(d, (folder, Total(Get(d, folder, []))));
            && |b.files| == |Get(d, folder, [])|
            && LinesTotal(b.files) == b.total
            && (forall i, j :: 0 <= i < j < |b.files| ==> b.files[i].count >= b.files[j].count)
  {
    var files := Get(d, folder, []);
    var sorted := SortByCountDesc(files);
    FileLinesTotal(sorted);
    SortTotal(files);
    FileLinesItems(sorted);
    SortByCountDescSpec(files);
    SortedItems(files);
  }

  /** Each line of a folder's block is the base name and the count of one of its files. */
  lemma {:induction false} BlockFiles(d: Folders, folder: string, errorCount: nat)
    ensures var b := BlockOf(d, (folder, errorCount));
            forall i :: 0 <= i < |b.files| ==>
              exists y :: y in Get(d, folder, []) && b.files[i] == FileLine(Basename(y.0), y.1)
  {
    var files := Get(d, folder, []);
    var sorted := SortByCountDesc(files);
    FileLinesItems(sorted);
    SortedItems(files);
    forall i | 0 <= i < |sorted| ensures exists y :: y in files && FileLines(sorted)[i] == FileLine(Basename(y.0), y.1) {
      assert sorted[i] in files;
    }
  }

  /** The headings of the listing of a report add up to the number of its matching lines. */
  lemma {:induction false} ListingTotal(lines: seq<string>)
    ensures Display(Tally(lines)).NoIssues? <==> Hits(lines) == []
    ensures Display(Tally(lines)).Listing? ==> BlocksTotal(Display(Tally(lines)).folders) == |Hits(lines)|
  {
    var d := Tally(lines);
    CountPathsEmpty(Hits(lines));
    CountPathsTotal(Hits(lines));
    CountPathsTidy(Hits(lines));
    if d != [] {
      var m := MapValues(d, Total);
      BlocksTotalOf(d, SortByCountDesc(m));
      SortTotal(m);
      MapValuesTotal(d, Total);
    }
  }
}
