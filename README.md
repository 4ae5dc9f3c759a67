# ESLint report scripts of the site generator, in Dafny

This project models the Python helper scripts that the site generator uses to
analyse and fix the linter's (ESLint's) findings in its TypeScript sources:

- `scripts/fix_eslint_issues.py` walks a directory. For every `.ts`/`.tsx` file it
  rewrites seventeen `any` patterns to `unknown` or `Record<string, unknown>`, marking
  some properties optional (`?:`) on the way. It then runs the linter on the file
  and puts an underscore in front of each variable reported as unused, at the reported
  line and column, when the name stands alone there.
- `scripts/analyze_eslint.py` reads the linter's JSON report. It counts the messages
  per rule, per file and per directory, and lists directories and files by
  non-increasing count, with the top five rules of each file and the top ten overall.
- `analyze_eslint.py` (at the repository root) reads the linter's text report line by
  line and keeps the lines of the form `<path>: line N, col N, Error|Warning - ...`.
  It counts them per file under the file's folder and lists folders and files by
  non-increasing count.
- `scripts/fix_all_unused_vars.py` takes the linter's unused-variable messages, reads
  each name from between the first two quotes, and groups the names by file. It
  rewrites the declarations of every name with nine regular expressions and writes
  back only the files whose text changed.
- `scripts/fix_any_types.py` lists the linter's `no-explicit-any` messages. It then
  rewrites every `.ts` file with eight substitutions, each run only when its pattern
  is found, and writes and reports the files where one of them matched.

The model is built from these modules:

- `Wrappers`: `Option` and `Result`.
- `Text`: Python's string predicates, `strip`, `readlines`/`writelines` and
  `os.path.basename`/`dirname`.
- `Dicts`: Python dictionaries as insertion-ordered association lists.
- `Sorting`: the stable `sorted(..., key=count, reverse=True)` and the `[:n]` slice.
- `Patterns`: a backtracking matcher for the regular-expression shapes the scripts
  use, plus `re.sub`/`re.subn` and `re.search` over it.
- `LintReport`: the linter's JSON report after `json.loads`.
- One module per script.

Where a script mutates a list or dictionary step by step, the model is a method with a
loop. That method is proved equal to a specification function, and the properties of
that function are proved as lemmas. The one loop that edits a list in place
(`fix_unused_vars` over the file's lines) works on an `array<string>`.

The subprocess calls, the file system and the console are not executed:

- The linter's output is a parameter: `None` when it is not valid JSON.
- Report files are given as their text: `None` when they are missing.
- A directory walk is the sequence of files it meets.
- The files that exist are a map from path to text.

The patterns and checks themselves are plain definitions, read against the scripts
line by line; the lemmas in the table below state what they do:

- `FixEslintIssues.AnyRules` is the list of seventeen substitutions of
  `scripts/fix_eslint_issues.py:65-97`, in that order.
- `FixEslintIssues.Fixable` is the checks of `scripts/fix_eslint_issues.py:163-186`: the
  skips of lines 163-169, then the column, the text at the column and the standalone
  test. `FixEslintIssues.Standalone` is that test (lines 182-186), with the precedence
  of line 183 as written.
- `FixAllUnusedVars.QuotedName` is `message.split("'")[1] if "'" in message else ''` of
  `scripts/fix_all_unused_vars.py:37`.
- `FixAllUnusedVars.UnusedRules` is the list of nine patterns of
  `scripts/fix_all_unused_vars.py:78-96`, in that order. Its first pattern (line 80) is
  `FixAllUnusedVars.DeclarationRule`.
- `FixAnyTypes.AnyTypeRule` is the k-th of the eight substitutions of
  `scripts/fix_any_types.py:63-109`, and `FixAnyTypes.AnyTypeRules` lists them in order.

## Model

| member | source | states |
|---|---|---|
| Text.Strip | analyze_eslint.py:40 | `line.strip()` is one contiguous slice of the line, and it neither starts nor ends with whitespace |
| Text.ReadLinesJoin | scripts/fix_eslint_issues.py:157-158 | the lines `readlines` gives, written back with `writelines`, are the text that was read |
| Text.ReadLinesShape | scripts/fix_eslint_issues.py:157-158 | every line is non-empty, every line but the last ends with a newline, and no line has a newline before its end |
| Text.PySliceShape | scripts/fix_eslint_issues.py:180 | `line[a:b]` has the clamped length and the characters of the line from a on |
| Text.JoinReplace | scripts/fix_eslint_issues.py:191 | replacing one line changes the length and every character count of the written text by the difference |
| Text.BasenameShape | scripts/analyze_eslint.py:64 | `os.path.basename` is the end of the path after its last `/` and holds no `/` |
| Text.DirnameShape | scripts/analyze_eslint.py:63 | `os.path.dirname` is a beginning of the path, and empty for a path without `/` |
| Text.ContainsWithin | scripts/fix_any_types.py:82-91 | containment is transitive: the step by which "no `<any>` is left" gives "no `Array<any>` and no `Promise<any>` is left" in `FixAnyTypes.NoAnyTypeArgument` |
| Dicts.PutKeys | scripts/analyze_eslint.py:75-76 | `d[k] = v` keeps the keys' order and appends a new key at the end |
| Dicts.PutHas | scripts/analyze_eslint.py:76 | after `d[k] = v`, the item (k, v) is in the dictionary |
| Dicts.GetPut | scripts/analyze_eslint.py:70 | after `d[k] = v`, reading k gives v and reading any other key gives what it gave before |
| Dicts.DistinctPut | scripts/analyze_eslint.py:76 | assigning a key never duplicates a key |
| Dicts.TotalPut | scripts/analyze_eslint.py:70-71 | assigning a count replaces the old count (0 if absent) in the sum of the values |
| Dicts.UpdateTotal | scripts/analyze_eslint.py:75-76 | writing counts over a dictionary raises its sum by at most the sum written |
| Dicts.MapValuesItems | scripts/analyze_eslint.py:86-89 | a dictionary built by `r[k] = f(v)` over `d.items()` has d's keys in d's order, each with its mapped value |
| Dicts.MapValuesTotal | analyze_eslint.py:68-70 | summing the mapped values is summing the weights of the original values |
| Sorting.SortByCountDescSpec | scripts/analyze_eslint.py:91 | the stable sort by descending count is non-increasing, is a permutation of its input, and keeps the input order among equal counts |
| Sorting.SortedItems | analyze_eslint.py:73 | sorting neither adds nor drops an item |
| Sorting.SortTotal | scripts/analyze_eslint.py:101 | sorting keeps the sum of the counts |
| Sorting.SortedDistinct | scripts/analyze_eslint.py:91 | sorting a dictionary's items never repeats a key |
| Sorting.TopCountsMost | scripts/analyze_eslint.py:109-110 | the first n sorted items are items, and each counts at least as much as any item not among them |
| Patterns.MatchAt | scripts/fix_any_types.py:64-65 | the match found at i is a trace: each atom ends at one of the places where it can match, starting at i and no shorter than the pattern's minimum |
| Patterns.TryEndsFirst | scripts/fix_all_unused_vars.py:84 | backtracking takes the first end of the first atom at which the rest of the pattern matches; the ends tried before it all fail |
| Patterns.RunBetweenLiterals | scripts/fix_eslint_issues.py:146 | in a match of literal, run and literal, the middle is a non-empty run of the class and the match is the three parts |
| Patterns.FindFrom | scripts/fix_any_types.py:65 | `re.search` returns the leftmost position from i where the pattern matches; no earlier position matches; none means no position matches |
| Patterns.SubCountsIffFound | scripts/fix_eslint_issues.py:104 | `re.subn` reports a replacement exactly when `re.search` finds the pattern |
| Patterns.SubFrom | scripts/fix_eslint_issues.py:104 | a substitution that counts no replacement returns the text unchanged |
| Patterns.ApplyRules | scripts/fix_eslint_issues.py:103-106 | substitutions chained over the text leave it unchanged when their total count is 0 |
| AnalyzeJson.BumpAllCounts | scripts/analyze_eslint.py:68-71 | after `d[rule] += 1` for each message, every rule's count grew by the number of its messages |
| AnalyzeJson.UnknownRule | scripts/analyze_eslint.py:69-70 | a message without `ruleId` is counted under 'unknown'; a null `ruleId` is not |
| AnalyzeJson.BumpAllTotal | scripts/analyze_eslint.py:68-72 | each message adds exactly one to the sum of the counts |
| AnalyzeJson.BumpAllCounted | scripts/analyze_eslint.py:67-70 | every stored count is at least 1, and a file with messages has at least one rule |
| AnalyzeJson.UpdateCounted | scripts/analyze_eslint.py:75-76 | writing counts of at least 1 keeps every stored count at least 1 |
| AnalyzeJson.StoreTidy | scripts/analyze_eslint.py:75-76 | storing a file's non-empty counts keeps every directory and file non-empty |
| AnalyzeJson.StoreTotal | scripts/analyze_eslint.py:75-76 | storing a file's counts changes the mapping's sum by the difference between its new and old counts |
| AnalyzeJson.StorePlaces | scripts/analyze_eslint.py:76 | after the store, a (directory, file) pair has an entry iff it had one or is the stored pair |
| AnalyzeJson.UnplacedEmpty | scripts/analyze_eslint.py:53 | a pair without an entry reads as no rules, as the nested `defaultdict` gives |
| AnalyzeJson.ParseFailureStays | scripts/analyze_eslint.py:57-61 | once a file result has failed, the whole parse fails the same way |
| AnalyzeJson.ParseFails | scripts/analyze_eslint.py:57-61 | the parse fails (a `KeyError` on `filePath`) iff some file result has messages but no path |
| AnalyzeJson.ParseCounts | scripts/analyze_eslint.py:54-72 | `total_issues` is the number of messages in the report, the sum of `rule_counts`, and each rule's count is the number of its messages |
| AnalyzeJson.ParseTidy | scripts/analyze_eslint.py:57-76 | every stored file has a rule, every stored count and every rule count is at least 1 |
| AnalyzeJson.ParsePlaces | scripts/analyze_eslint.py:58-64 | a (directory, base name) pair has an entry iff some file result with messages has that directory and base name |
| AnalyzeJson.ParseBounded | scripts/analyze_eslint.py:75-76 | the mapping never holds more issues than `total_issues` (repeated places are overwritten rule by rule) |
| AnalyzeJson.ParseExact | scripts/analyze_eslint.py:53-78 | when no two file results share a place, the sum over the mapping is `total_issues`: no message is lost |
| AnalyzeJson.ParseFileRules | scripts/analyze_eslint.py:57-76 | when no two file results share a place, each file result with messages is stored under its own directory and base name with exactly its own counts by rule, which add up to its number of messages |
| AnalyzeJson.ParseReport | scripts/analyze_eslint.py:42-78 | an unreadable report fails; otherwise the result is the parse of the report, as the loop over the file results builds it |
| AnalyzeJson.CountFile | scripts/analyze_eslint.py:61-76 | the loop body for one file result updates the mapping, the rule counts and the total as `Count` specifies |
| AnalyzeJson.DirectoryTotals | scripts/analyze_eslint.py:86-89 | `dir_totals` maps every directory, in the mapping's order, to the sum of its files' counts |
| AnalyzeJson.ListFiles | scripts/analyze_eslint.py:99-114 | one directory's block lists its files by the sorted file totals, each with its top five rules and the number not shown |
| AnalyzeJson.DisplayAnalysis | scripts/analyze_eslint.py:86-123 | the listing is the directories by sorted total, each with its files, plus the top ten rules overall |
| AnalyzeJson.DirectoriesListed | scripts/analyze_eslint.py:91-96 | one entry per directory, by non-increasing total; each is a directory of the mapping with the sum of its files' counts, at least 1 |
| AnalyzeJson.DirectoriesComplete | scripts/analyze_eslint.py:94 | no directory of the mapping is left out of the listing |
| AnalyzeJson.BlockAddsUp | scripts/analyze_eslint.py:99-105 | a directory's files are listed by non-increasing count, and their counts add up to the directory's total |
| AnalyzeJson.FileLineShows | scripts/analyze_eslint.py:108-114 | a file shows at most five rules, the most frequent; the "more rule types" count is shown iff there are more than five, and shown plus hidden is all its rules |
| AnalyzeJson.TopRulesShown | scripts/analyze_eslint.py:120-123 | the overall list shows min(10, rules) rules, the most frequent, each with a count between 1 and `total_issues` |
| AnalyzeJson.Denominators | scripts/analyze_eslint.py:95-104 | after a parse, a listed file has between 1 and its directory's issues, and a directory at most `total_issues`: the percentages never divide by zero |
| AnalyzeJson.SortedDirItem | scripts/analyze_eslint.py:91 | each item of the sorted directory totals is a directory of the mapping with its own total, at least 1 |
| AnalyzeText.LazyFromFirst | analyze_eslint.py:35 | the lazy `(.+?)` stops at the first length without a newline after which the tail matches; no shorter length qualifies |
| AnalyzeText.MatchLineFound | analyze_eslint.py:35-43 | a match's path is a non-empty beginning of the line, the shortest after which the tail matches, and the severity is what the tail matched |
| AnalyzeText.MatchLineNone | analyze_eslint.py:40-41 | a line fails to match iff no length of path would do |
| AnalyzeText.TailOfReportLine | analyze_eslint.py:35 | the tail `:\s+line\s+\d+,\s+col\s+\d+,\s+(Error\|Warning)\s+-` matches after a report line's path, with the line's severity |
| AnalyzeText.TailAtColon | analyze_eslint.py:35 | the tail matches only at a colon |
| AnalyzeText.ReportLineParsed | analyze_eslint.py:39-43 | a report line whose path has no colon, read with its newline and stripped, gives back its path and severity |
| AnalyzeText.PathBeforeTail | analyze_eslint.py:35-42 | a line that begins with a colon-free path followed by a matching tail yields exactly that path |
| AnalyzeText.StripNewline | analyze_eslint.py:40 | stripping a line that starts and ends with visible characters removes only its newline |
| AnalyzeText.CountPathsCounts | analyze_eslint.py:46-49 | each file is counted exactly as often as it was matched, under its own folder, and nowhere else |
| AnalyzeText.CountPathsTotal | analyze_eslint.py:49 | the counts add up to the number of matched lines |
| AnalyzeText.HitTidy | analyze_eslint.py:49 | one count keeps every folder non-empty, every count at least 1, no key repeated and every file under its own folder |
| AnalyzeText.CountPathsTidy | analyze_eslint.py:32-49 | the mapping built from the matched paths is tidy in that sense |
| AnalyzeText.CountPathsEmpty | analyze_eslint.py:63-65 | the mapping is empty iff no line matched |
| AnalyzeText.CountLine | analyze_eslint.py:40-49 | a matching line counts its path once more; any other line leaves the mapping as it was |
| AnalyzeText.ParseReport | analyze_eslint.py:16-54 | a missing report gives the empty mapping; otherwise the mapping is the count of the matched paths of its lines |
| AnalyzeText.FolderTotals | analyze_eslint.py:68-70 | `folder_errors` maps every folder, in order, to the sum of its files' counts |
| AnalyzeText.ListFolder | analyze_eslint.py:78-91 | one folder's block is its short name, its total and its files sorted by count |
| AnalyzeText.ShortNameShape | analyze_eslint.py:80 | the folder shown is an end of its path, non-empty for a non-empty folder, and without `/` unless it is the whole folder |
| AnalyzeText.DisplaySortedResults | analyze_eslint.py:56-91 | an empty mapping prints the no-issues message; otherwise the folders are listed by sorted total |
| AnalyzeText.FoldersListed | analyze_eslint.py:73-78 | a non-empty mapping lists one heading per folder, by non-increasing total |
| AnalyzeText.FoldersOnce | analyze_eslint.py:67-83 | every folder of a non-empty mapping gets exactly one heading (the listed folders are distinct and are exactly the mapping's folders), and each heading is its folder's block with the folder's total |
| AnalyzeText.FolderHeadings | analyze_eslint.py:78-83 | every heading is a folder of the mapping with the sum of its counts, at least 1 |
| AnalyzeText.BlockAddsUp | analyze_eslint.py:86-91 | a folder's files are listed once each, by non-increasing count, and their counts add up to its total |
| AnalyzeText.BlockFiles | analyze_eslint.py:88-91 | each file line is the base name and the count of one of the folder's files |
| AnalyzeText.ListingTotal | analyze_eslint.py:16-91 | a report lists nothing iff none of its lines matched, and otherwise the headings add up to the number of matching lines |
| FixEslintIssues.SubstituteAll | scripts/fix_eslint_issues.py:100-106 | the substitution loop yields the chained text and the sum of the `re.subn` counts |
| FixEslintIssues.FixNoExplicitAny | scripts/fix_eslint_issues.py:65-114 | `fix_no_explicit_any` gives the seventeen substitutions chained in order, and the number of replacements |
| FixEslintIssues.AnyHitHoldsLit | scripts/fix_eslint_issues.py:65-114 | every match of each of the seventeen patterns covers a plain-text part of the pattern that holds `any` |
| FixEslintIssues.NoAnyNoFix | scripts/fix_eslint_issues.py:100-106 | in a text without `any`, each of the seventeen `re.subn` calls returns the text unchanged with count 0 |
| FixEslintIssues.NoAnyUnchanged | scripts/fix_eslint_issues.py:100-106 | the substitutions chained over a text without `any` leave it unchanged and count no fix |
| FixEslintIssues.AnyRewriteIdempotent | scripts/fix_eslint_issues.py:65-114 | a second `fix_no_explicit_any` on the first one's output changes nothing and counts no fix, whenever the first left no `any` |
| FixEslintIssues.NameAtIsHit | scripts/fix_eslint_issues.py:146 | `'(\w+)' is defined but never used` matches at i iff the hand-written reading finds a name there, and group 1 is that name |
| FixEslintIssues.NameInIsSearch | scripts/fix_eslint_issues.py:146-148 | the name read from a message is group 1 of `re.search`'s leftmost match, and there is one iff the search succeeds |
| FixEslintIssues.NameInShape | scripts/fix_eslint_issues.py:146-148 | a name found is a word, quoted in the text and followed by the rest of the sentence |
| FixEslintIssues.EntryOfReports | scripts/fix_eslint_issues.py:143-151 | a message contributes at most one entry, exactly the one it reports |
| FixEslintIssues.ListedIsReported | scripts/fix_eslint_issues.py:139-151 | every extracted entry is reported by one of the messages |
| FixEslintIssues.ReportedIsListed | scripts/fix_eslint_issues.py:139-151 | every entry a message reports is extracted |
| FixEslintIssues.UnusedVarsOfAll | scripts/fix_eslint_issues.py:139-151 | collecting file by file gives the entries of all the report's messages, in order |
| FixEslintIssues.ExtractUnusedVars | scripts/fix_eslint_issues.py:138-151 | the extraction loop builds the entries of the report, in order |
| FixEslintIssues.UnderscoredShape | scripts/fix_eslint_issues.py:190 | `line[:p] + '_' + line[p:]` adds one character, an underscore at p, and removing it gives the line back |
| FixEslintIssues.UnderscoreBeforeName | scripts/fix_eslint_issues.py:190 | the inserted underscore sits right before the name |
| FixEslintIssues.FixableFindsName | scripts/fix_eslint_issues.py:178-180 | when the checks pass, the name occurs in the line at the column |
| FixEslintIssues.SkippedEntries | scripts/fix_eslint_issues.py:163-169 | an entry whose name starts with `_`, or whose line is outside the file, changes nothing |
| FixEslintIssues.FixOneEffect | scripts/fix_eslint_issues.py:162-192 | a fix inserts an underscore right before the name at its column and changes no other line |
| FixEslintIssues.FixOneGrowth | scripts/fix_eslint_issues.py:162-192 | a fix adds exactly one character, an underscore, to the text; a skipped entry adds nothing |
| FixEslintIssues.FixAllGrowth | scripts/fix_eslint_issues.py:161-192 | the number of fixes is the number of characters added, all of them underscores; no fix leaves the lines as read |
| FixEslintIssues.FixUnusedAt | scripts/fix_eslint_issues.py:161-192 | the in-place loop over the lines leaves them as the fold of the entries specifies, and returns the fold's count |
| FixEslintIssues.FixEntry | scripts/fix_eslint_issues.py:163-192 | one entry is fixed iff all its checks pass against the current lines, and then only its line changes |
| FixEslintIssues.FixLines | scripts/fix_eslint_issues.py:158-192 | the lines held in a mutable list are fixed as the fold specifies |
| FixEslintIssues.UnusedFixGrowth | scripts/fix_eslint_issues.py:116-200 | the file grows by one underscore per fix and is unchanged when the count is 0 |
| FixEslintIssues.FixUnusedVars | scripts/fix_eslint_issues.py:116-200 | `fix_unused_vars`: a non-JSON or empty report, or no entry, gives 0 fixes; otherwise the fixed text and the count |
| FixEslintIssues.ColumnsNotAdjusted | scripts/fix_eslint_issues.py:162-192 | columns are not shifted after an insertion: on `ab cd`, both names can be fixed on the text as read, yet only one fix is made and `cd` is left as it was |
| FixEslintIssues.SampleFirstFixable | scripts/fix_eslint_issues.py:178-188 | a standalone name at its column passes every check |
| FixEslintIssues.SampleSecondStale | scripts/fix_eslint_issues.py:180 | after an underscore was inserted earlier on the line, the stale column no longer holds the name |
| FixEslintIssues.ColumnOneReadsLineEnd | scripts/fix_eslint_issues.py:183 | at column 1 the left-hand check reads the line's last character, so a line ending in `_` is never fixed there |
| FixEslintIssues.DeclarationFilesAreTs | scripts/fix_eslint_issues.py:212 | the `.d.ts` test adds nothing to the `.ts` test |
| FixEslintIssues.FixFileKeeps | scripts/fix_eslint_issues.py:213-215 | a file keeps its directory and name, and its text when neither step fixed anything |
| FixEslintIssues.FixTypeScriptFile | scripts/fix_eslint_issues.py:213-215 | one file gets the `any` rewrite, then the unused-variable fix with the linter seeing the rewritten text |
| FixEslintIssues.WalkKeepsNames | scripts/fix_eslint_issues.py:210-215 | every file keeps its place and name through the walk |
| FixEslintIssues.WalkSkipsOthers | scripts/fix_eslint_issues.py:212 | files that are not TypeScript come out of the walk unchanged |
| FixEslintIssues.WalkWithoutFixes | scripts/fix_eslint_issues.py:207-217 | a walk that reports no fix of either kind leaves every file as it was |
| FixEslintIssues.WalkFiles | scripts/fix_eslint_issues.py:207-217 | the loop over the walk builds the files afterwards and both fix counts as `Walk` specifies |
| FixEslintIssues.ProcessDirectory | scripts/fix_eslint_issues.py:202-217 | `process_directory` is the walk with the seventeen `any` substitutions |
| FixAllUnusedVars.QuotedNameShape | scripts/fix_all_unused_vars.py:37 | `split("'")[1]` is the text after the first quote up to the next quote or the end, and holds no quote |
| FixAllUnusedVars.QuotedNameNone | scripts/fix_all_unused_vars.py:37 | a message without a quote gives the empty name |
| FixAllUnusedVars.IssuesInHas | scripts/fix_all_unused_vars.py:35-44 | an issue is listed for a file result iff one of its messages gives it |
| FixAllUnusedVars.ReportedListed | scripts/fix_all_unused_vars.py:32-44 | every unused-variable message with a non-empty name has its issue listed |
| FixAllUnusedVars.ListedReported | scripts/fix_all_unused_vars.py:32-44 | every listed issue comes from a message that gives it |
| FixAllUnusedVars.IssuesOfReported | scripts/fix_all_unused_vars.py:31-46 | an issue is listed iff some unused-variable message with a quoted name gives it |
| FixAllUnusedVars.GetEslintIssues | scripts/fix_all_unused_vars.py:25-46 | output that is not JSON gives no issues; otherwise the loop lists the issues of the report in order |
| FixAllUnusedVars.GroupVariables | scripts/fix_all_unused_vars.py:53-58 | each file's list holds exactly its issues' names, in order, repeats included |
| FixAllUnusedVars.GroupKeys | scripts/fix_all_unused_vars.py:53-58 | the files are grouped in order of first occurrence, none twice |
| FixAllUnusedVars.GroupSizes | scripts/fix_all_unused_vars.py:53-58 | every issue's name lands in exactly one list: the lists' lengths add up to the number of issues |
| FixAllUnusedVars.GroupIssues | scripts/fix_all_unused_vars.py:53-58 | the grouping loop builds `issues_by_file` as `GroupByFile` specifies |
| FixAllUnusedVars.UnderscoreInserted | scripts/fix_all_unused_vars.py:78-96 | every one of the nine rewrites replaces its match by the same text with an underscore before the name; the two keyword patterns also turn the blanks after the keyword into one space |
| FixAllUnusedVars.NameGroup | scripts/fix_all_unused_vars.py:80-95 | group 2 of a match is the name itself, between groups 1 and 3 |
| FixAllUnusedVars.TraceOrdered | scripts/fix_all_unused_vars.py:80-95 | the group boundaries of a match never go backwards |
| FixAllUnusedVars.RenameSkips | scripts/fix_all_unused_vars.py:73-99 | a name whose underscored form already occurs leaves the text alone; a name that changes the text had a pattern replace something |
| FixAllUnusedVars.ConstUnusedTwice | scripts/fix_all_unused_vars.py:73-102 | the worked case: `const unused = 5;` flagged `unused` becomes `const _unused = 5;` and the file is marked modified; on `const _unused = 5;` the name is skipped because `_unused` already occurs, so nothing changes and the file is not marked |
| FixAllUnusedVars.FixFileVarsShape | scripts/fix_all_unused_vars.py:72-104 | the text is the names' rewrites one after the other, and a file not marked modified keeps its text |
| FixAllUnusedVars.FixFileVarsFlag | scripts/fix_all_unused_vars.py:72-104 | `file_modified` holds iff, after some name that was not skipped, the text differed from the text read |
| FixAllUnusedVars.ChangedMarks | scripts/fix_all_unused_vars.py:101-103 | a name that was not skipped and left the text different marks the file modified |
| FixAllUnusedVars.MarkedChanged | scripts/fix_all_unused_vars.py:101-103 | a file marked modified has such a name |
| FixAllUnusedVars.ApplyPatterns | scripts/fix_all_unused_vars.py:98-99 | the pattern loop gives the patterns' substitutions chained in order |
| FixAllUnusedVars.FixFile | scripts/fix_all_unused_vars.py:68-104 | the loop over one file's names gives the text and the flag `FixFileVars` specifies |
| FixAllUnusedVars.FixFilesSpec | scripts/fix_all_unused_vars.py:61-112 | no file is created; a file is written iff it exists, has names and is marked modified, and it then holds its rewritten text; every other file keeps its text |
| FixAllUnusedVars.FixUnusedVars | scripts/fix_all_unused_vars.py:48-112 | `fix_unused_vars` gives the file system and the written set that grouping then the per-file loop specify |
| FixAnyTypes.AnyIssuesInHas | scripts/fix_any_types.py:35-41 | an issue is listed for a file result iff one of its `no-explicit-any` messages gives it |
| FixAnyTypes.GivenListed | scripts/fix_any_types.py:32-41 | every `no-explicit-any` message has its issue listed |
| FixAnyTypes.ListedGiven | scripts/fix_any_types.py:32-41 | every listed issue comes from a `no-explicit-any` message |
| FixAnyTypes.AnyIssuesOfGiven | scripts/fix_any_types.py:31-43 | an issue is listed iff a `no-explicit-any` message gives it |
| FixAnyTypes.GetEslintIssues | scripts/fix_any_types.py:25-43 | output that is not JSON gives no issues; otherwise the loop lists the issues in order |
| Patterns.SearchIffSubstitutes | scripts/fix_any_types.py:65-66 | `pattern.search` succeeds iff `pattern.sub` replaces something; when it fails, the substitution would change nothing |
| FixAnyTypes.FixContentIsChain | scripts/fix_any_types.py:63-109 | guarding each substitution by a search gives the same text as applying all eight unconditionally; the flag holds iff some replacement happened |
| FixAnyTypes.FixContentUnmarked | scripts/fix_any_types.py:112 | a file not marked modified keeps its text |
| FixAnyTypes.FixContentFlag | scripts/fix_any_types.py:63-109 | `file_modified` holds iff some substitution found its pattern in the text left by the earlier ones |
| FixAnyTypes.FoundMarks | scripts/fix_any_types.py:65-67 | a substitution that finds its pattern marks the file modified |
| FixAnyTypes.MarkedFound | scripts/fix_any_types.py:63-109 | a marked file has a substitution that found its pattern at its turn |
| FixAnyTypes.NoneLeft | scripts/fix_any_types.py:100-108 | a substitution with a fixed replacement that matches wherever t occurs, and whose replacement neither holds t nor runs into it, leaves no t behind |
| FixAnyTypes.TypeArgStepClears | scripts/fix_any_types.py:99-103 | the `<any>` step leaves no `<any>` |
| FixAnyTypes.AsAnyKeepsNone | scripts/fix_any_types.py:105-109 | the `as any` step brings no `<any>` back |
| FixAnyTypes.LiteralNotFound | scripts/fix_any_types.py:100-101 | when the search for a plain-text pattern fails, that text does not occur |
| FixAnyTypes.NoAnyTypeArgument | scripts/fix_any_types.py:63-109 | after the eight steps the text contains no `<any>`, so no `Array<any>` and no `Promise<any>` |
| FixAnyTypes.HitHoldsLit | scripts/fix_any_types.py:63-109 | every match of each of the eight patterns covers a plain-text part of the pattern that holds `any` |
| FixAnyTypes.NoAnyNoSearch | scripts/fix_any_types.py:63-109 | in a text without `any`, none of the eight searches finds its pattern |
| FixAnyTypes.NoAnyUntouched | scripts/fix_any_types.py:57-109 | a text without `any` is left unchanged and the file is not marked modified |
| FixAnyTypes.AnyFixIdempotent | scripts/fix_any_types.py:57-109 | a second run on the first run's output changes nothing and marks nothing, whenever the first run left no `any` |
| FixAnyTypes.ColonAnyMatch | scripts/fix_any_types.py:93-97 | `re.sub(r':\s*any\b', ': unknown', 'x: any')` gives `x: unknown` with one replacement |
| FixAnyTypes.ColonAnyTwice | scripts/fix_any_types.py:57-109 | the eight steps turn `x: any` into `x: unknown` and mark the file; run again on `x: unknown` they change nothing and do not mark it |
| FixAnyTypes.FixAnyFilesContents | scripts/fix_any_types.py:50-115 | each file keeps its place, and takes its rewritten text iff it is a `.ts` file that was marked modified |
| FixAnyTypes.FixAnyFilesWritten | scripts/fix_any_types.py:111-115 | a path is reported iff some `.ts` file with that path was marked modified |
| FixAnyTypes.FixText | scripts/fix_any_types.py:57-109 | the eight guarded steps give the text and the flag `FixContent` specifies |
| FixAnyTypes.WalkFiles | scripts/fix_any_types.py:50-115 | the loop over the walk builds the files afterwards and the set written, as `FixAnyFiles` specifies |
| FixAnyTypes.FixAnyTypesWalk | scripts/fix_any_types.py:45-118 | `fix_any_types` is that walk with the eight substitutions of the script |

## Left out

- Running the linter (`subprocess.run`, `os.system`) is not modelled. Its parsed output is a parameter, and `None` stands for output that is not JSON.
- In `fix_eslint_issues.py` the linter's output for a file is a function of the file's path and its text after the `any` rewrite.
- The file system is not modelled as such. A walk is the sequence of files it meets, in walk order. `fix_all_unused_vars` sees the existing files as a map from path to text: `os.path.exists` is membership, reading is lookup and writing is update.
- Console output, colours, percentages (floating point), `sys.exit`, the `main` functions, `generate_eslint_report` and the usage messages are left out. The listings are values that hold what is printed, in the order it is printed.
- `os.path.relpath` depends on the working directory and is not modelled. The analysers use the path as given.
- Character classes (`\s`, `\w`, `\d`, `isalnum`, `isspace`) are the ASCII part of Python's Unicode definitions. Files are read as text already decoded.
- Python's universal-newline reading (`\r\n` and `\r` becoming `\n`) is not modelled. Lines are split after `\n` only.
- The regular-expression matcher covers only the shapes the scripts use, not Python's `re` in general. Python's handling of empty matches in `re.sub` is not modelled: the matcher never reports an empty match, and every pattern of the scripts begins with a non-empty literal or word.
- `issue_type` (group 2 of the text report's pattern) is returned by `AnalyzeText.MatchLine` but not used, as in the script.
- AnalyzeText.ReportLineParsed: the round trip is proved for paths without `:` and without a newline, not for every path. A path holding `: line N, col N, Error -` would be cut short by the lazy group, as in Python.
- AnalyzeJson.ParseBounded: when two file results share a directory and base name, the script overwrites counts rule by rule, so the mapping holds at most `total_issues`. Equality, and each file's own counts, are proved only when the places are distinct (`AnalyzeJson.ParseExact`, `AnalyzeJson.ParseFileRules`).
- The worked ordering example of `fix_any_types` (`Record<string, any[]>` rewritten by the second step before the bare `any[]` step) is not proved as a concrete case. The order is fixed by `FixAnyTypes.AnyTypeRules`, which lists the eight steps in the script's order.
- FixAnyTypes.AnyFixIdempotent: a second run of the eight substitutions is proved to change nothing only when the first run left no `any` in the text (which covers `x: any`, proved in `FixAnyTypes.ColonAnyTwice`). Texts that keep an `any` the patterns do not take (`company`, `any_x`, `: anyOf`) are not covered: that would need a separate argument for each pattern about the word boundaries around the `any` left behind.
- FixEslintIssues.AnyRewriteIdempotent: as for `fix_any_types.py`, a second run of the seventeen substitutions is proved to change nothing only when the first run left no `any` in the text; texts that keep an `any` the patterns do not take are not covered.
- Concurrency and the exception handlers for files that cannot be read or written mid-run are left out. A file that cannot be read is treated like a missing report.
