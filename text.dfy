/**
 * Character classes and the few string operations of Python's `str`,
 * `os.path` and text-mode file reading that the scripts rely on.
 * Character classes are the ASCII part of Python's definitions.
 */
module Text {

  /** `str.isspace()` and the regular-expression class `\s`, restricted to ASCII
      (which includes the four separator controls 0x1C-0x1F). */
  predicate IsSpace(c: char) {
    c == ' ' || c == '\t' || c == '\n' || c == '\r' || c == '\U{000B}' || c == '\U{000C}'
    || ('\U{001C}' <= c <= '\U{001F}')
  }

  /** `str.isdigit()` and `\d`, restricted to ASCII. */
  predicate IsDigit(c: char) {
    '0' <= c <= '9'
  }

  /** `str.isalnum()`, restricted to ASCII. */
  predicate IsAlnum(c: char) {
    ('a' <= c <= 'z') || ('A' <= c <= 'Z') || IsDigit(c)
  }

  /** The regular-expression class `\w`, restricted to ASCII. */
  predicate IsWordChar(c: char) {
    IsAlnum(c) || c == '_'
  }

  /** `t` occurs in `s` starting at index `i`. */
  predicate StartsAt(s: string, t: string, i: nat) {
    i + |t| <= |s| && s[i..i + |t|] == t
  }

  /** Python's `t in s` for strings. */
  predicate Contains(s: string, t: string) {
    exists i: nat :: i + |t| <= |s| && StartsAt(s, t, i)
  }

  /** Python's `s.startswith(t)`. */
  predicate StartsWith(s: string, t: string) {
    StartsAt(s, t, 0)
  }

  /** Python's `s.endswith(t)`. */
  predicate EndsWith(s: string, t: string) {
    |t| <= |s| && s[|s| - |t|..] == t
  }

  lemma {:induction false} ContainsWithin(s: string, t: string, u: string)
    requires Contains(s, t) && Contains(t, u)
    ensures Contains(s, u)
  {
    var i: nat :| i + |t| <= |s| && StartsAt(s, t, i);
    var j: nat :| j + |u| <= |t| && StartsAt(t, u, j);
    forall k | 0 <= k < |u| ensures s[i + j + k] == u[k] {
      assert t[j + k] == u[k];
      assert s[i + j + k] == t[j + k];
    }
    assert s[i + j..i + j + |u|] == u;
    assert StartsAt(s, u, i + j);
  }

  /** The letters `a`, `n`, `y` in a row are an occurrence of `any`. */
  lemma AnyLetters(s: string, i: nat)
    requires i + 3 <= |s| && s[i] == 'a' && s[i + 1] == 'n' && s[i + 2] == 'y'
    ensures Contains(s, "any")
  {
    assert s[i..i + 3] == "any";
    assert StartsAt(s, "any", i);
  }

  /** t does not occur where no place it would fit starts with its first character. */
  lemma NoFirstChar(s: string, t: string)
    requires t != [] && forall j :: 0 <= j && j + |t| <= |s| ==> s[j] != t[0]
    ensures !Contains(s, t)
  {
    forall i: nat | i + |t| <= |s| ensures !StartsAt(s, t, i) {
      assert s[i..i + |t|][0] == s[i];
    }
  }

  /** Python's `s[k]`, where a negative `k` counts from the end. */
  function PyAt(s: string, k: int): char
    requires -|s| <= k < |s|
  {
    if k < 0 then s[|s| + k] else s[k]
  }

  /** Python's `s[a:b]` for `0 <= a`, `0 <= b`: both bounds are clamped to the length. */
  function PySlice(s: string, a: nat, b: nat): string
  {
    var lo := if a <= |s| then a else |s|;
    var hi := if b <= |s| then b else |s|;
    if hi <= lo then [] else s[lo..hi]
  }

  /** The slice is the characters from a up to b or the end, whichever comes first. */
  lemma PySliceShape(s: string, a: nat, b: nat)
    ensures var r := PySlice(s, a, b);
            && |r| == (if b <= a || |s| <= a then 0 else (if b <= |s| then b else |s|) - a)
            && (forall k :: 0 <= k < |r| ==> r[k] == s[a + k])
  {
  }

  /** Number of occurrences of the character `c` in `s`. */
  function CountChar(s: string, c: char): nat
  {
    if s == [] then 0 else (if s[0] == c then 1 else 0) + CountChar(s[1..], c)
  }

  lemma {:induction false} CountCharConcat(a: string, b: string, c: char)
    ensures CountChar(a + b, c) == CountChar(a, c) + CountChar(b, c)
  {
    if a == [] {
      assert a + b == b;
    } else {
      assert (a + b)[1..] == a[1..] + b;
      CountCharConcat(a[1..], b, c);
    }
  }

  // ---------------------------------------------------------------------------
  // str.strip()

  /** The bounds `[a, b)` of `s` that survive `s.strip()`. */
  function StripBounds(s: string): (ab: (nat, nat))
    ensures ab.0 <= ab.1 <= |s|
    ensures forall k :: 0 <= k < ab.0 ==> IsSpace(s[k])
    ensures forall k :: ab.1 <= k < |s| ==> IsSpace(s[k])
    ensures ab.0 < ab.1 ==> !IsSpace(s[ab.0]) && !IsSpace(s[ab.1 - 1])
  {
    var a := LeadingSpaces(s, 0);
    (a, TrailingCut(s, a, |s|))
  }

  function LeadingSpaces(s: string, i: nat): (a: nat)
    requires i <= |s|
    requires forall k :: 0 <= k < i ==> IsSpace(s[k])
    ensures i <= a <= |s|
    ensures forall k :: 0 <= k < a ==> IsSpace(s[k])
    ensures a < |s| ==> !IsSpace(s[a])
    decreases |s| - i
  {
    if i < |s| && IsSpace(s[i]) then LeadingSpaces(s, i + 1) else i
  }

  function TrailingCut(s: string, a: nat, j: nat): (b: nat)
    requires a <= j <= |s|
    requires forall k :: j <= k < |s| ==> IsSpace(s[k])
    ensures a <= b <= j
    ensures forall k :: b <= k < |s| ==> IsSpace(s[k])
    ensures a < b ==> !IsSpace(s[b - 1])
    decreases j
  {
    if a < j && IsSpace(s[j - 1]) then TrailingCut(s, a, j - 1) else j
  }

  /** Python's `s.strip()`: `s` without its leading and trailing whitespace. */
  function Strip(s: string): (r: string)
    ensures r == s[StripBounds(s).0..StripBounds(s).1]
    ensures r == [] || (!IsSpace(r[0]) && !IsSpace(r[|r| - 1]))
  {
    var ab := StripBounds(s);
    s[ab.0..ab.1]
  }

  // ---------------------------------------------------------------------------
  // Reading a text file line by line, and writing the lines back

  /** Concatenation of the lines: what `f.writelines(lines)` writes. */
  function Join(lines: seq<string>): string
  {
    if lines == [] then [] else lines[0] + Join(lines[1..])
  }

  lemma {:induction false} JoinConcat(a: seq<string>, b: seq<string>)
    ensures Join(a + b) == Join(a) + Join(b)
  {
    if a == [] {
      assert a + b == b;
    } else {
      assert (a + b)[1..] == a[1..] + b;
      JoinConcat(a[1..], b);
    }
  }

  /** Replacing line k changes the joined text only there. */
  lemma JoinUpdate(lines: seq<string>, k: nat, x: string)
    requires k < |lines|
    ensures Join(lines) == Join(lines[..k]) + lines[k] + Join(lines[k + 1..])
    ensures Join(lines[k := x]) == Join(lines[..k]) + x + Join(lines[k + 1..])
  {
    assert lines == lines[..k] + ([lines[k]] + lines[k + 1..]);
    JoinConcat(lines[..k], [lines[k]] + lines[k + 1..]);
    assert Join([lines[k]] + lines[k + 1..]) == lines[k] + Join(lines[k + 1..]);
    var u := lines[k := x];
    assert u == lines[..k] + ([x] + lines[k + 1..]);
    JoinConcat(lines[..k], [x] + lines[k + 1..]);
    assert Join([x] + lines[k + 1..]) == x + Join(lines[k + 1..]);
  }

  /** Replacing one line changes the length and the character counts of the joined text by the difference. */
  lemma JoinReplace(lines: seq<string>, k: nat, x: string, c: char)
    requires k < |lines|
    ensures |Join(lines[k := x])| + |lines[k]| == |Join(lines)| + |x|
    ensures CountChar(Join(lines[k := x]), c) + CountChar(lines[k], c) == CountChar(Join(lines), c) + CountChar(x, c)
  {
    JoinUpdate(lines, k, x);
    var a, b := Join(lines[..k]), Join(lines[k + 1..]);
    CountCharConcat(a, lines[k], c);
    CountCharConcat(a + lines[k], b, c);
    CountCharConcat(a, x, c);
    CountCharConcat(a + x, b, c);
  }

  /** Index just past the first newline at or after `i`, or the end of `s`. */
  function LineEnd(s: string, i: nat): (n: nat)
    requires i < |s|
    ensures i < n <= |s|
    ensures forall k :: i <= k < n - 1 ==> s[k] != '\n'
    ensures s[n - 1] == '\n' || n == |s|
    decreases |s| - i
  {
    if s[i] == '\n' || i + 1 == |s| then i + 1 else LineEnd(s, i + 1)
  }

  /** `f.readlines()`: the text cut after every newline; each line keeps its newline. */
  function ReadLines(s: string): seq<string>
    decreases |s|
  {
    if s == [] then [] else [s[..LineEnd(s, 0)]] + ReadLines(s[LineEnd(s, 0)..])
  }

  /** Writing the lines back gives the text that was read. */
  lemma {:induction false} ReadLinesJoin(s: string)
    ensures Join(ReadLines(s)) == s
    decreases |s|
  {
    if s != [] {
      var n := LineEnd(s, 0);
      ReadLinesJoin(s[n..]);
      assert s == s[..n] + s[n..];
    }
  }

  /** Every line is non-empty, ends with its only newline, and only the last may lack one. */
  lemma {:induction false} ReadLinesShape(s: string)
    ensures var lines := ReadLines(s);
            && (forall k :: 0 <= k < |lines| ==> lines[k] != [])
            && (forall k :: 0 <= k < |lines| - 1 ==> lines[k][|lines[k]| - 1] == '\n')
            && (forall k, t :: 0 <= k < |lines| && 0 <= t < |lines[k]| - 1 ==> lines[k][t] != '\n')
    decreases |s|
  {
    if s != [] {
      var n := LineEnd(s, 0);
      ReadLinesShape(s[n..]);
      var lines := ReadLines(s);
      assert lines[0] == s[..n];
      forall k | 1 <= k < |lines| ensures lines[k] == ReadLines(s[n..])[k - 1] {
      }
    }
  }

  // ---------------------------------------------------------------------------
  // os.path (POSIX)

  /** Length of `p` up to and including its last `/` (Python's `p.rfind('/') + 1`). */
  function HeadLength(p: string): (n: nat)
    ensures n <= |p|
  {
    if p == [] then 0
    else if p[|p| - 1] == '/' then |p|
    else HeadLength(p[..|p| - 1])
  }

  /** The head ends with the last `/`: there is no other after it. */
  lemma {:induction false} HeadLengthShape(p: string)
    ensures HeadLength(p) > 0 ==> p[HeadLength(p) - 1] == '/'
    ensures forall k :: HeadLength(p) <= k < |p| ==> p[k] != '/'
  {
    if p != [] && p[|p| - 1] != '/' {
      HeadLengthShape(p[..|p| - 1]);
    }
  }

  /** `os.path.basename(p)`: what follows the last `/`. */
  function Basename(p: string): string
  {
    p[HeadLength(p)..]
  }

  /** The base name is the end of the path after its last `/`, and has no `/` itself. */
  lemma BasenameShape(p: string)
    ensures EndsWith(p, Basename(p))
    ensures forall k :: 0 <= k < |Basename(p)| ==> Basename(p)[k] != '/'
    ensures |Basename(p)| < |p| ==> p[|p| - |Basename(p)| - 1] == '/'
  {
    HeadLengthShape(p);
  }

  function TrimTrailingSlashes(h: string): (r: string)
    ensures |r| <= |h|
  {
    if h != [] && h[|h| - 1] == '/' then TrimTrailingSlashes(h[..|h| - 1]) else h
  }

  lemma {:induction false} TrimmedPrefix(h: string)
    ensures TrimTrailingSlashes(h) == h[..|TrimTrailingSlashes(h)|]
  {
    if h != [] && h[|h| - 1] == '/' {
      TrimmedPrefix(h[..|h| - 1]);
    }
  }

  /** `os.path.dirname(p)`: everything before the last `/`, with trailing slashes
      removed unless the head consists of slashes only. */
  function Dirname(p: string): string
  {
    var head := p[..HeadLength(p)];
    var trimmed := TrimTrailingSlashes(head);
    if trimmed == [] then head else trimmed
  }

  /** The directory is a beginning of the path, and is empty when the path has no `/`. */
  lemma DirnameShape(p: string)
    ensures |Dirname(p)| <= |p| && Dirname(p) == p[..|Dirname(p)|]
    ensures (forall k :: 0 <= k < |p| ==> p[k] != '/') ==> Dirname(p) == []
  {
    HeadLengthShape(p);
    TrimmedPrefix(p[..HeadLength(p)]);
  }
}
