/**
 * The regular expressions of the scripts, matched the way Python's `re` module
 * matches them, for the few shapes they use: literal text, a single character of a
 * class, a greedy or lazy repetition of a class, an optional character, the word
 * boundary `\b`, and an alternation of such sequences.  A pattern is a sequence of
 * atoms; a capturing group covers a range of atoms.  Matching backtracks in Python's
 * order (greedy runs try the longest length first, lazy runs the shortest, the
 * alternatives of an alternation left to right), so the match found is the one
 * Python finds.  `Sub` scans like `re.subn` and `FindFrom` like `re.search`.
 */
module Patterns {
  import opened Wrappers
  import opened Text

  datatype CharClass =
    | Space            // \s
    | Word             // \w
    | Digit            // \d
    | NotNewline       // .
    | AllBut(c: char)  // [^c]
    | OneOf(cs: string) // [cs]

  predicate InClass(k: CharClass, c: char) {
    match k
    case Space => IsSpace(c)
    case Word => IsWordChar(c)
    case Digit => IsDigit(c)
    case NotNewline => c != '\n'
    case AllBut(x) => c != x
    case OneOf(cs) => c in cs
  }

  datatype Piece =
    | Lit(text: string)                         // the text itself
    | Class(k: CharClass)                       // exactly one character of k
    | Run(k: CharClass, min: nat, lazy: bool)   // k{min,} greedy, or k{min,}? lazy
    | Maybe(c: char)                            // c? (greedy)
    | Boundary                                  // \b

  datatype Atom = One(piece: Piece) | Either(alts: seq<seq<Piece>>)

  /** A piece of a replacement template: text, or `\n` for the n-th group. */
  datatype Part = Verbatim(text: string) | Group(n: nat)

  /** A compiled pattern with its replacement template; group n covers atoms [groups[n-1].0, groups[n-1].1). */
  datatype Rule = Rule(atoms: seq<Atom>, groups: seq<(nat, nat)>, template: seq<Part>)

  /** A substitution whose pattern is plain text (`re.sub` of an escaped literal, or `str.replace`). */
  function Literal(find: string, replacement: string): Rule
  {
    Rule([One(Lit(find))], [], [Verbatim(replacement)])
  }

  /** The literal text t. */
  function Exactly(t: string): Atom { One(Lit(t)) }

  /** `\s*` */
  const Spaces: Atom := One(Run(Space, 0, false))

  /** `\s+` */
  const SomeSpace: Atom := One(Run(Space, 1, false))

  /** `\w+` */
  const Name: Atom := One(Run(Word, 1, false))

  /** `(w1|w2|...)`: one of the words, tried left to right. */
  function OneWordOf(ws: seq<string>): Atom {
    Either(seq(|ws|, k requires 0 <= k < |ws| => [Lit(ws[k])]))
  }

  /** `\b` at index i: exactly one of the characters around i is a word character. */
  predicate IsBoundary(s: string, i: nat)
    requires i <= |s|
  {
    (i > 0 && IsWordChar(s[i - 1])) != (i < |s| && IsWordChar(s[i]))
  }

  // ---------------------------------------------------------------------------
  // Shortest possible match lengths

  function PieceMin(p: Piece): nat {
    match p
    case Lit(t) => |t|
    case Class(_) => 1
    case Run(_, m, _) => m
    case Maybe(_) => 0
    case Boundary => 0
  }

  function SeqMin(ps: seq<Piece>): nat {
    if ps == [] then 0 else PieceMin(ps[0]) + SeqMin(ps[1..])
  }

  function AltMin(alts: seq<seq<Piece>>): nat {
    if alts == [] then 0
    else if |alts| == 1 then SeqMin(alts[0])
    else
      var rest := AltMin(alts[1..]);
      if SeqMin(alts[0]) <= rest then SeqMin(alts[0]) else rest
  }

  function AtomMin(a: Atom): nat {
    match a
    case One(p) => PieceMin(p)
    case Either(alts) => AltMin(alts)
  }

  function PatternMin(atoms: seq<Atom>): nat {
    if atoms == [] then 0 else AtomMin(atoms[0]) + PatternMin(atoms[1..])
  }

  // ---------------------------------------------------------------------------
  // All the ways a piece, a sequence or an atom can match at i, in the order tried

  /** End of the longest run of class-k characters starting at i. */
  function RunEnd(k: CharClass, s: string, i: nat): (j: nat)
    requires i <= |s|
    ensures i <= j <= |s|
    ensures forall t :: i <= t < j ==> InClass(k, s[t])
    ensures j < |s| ==> !InClass(k, s[j])
    decreases |s| - i
  {
    if i < |s| && InClass(k, s[i]) then RunEnd(k, s, i + 1) else i
  }

  /** A run of class-k characters from i that stops at e, before a character outside
      the class or the end, is the longest one. */
  lemma {:induction false} RunEndAt(k: CharClass, s: string, i: nat, e: nat)
    requires i <= e <= |s|
    requires forall t :: i <= t < e ==> InClass(k, s[t])
    requires e < |s| ==> !InClass(k, s[e])
    ensures RunEnd(k, s, i) == e
    decreases e - i
  {
    if i < e {
      RunEndAt(k, s, i + 1, e);
    }
  }

  /** [hi, hi - 1, ..., lo]: the lengths a greedy run tries. */
  function Down(hi: nat, lo: nat): (r: seq<nat>)
    requires lo <= hi
    ensures |r| == hi - lo + 1
    ensures forall t :: 0 <= t < |r| ==> r[t] == hi - t
    ensures forall e :: e in r <==> lo <= e <= hi
    decreases hi - lo
  {
    if hi == lo then [lo] else [hi] + Down(hi - 1, lo)
  }

  /** [lo, lo + 1, ..., hi]: the lengths a lazy run tries. */
  function Up(lo: nat, hi: nat): (r: seq<nat>)
    requires lo <= hi
    ensures |r| == hi - lo + 1
    ensures forall t :: 0 <= t < |r| ==> r[t] == lo + t
    ensures forall e :: e in r <==> lo <= e <= hi
    decreases hi - lo
  {
    if hi == lo then [lo] else [lo] + Up(lo + 1, hi)
  }

  function PieceEnds(p: Piece, s: string, i: nat): (r: seq<nat>)
    requires i <= |s|
    ensures forall e :: e in r ==> i + PieceMin(p) <= e <= |s|
  {
    match p
    case Lit(t) => if StartsAt(s, t, i) then [i + |t|] else []
    case Class(k) => if i < |s| && InClass(k, s[i]) then [i + 1] else []
    case Run(k, m, lazy) =>
      var j := RunEnd(k, s, i);
      if j < i + m then []
      else if lazy then Up(i + m, j)
      else Down(j, i + m)
    case Maybe(c) => if i < |s| && s[i] == c then [i + 1, i] else [i]
    case Boundary => if IsBoundary(s, i) then [i] else []
  }

  function SeqEnds(ps: seq<Piece>, s: string, i: nat): (r: seq<nat>)
    requires i <= |s|
    ensures forall e :: e in r ==> i + SeqMin(ps) <= e <= |s|
    decreases |ps|, 1, 0
  {
    if ps == [] then [i] else EndsFrom(PieceEnds(ps[0], s, i), ps, s, i)
  }

  /** The ends of `ps` when its first piece ends at each of `mids` in turn. */
  function EndsFrom(mids: seq<nat>, ps: seq<Piece>, s: string, i: nat): (r: seq<nat>)
    requires ps != [] && i <= |s|
    requires forall t :: 0 <= t < |mids| ==> i + PieceMin(ps[0]) <= mids[t] <= |s|
    ensures forall e :: e in r ==> i + SeqMin(ps) <= e <= |s|
    decreases |ps|, 0, |mids|
  {
    if mids == [] then []
    else SeqEnds(ps[1..], s, mids[0]) + EndsFrom(mids[1..], ps, s, i)
  }

  function AltEnds(alts: seq<seq<Piece>>, s: string, i: nat): (r: seq<nat>)
    requires i <= |s|
    ensures forall e :: e in r ==> i + AltMin(alts) <= e <= |s|
  {
    if alts == [] then [] else SeqEnds(alts[0], s, i) + AltEnds(alts[1..], s, i)
  }

  function AtomEnds(a: Atom, s: string, i: nat): (r: seq<nat>)
    requires i <= |s|
    ensures forall e :: e in r ==> i + AtomMin(a) <= e <= |s|
  {
    match a
    case One(p) => PieceEnds(p, s, i)
    case Either(alts) => AltEnds(alts, s, i)
  }

  // ---------------------------------------------------------------------------
  // The match Python finds at a position

  /** `v` gives, for each atom, where it starts and ends, each end being one of the atom's ways to match. */
  predicate Trace(atoms: seq<Atom>, s: string, v: seq<nat>) {
    && |v| == |atoms| + 1
    && (forall k :: 0 <= k < |v| ==> v[k] <= |s|)
    && (forall k :: 0 <= k < |atoms| ==> v[k + 1] in AtomEnds(atoms[k], s, v[k]))
  }

  /** The first of a list of ends of an atom is one, and so is every later one. */
  lemma EndsSplit(ends: seq<nat>, a: Atom, s: string, i: nat)
    requires ends != [] && i <= |s|
    requires forall t :: 0 <= t < |ends| ==> ends[t] in AtomEnds(a, s, i)
    ensures ends[0] in AtomEnds(a, s, i) && ends[0] <= |s|
    ensures forall t :: 0 <= t < |ends[1..]| ==> ends[1..][t] in AtomEnds(a, s, i)
  {
    assert ends[0] in AtomEnds(a, s, i);
    forall t | 0 <= t < |ends[1..]|
      ensures ends[1..][t] in AtomEnds(a, s, i)
    {
      assert ends[1..][t] == ends[t + 1];
    }
  }

  /** An end of the first atom followed by a match of the rest is a match of all. */
  lemma TraceCons(atoms: seq<Atom>, s: string, i: nat, v: seq<nat>)
    requires atoms != [] && i <= |s|
    requires Trace(atoms[1..], s, v) && v[0] in AtomEnds(atoms[0], s, i)
    requires v[0] + PatternMin(atoms[1..]) <= v[|atoms| - 1]
    ensures Trace(atoms, s, [i] + v) && ([i] + v)[0] == i
    ensures i + PatternMin(atoms) <= ([i] + v)[|atoms|]
  {
    var w := [i] + v;
    assert w[1] == v[0];
    assert i + AtomMin(atoms[0]) <= v[0];
    assert w[|atoms|] == v[|atoms| - 1];
    assert forall k :: 0 <= k < |w| ==> w[k] <= |s| by {
      forall k | 0 <= k < |w| ensures w[k] <= |s| {
        if k > 0 {
          assert w[k] == v[k - 1];
        }
      }
    }
    assert forall k :: 1 <= k < |atoms| ==> w[k + 1] in AtomEnds(atoms[k], s, w[k]) by {
      forall k | 1 <= k < |atoms| ensures w[k + 1] in AtomEnds(atoms[k], s, w[k]) {
        assert w[k + 1] == v[k] && w[k] == v[k - 1] && atoms[k] == atoms[1..][k - 1];
      }
    }
  }

  /** The first match of `atoms` at i in backtracking order, as its atom boundaries. */
  function MatchAt(atoms: seq<Atom>, s: string, i: nat): (r: Option<seq<nat>>)
    requires i <= |s|
    ensures r.Some? ==> Trace(atoms, s, r.value) && r.value[0] == i
    ensures r.Some? ==> i + PatternMin(atoms) <= r.value[|atoms|]
    decreases |atoms|, 1, 0
  {
    if atoms == [] then Some([i]) else TryEnds(AtomEnds(atoms[0], s, i), atoms, s, i)
  }

  /** Tries each end of the first atom in turn until the remaining atoms match. */
  function TryEnds(ends: seq<nat>, atoms: seq<Atom>, s: string, i: nat): (r: Option<seq<nat>>)
    requires atoms != [] && i <= |s|
    requires forall t :: 0 <= t < |ends| ==> ends[t] in AtomEnds(atoms[0], s, i)
    ensures r.Some? ==> Trace(atoms, s, r.value) && r.value[0] == i
    ensures r.Some? ==> i + PatternMin(atoms) <= r.value[|atoms|]
    decreases |atoms|, 0, |ends|
  {
    if ends == [] then None
    else
      EndsSplit(ends, atoms[0], s, i);
      match MatchAt(atoms[1..], s, ends[0])
      case Some(v) =>
        assert v[0] == ends[0] && |atoms[1..]| == |atoms| - 1;
        TraceCons(atoms, s, i, v);
        Some([i] + v)
      case None => TryEnds(ends[1..], atoms, s, i)
  }

  /** When the first atom can end at only one place, the match is that end followed by
      the match of the remaining atoms. */
  lemma MatchAtSingleEnd(atoms: seq<Atom>, s: string, i: nat, e: nat, v: seq<nat>)
    requires atoms != [] && i <= |s| && AtomEnds(atoms[0], s, i) == [e]
    requires e in AtomEnds(atoms[0], s, i) && MatchAt(atoms[1..], s, e) == Some(v)
    ensures MatchAt(atoms, s, i) == Some([i] + v)
  {
    assert TryEnds([e], atoms, s, i) == Some([i] + v);
  }

  /** The first ends that `TryEnds` passes over are those where the remaining atoms fail. */
  lemma {:induction false} TryEndsFirst(ends: seq<nat>, atoms: seq<Atom>, s: string, i: nat) returns (idx: nat)
    requires atoms != [] && i <= |s|
    requires forall t :: 0 <= t < |ends| ==> ends[t] in AtomEnds(atoms[0], s, i)
    requires TryEnds(ends, atoms, s, i).Some?
    ensures idx < |ends| && ends[idx] == TryEnds(ends, atoms, s, i).value[1]
    ensures forall t :: 0 <= t < idx ==> MatchAt(atoms[1..], s, ends[t]).None?
  {
    if MatchAt(atoms[1..], s, ends[0]).Some? {
      idx := 0;
    } else {
      var rest := ends[1..];
      assert TryEnds(ends, atoms, s, i) == TryEnds(rest, atoms, s, i);
      assert forall t :: 0 <= t < |rest| ==> rest[t] == ends[t + 1];
      var j := TryEndsFirst(rest, atoms, s, i);
      idx := j + 1;
      forall t | 0 <= t < idx
        ensures MatchAt(atoms[1..], s, ends[t]).None?
      {
        if t > 0 {
          assert ends[t] == rest[t - 1];
        }
      }
    }
  }

  /** A match of `a\w+b`-shaped patterns: the text between the two literals is a non-empty run of the class. */
  lemma {:induction false} RunBetweenLiterals(a: string, k: CharClass, b: string, s: string, v: seq<nat>)
    requires Trace([Exactly(a), One(Run(k, 1, false)), Exactly(b)], s, v)
    ensures v[1] == v[0] + |a| && v[1] < v[2] && v[3] == v[2] + |b|
    ensures s[v[0]..v[3]] == a + s[v[1]..v[2]] + b
    ensures forall t :: v[1] <= t < v[2] ==> InClass(k, s[t])
  {
    var atoms := [Exactly(a), One(Run(k, 1, false)), Exactly(b)];
    assert v[1] in AtomEnds(atoms[0], s, v[0]);
    assert v[2] in AtomEnds(atoms[1], s, v[1]);
    assert v[3] in AtomEnds(atoms[2], s, v[2]);
    var j := RunEnd(k, s, v[1]);
    assert v[2] in Down(j, v[1] + 1);
    assert s[v[0]..v[3]] == s[v[0]..v[1]] + s[v[1]..v[2]] + s[v[2]..v[3]];
  }

  /** A plain-text atom of a match covers its text. */
  lemma LitInTrace(atoms: seq<Atom>, s: string, v: seq<nat>, m: nat, t: string)
    requires Trace(atoms, s, v) && m < |atoms| && atoms[m] == One(Lit(t))
    ensures StartsAt(s, t, v[m])
  {
    assert v[m + 1] in AtomEnds(atoms[m], s, v[m]);
  }

  /** A one-character class atom of a match covers a character of the class. */
  lemma ClassInTrace(atoms: seq<Atom>, s: string, v: seq<nat>, m: nat, k: CharClass)
    requires Trace(atoms, s, v) && m < |atoms| && atoms[m] == One(Class(k))
    ensures v[m] < |s| && InClass(k, s[v[m]])
  {
    assert v[m + 1] in AtomEnds(atoms[m], s, v[m]);
  }

  // ---------------------------------------------------------------------------
  // Substitution and search

  /** The match at i, when it is not empty (no pattern of the scripts can match the empty string). */
  function Hit(r: Rule, s: string, i: nat): (h: Option<seq<nat>>)
    requires i <= |s|
    ensures h.Some? ==> Trace(r.atoms, s, h.value) && h.value[0] == i && i < h.value[|r.atoms|]
    ensures PatternMin(r.atoms) > 0 ==> h == MatchAt(r.atoms, s, i)
  {
    match MatchAt(r.atoms, s, i)
    case Some(v) => if i < v[|r.atoms|] then Some(v) else None
    case None => None
  }

  /** The replacement text for one match: the template with `\n` filled from the groups. */
  function Expand(t: seq<Part>, groups: seq<(nat, nat)>, s: string, v: seq<nat>): string
  {
    if t == [] then []
    else
      var head := match t[0]
        case Verbatim(x) => x
        case Group(n) => GroupText(groups, s, v, n);
      head + Expand(t[1..], groups, s, v)
  }

  /** The text group n captured; nothing for a group the pattern does not have. */
  function GroupText(groups: seq<(nat, nat)>, s: string, v: seq<nat>, n: nat): string
  {
    if 1 <= n <= |groups| && groups[n - 1].0 <= groups[n - 1].1 < |v| && v[groups[n - 1].0] <= v[groups[n - 1].1] <= |s|
    then s[v[groups[n - 1].0]..v[groups[n - 1].1]]
    else []
  }

  /** The replacement for the match `v` of rule `r`. */
  function Replacement(r: Rule, s: string, v: seq<nat>): string
  {
    Expand(r.template, r.groups, s, v)
  }

  /** `re.subn` from index i: every leftmost non-overlapping match replaced, and how many. */
  function SubFrom(r: Rule, s: string, i: nat): (out: (string, nat))
    requires i <= |s|
    ensures out.1 == 0 ==> out.0 == s[i..]
    decreases |s| - i
  {
    if i == |s| then ([], 0)
    else
      match Hit(r, s, i)
      case Some(v) =>
        var rest := SubFrom(r, s, v[|r.atoms|]);
        (Replacement(r, s, v) + rest.0, rest.1 + 1)
      case None =>
        var rest := SubFrom(r, s, i + 1);
        assert s[i..] == [s[i]] + s[i + 1..];
        ([s[i]] + rest.0, rest.1)
  }

  /** `re.subn(pattern, replacement, s)`. */
  function Sub(r: Rule, s: string): (out: (string, nat))
    ensures out.1 == 0 ==> out.0 == s
  {
    SubFrom(r, s, 0)
  }

  /** A position where the pattern matches takes the replacement, and the scan goes on
      after the match. */
  lemma SubFromHit(r: Rule, s: string, i: nat, v: seq<nat>)
    requires i < |s| && Hit(r, s, i) == Some(v)
    ensures SubFrom(r, s, i) == (Replacement(r, s, v) + SubFrom(r, s, v[|r.atoms|]).0, SubFrom(r, s, v[|r.atoms|]).1 + 1)
  {
  }

  /** A position where the pattern does not match keeps its character. */
  lemma SubFromMiss(r: Rule, s: string, i: nat)
    requires i < |s| && Hit(r, s, i).None?
    ensures SubFrom(r, s, i) == ([s[i]] + SubFrom(r, s, i + 1).0, SubFrom(r, s, i + 1).1)
  {
  }

  /** No position from i on leaves room for the shortest match: nothing is replaced. */
  lemma {:induction false} SubFromShort(r: Rule, s: string, i: nat)
    requires i <= |s| < i + PatternMin(r.atoms)
    ensures SubFrom(r, s, i) == (s[i..], 0)
    decreases |s| - i
  {
    if i < |s| {
      assert Hit(r, s, i).None?;
      SubFromShort(r, s, i + 1);
    }
  }

  /** A pattern with a plain-text atom is not found in a text without that text. */
  lemma AbsentLitNoSearch(r: Rule, s: string, m: nat, t: string)
    requires m < |r.atoms| && r.atoms[m] == Exactly(t) && !Contains(s, t)
    ensures !Search(r, s)
  {
    if Search(r, s) {
      var v := Hit(r, s, FindFrom(r, s, 0).value).value;
      LitInTrace(r.atoms, s, v, m, t);
    }
  }

  /** A pattern with a one-character class atom is not found in a text without a
      character of the class. */
  lemma AbsentClassNoSearch(r: Rule, s: string, m: nat, k: CharClass)
    requires m < |r.atoms| && r.atoms[m] == One(Class(k))
    requires forall j :: 0 <= j < |s| ==> !InClass(k, s[j])
    ensures !Search(r, s)
  {
    if Search(r, s) {
      var v := Hit(r, s, FindFrom(r, s, 0).value).value;
      ClassInTrace(r.atoms, s, v, m, k);
    }
  }

  /** An end of one plain-text alternative: the text occurs there. */
  lemma LitAltEnd(t: string, s: string, i: nat, e: nat)
    requires i <= |s| && e in SeqEnds([Lit(t)], s, i)
    ensures StartsAt(s, t, i)
  {
  }

  /** An end of an alternation is an end of one of its alternatives. */
  lemma {:induction false} AltEndOf(alts: seq<seq<Piece>>, s: string, i: nat, e: nat)
    requires i <= |s| && e in AltEnds(alts, s, i)
    ensures exists j :: 0 <= j < |alts| && e in SeqEnds(alts[j], s, i)
  {
    if e !in SeqEnds(alts[0], s, i) {
      AltEndOf(alts[1..], s, i, e);
      var j :| 0 <= j < |alts[1..]| && e in SeqEnds(alts[1..][j], s, i);
      assert alts[1..][j] == alts[j + 1];
    }
  }

  /** A pattern with a `(w1|w2|...)` atom is not found in a text holding none of the words. */
  lemma AbsentWordsNoSearch(r: Rule, s: string, m: nat, ws: seq<string>)
    requires m < |r.atoms| && r.atoms[m] == OneWordOf(ws)
    requires forall j :: 0 <= j < |ws| ==> !Contains(s, ws[j])
    ensures !Search(r, s)
  {
    if Search(r, s) {
      var v := Hit(r, s, FindFrom(r, s, 0).value).value;
      var alts := seq(|ws|, k requires 0 <= k < |ws| => [Lit(ws[k])]);
      assert v[m + 1] in AltEnds(alts, s, v[m]);
      AltEndOf(alts, s, v[m], v[m + 1]);
      var j :| 0 <= j < |alts| && v[m + 1] in SeqEnds(alts[j], s, v[m]);
      LitAltEnd(ws[j], s, v[m], v[m + 1]);
    }
  }

  /** The rules applied one after the other, each to what the previous left: the text and the total number of replacements. */
  function ApplyRules(rules: seq<Rule>, s: string): (r: (string, nat))
    ensures r.1 == 0 ==> r.0 == s
  {
    if rules == [] then (s, 0)
    else
      var prev := ApplyRules(rules[..|rules| - 1], s);
      var step := Sub(rules[|rules| - 1], prev.0);
      (step.0, prev.1 + step.1)
  }

  /** The first n + 1 rules are the first n and then rule n on what they left. */
  lemma {:induction false} ApplyRulesPrefix(rules: seq<Rule>, s: string, n: nat)
    requires n < |rules|
    ensures ApplyRules(rules[..n + 1], s).0 == Sub(rules[n], ApplyRules(rules[..n], s).0).0
    ensures ApplyRules(rules[..n + 1], s).1 ==
            ApplyRules(rules[..n], s).1 + Sub(rules[n], ApplyRules(rules[..n], s).0).1
  {
    assert rules[..n + 1][..n] == rules[..n];
    assert rules[..n + 1][n] == rules[n];
  }

  /** Rules that find nothing leave the text and the count as they were. */
  lemma {:induction false} ApplyRulesSkips(rules: seq<Rule>, s: string, a: nat, b: nat)
    requires a <= b <= |rules|
    requires forall k :: a <= k < b ==> !Search(rules[k], ApplyRules(rules[..a], s).0)
    ensures ApplyRules(rules[..b], s) == ApplyRules(rules[..a], s)
    decreases b - a
  {
    if a < b {
      ApplyRulesSkipOne(rules, s, a);
      ApplyRulesSkips(rules, s, a + 1, b);
    }
  }

  /** A rule that finds nothing leaves the text and the count as they were. */
  lemma {:induction false} ApplyRulesSkipOne(rules: seq<Rule>, s: string, a: nat)
    requires a < |rules| && !Search(rules[a], ApplyRules(rules[..a], s).0)
    ensures ApplyRules(rules[..a + 1], s) == ApplyRules(rules[..a], s)
  {
    var prev := ApplyRules(rules[..a], s);
    SearchIffSubstitutes(rules[a], prev.0);
    ApplyRulesPrefix(rules, s, a);
  }

  /** The leftmost index at or after i where the pattern matches. */
  function FindFrom(r: Rule, s: string, i: nat): (f: Option<nat>)
    requires i <= |s|
    ensures f.Some? ==> i <= f.value < |s| && Hit(r, s, f.value).Some?
    ensures f.Some? ==> forall j :: i <= j < f.value ==> Hit(r, s, j).None?
    ensures f.None? ==> forall j :: i <= j <= |s| ==> Hit(r, s, j).None?
    decreases |s| - i
  {
    if i == |s| then None
    else if Hit(r, s, i).Some? then Some(i)
    else FindFrom(r, s, i + 1)
  }

  /** `re.search(pattern, s) is not None`. */
  predicate Search(r: Rule, s: string) {
    FindFrom(r, s, 0).Some?
  }

  /** A match at i counts. */
  lemma SubCountHit(r: Rule, s: string, i: nat)
    requires i < |s| && Hit(r, s, i).Some?
    ensures SubFrom(r, s, i).1 > 0
  {
  }

  /** A miss at i defers the count to i + 1. */
  lemma SubCountMiss(r: Rule, s: string, i: nat)
    requires i < |s| && Hit(r, s, i).None?
    ensures SubFrom(r, s, i).1 == SubFrom(r, s, i + 1).1
  {
  }

  /** `re.subn` reports a replacement exactly when `re.search` finds a match. */
  lemma {:induction false} SubCountsIffFound(r: Rule, s: string, i: nat)
    requires i <= |s|
    ensures SubFrom(r, s, i).1 > 0 <==> FindFrom(r, s, i).Some?
    decreases |s| - i
  {
    if i < |s| {
      if Hit(r, s, i).Some? {
        SubCountHit(r, s, i);
      } else {
        SubCountMiss(r, s, i);
        SubCountsIffFound(r, s, i + 1);
      }
    }
  }

  /** `re.sub` replaces something exactly when `re.search` finds the pattern, and leaves
      the text as it is otherwise. */
  lemma SearchIffSubstitutes(r: Rule, s: string)
    ensures Search(r, s) <==> Sub(r, s).1 > 0
    ensures !Search(r, s) ==> Sub(r, s).0 == s
  {
    SubCountsIffFound(r, s, 0);
  }
}
