/**
 * The fixer of explicit `any` types: it lists the linter's `no-explicit-any` messages,
 * and rewrites every `.ts` file met by the walk with eight substitutions applied in a
 * fixed order, each one run only when its pattern is found in the text left by the
 * previous ones.  A file is written, and its path reported, exactly when one of the
 * eight found a match.
 */
module FixAnyTypes {
  import opened Wrappers
  import opened Text
  import opened Patterns
  import opened LintReport

  // ---------------------------------------------------------------------------
  // get_eslint_issues

  /** An explicit `any` as the linter reports it. */
  datatype AnyIssue = AnyIssue(file: string, line: int, column: int)

  /** The issues of one file result's messages, in order. */
  function AnyIssuesIn(path: string, msgs: seq<Message>): seq<AnyIssue>
  {
    if msgs == [] then []
    else
      var m := msgs[|msgs| - 1];
      AnyIssuesIn(path, msgs[..|msgs| - 1])
        + (if HasRule(m, ExplicitAnyRule) then [AnyIssue(path, LineOf(m), ColumnOf(m))] else [])
  }

  /** The issues of the whole report, file result after file result. */
  function AnyIssuesOf(report: seq<FileReport>): seq<AnyIssue>
  {
    if report == [] then []
    else
      var r := report[|report| - 1];
      AnyIssuesOf(report[..|report| - 1]) + AnyIssuesIn(PathOf(r), r.messages)
  }

  /** Message j of file result i is a `no-explicit-any` message that gives issue x. */
  predicate Gives(report: seq<FileReport>, i: nat, j: nat, x: AnyIssue)
    requires i < |report| && j < |report[i].messages|
  {
    var m := report[i].messages[j];
    HasRule(m, ExplicitAnyRule) && x == AnyIssue(PathOf(report[i]), LineOf(m), ColumnOf(m))
  }

  lemma {:induction false} AnyIssuesInHas(path: string, msgs: seq<Message>, x: AnyIssue)
    ensures x in AnyIssuesIn(path, msgs) <==>
            exists j :: 0 <= j < |msgs| && HasRule(msgs[j], ExplicitAnyRule) &&
                        x == AnyIssue(path, LineOf(msgs[j]), ColumnOf(msgs[j]))
  {
    if msgs != [] {
      var init := msgs[..|msgs| - 1];
      AnyIssuesInHas(path, init, x);
      if exists j :: 0 <= j < |init| && HasRule(init[j], ExplicitAnyRule) &&
                     x == AnyIssue(path, LineOf(init[j]), ColumnOf(init[j])) {
        var j :| 0 <= j < |init| && HasRule(init[j], ExplicitAnyRule) &&
                 x == AnyIssue(path, LineOf(init[j]), ColumnOf(init[j]));
        assert msgs[j] == init[j];
      }
      if exists j :: 0 <= j < |msgs| && HasRule(msgs[j], ExplicitAnyRule) &&
                     x == AnyIssue(path, LineOf(msgs[j]), ColumnOf(msgs[j])) {
        var j :| 0 <= j < |msgs| && HasRule(msgs[j], ExplicitAnyRule) &&
                 x == AnyIssue(path, LineOf(msgs[j]), ColumnOf(msgs[j]));
        if j < |init| {
          assert init[j] == msgs[j];
        }
      }
    }
  }

  /** Every `no-explicit-any` message has its issue listed. */
  lemma {:induction false} GivenListed(report: seq<FileReport>, i: nat, j: nat, x: AnyIssue)
    requires i < |report| && j < |report[i].messages| && Gives(report, i, j, x)
    ensures x in AnyIssuesOf(report)
  {
    var init := report[..|report| - 1];
    var r := report[|report| - 1];
    if i < |init| {
      assert init[i] == report[i];
      assert Gives(init, i, j, x);
      GivenListed(init, i, j, x);
    } else {
      AnyIssuesInHas(PathOf(r), r.messages, x);
    }
  }

  /** Every listed issue comes from a `no-explicit-any` message. */
  lemma {:induction false} ListedGiven(report: seq<FileReport>, x: AnyIssue)
    requires x in AnyIssuesOf(report)
    ensures exists i, j :: 0 <= i < |report| && 0 <= j < |report[i].messages| && Gives(report, i, j, x)
  {
    var init := report[..|report| - 1];
    var r := report[|report| - 1];
    if x in AnyIssuesOf(init) {
      ListedGiven(init, x);
      var i, j :| 0 <= i < |init| && 0 <= j < |init[i].messages| && Gives(init, i, j, x);
      assert init[i] == report[i];
      assert Gives(report, i, j, x);
    } else {
      AnyIssuesInHas(PathOf(r), r.messages, x);
      var j :| 0 <= j < |r.messages| && HasRule(r.messages[j], ExplicitAnyRule) &&
               x == AnyIssue(PathOf(r), LineOf(r.messages[j]), ColumnOf(r.messages[j]));
      assert Gives(report, |init|, j, x);
    }
  }

  /** An issue is listed exactly when a `no-explicit-any` message gives it. */
  lemma {:induction false} AnyIssuesOfGiven(report: seq<FileReport>, x: AnyIssue)
    ensures x in AnyIssuesOf(report) <==>
            exists i, j :: 0 <= i < |report| && 0 <= j < |report[i].messages| && Gives(report, i, j, x)
  {
    if x in AnyIssuesOf(report) {
      ListedGiven(report, x);
    }
    if exists i, j :: 0 <= i < |report| && 0 <= j < |report[i].messages| && Gives(report, i, j, x) {
      var i, j :| 0 <= i < |report| && 0 <= j < |report[i].messages| && Gives(report, i, j, x);
      GivenListed(report, i, j, x);
    }
  }

  /** `get_eslint_issues`, given the linter's output (`None` when it is not JSON). */
  method GetEslintIssues(output: Option<seq<FileReport>>) returns (issues: seq<AnyIssue>)
    ensures output.None? ==> issues == []
    ensures output.Some? ==> issues == AnyIssuesOf(output.value)
  {
    issues := [];
    if output.None? {
      return;
    }
    var report := output.value;
    for i := 0 to |report|
      invariant issues == AnyIssuesOf(report[..i])
    {
      assert report[..i + 1][..i] == report[..i];
      var filePath := PathOf(report[i]);
      var msgs := report[i].messages;
      ghost var before := issues;
      for j := 0 to |msgs|
        invariant issues == before + AnyIssuesIn(filePath, msgs[..j])
      {
        assert msgs[..j + 1][..j] == msgs[..j];
        var m := msgs[j];
        if HasRule(m, ExplicitAnyRule) {
          issues := issues + [AnyIssue(filePath, LineOf(m), ColumnOf(m))];
        }
      }
      assert msgs[..|msgs|] == msgs;
    }
    assert report[..|report|] == report;
  }

  // ---------------------------------------------------------------------------
  // The eight substitutions

  /** The substitutions, in the order they are applied. */
  function AnyTypeRules(): seq<Rule>
  {
    seq(8, k requires 0 <= k < 8 => AnyTypeRule(k))
  }

  /** `any` as a whole word: `any\b`. */
  function AnyWord(): seq<Atom> { [Exactly("any"), One(Boundary)] }

  function AnyTypeRule(k: nat): Rule
    requires k < 8
  {
    match k
    case 0 => Rule([Exactly("Record<string,"), Spaces, Exactly("any>")], [], [Verbatim("Record<string, unknown>")])
    case 1 => Rule([Exactly("Record<string,"), Spaces, Exactly("any[]>")], [], [Verbatim("Record<string, unknown[]>")])
    case 2 => Literal("any[]", "unknown[]")
    case 3 => Literal("Array<any>", "Array<unknown>")
    case 4 => Literal("Promise<any>", "Promise<unknown>")
    case 5 => Rule([Exactly(":"), Spaces] + AnyWord(), [], [Verbatim(": unknown")])
    case 6 => Literal("<any>", "<unknown>")
    case 7 => Rule([Exactly("as"), SomeSpace] + AnyWord(), [], [Verbatim("as unknown")])
  }

  /** The text after the given substitutions and `file_modified`: each one replaces all
      its matches, and sets the flag, only when `re.search` finds its pattern. */
  function FixContent(rules: seq<Rule>, content: string): (string, bool)
  {
    if rules == [] then (content, false)
    else
      var prev := FixContent(rules[..|rules| - 1], content);
      var r := rules[|rules| - 1];
      if Search(r, prev.0) then (Sub(r, prev.0).0, true) else prev
  }

  /** Running a substitution only after `re.search` found its pattern gives the text the
      plain chain of substitutions gives, and the file is marked modified exactly when
      that chain replaced something. */
  lemma {:induction false} FixContentIsChain(rules: seq<Rule>, content: string)
    ensures FixContent(rules, content).0 == ApplyRules(rules, content).0
    ensures FixContent(rules, content).1 <==> ApplyRules(rules, content).1 > 0
  {
    if rules != [] {
      var prev := FixContent(rules[..|rules| - 1], content);
      FixContentIsChain(rules[..|rules| - 1], content);
      SearchIffSubstitutes(rules[|rules| - 1], prev.0);
    }
  }

  /** An unmarked file keeps its text. */
  lemma FixContentUnmarked(rules: seq<Rule>, content: string)
    ensures !FixContent(rules, content).1 ==> FixContent(rules, content).0 == content
  {
    FixContentIsChain(rules, content);
  }

  /** Substitution k found its pattern in the text left by the ones before it. */
  predicate FoundAtTurn(rules: seq<Rule>, content: string, k: nat)
    requires k < |rules|
  {
    Search(rules[k], FixContent(rules[..k], content).0)
  }

  lemma FoundAtTurnPrefix(rules: seq<Rule>, content: string, n: nat, k: nat)
    requires k < n <= |rules|
    ensures FoundAtTurn(rules[..n], content, k) <==> FoundAtTurn(rules, content, k)
  {
    assert rules[..n][..k] == rules[..k];
    assert rules[..n][k] == rules[k];
  }

  /** A substitution that finds its pattern marks the file modified. */
  lemma {:induction false} FoundMarks(rules: seq<Rule>, content: string, k: nat)
    requires k < |rules| && FoundAtTurn(rules, content, k)
    ensures FixContent(rules, content).1
  {
    var n := |rules| - 1;
    if k < n {
      FoundAtTurnPrefix(rules, content, n, k);
      FoundMarks(rules[..n], content, k);
      MarkStays(rules, content);
    } else {
      assert rules[..k] == rules[..n];
    }
  }

  /** Once marked modified, a file stays marked. */
  lemma MarkStays(rules: seq<Rule>, content: string)
    requires rules != []
    ensures FixContent(rules[..|rules| - 1], content).1 ==> FixContent(rules, content).1
  {
  }

  /** A file marked modified has a substitution that found its pattern at its turn. */
  lemma {:induction false} MarkedFound(rules: seq<Rule>, content: string)
    requires FixContent(rules, content).1
    ensures exists k :: 0 <= k < |rules| && FoundAtTurn(rules, content, k)
  {
    var n := |rules| - 1;
    if FixContent(rules[..n], content).1 {
      MarkedFound(rules[..n], content);
      var k :| 0 <= k < n && FoundAtTurn(rules[..n], content, k);
      FoundAtTurnPrefix(rules, content, n, k);
    } else {
      assert rules[..n] == rules[..n][..n];
      assert FoundAtTurn(rules, content, n);
    }
  }

  /** `file_modified` holds exactly when some substitution found its pattern at its turn. */
  lemma {:induction false} FixContentFlag(rules: seq<Rule>, content: string)
    ensures FixContent(rules, content).1 <==> exists k :: 0 <= k < |rules| && FoundAtTurn(rules, content, k)
  {
    if FixContent(rules, content).1 {
      MarkedFound(rules, content);
    }
    if exists k :: 0 <= k < |rules| && FoundAtTurn(rules, content, k) {
      var k :| 0 <= k < |rules| && FoundAtTurn(rules, content, k);
      FoundMarks(rules, content, k);
    }
  }

  // ---------------------------------------------------------------------------
  // No `<any>` is left

  /** a and b agree wherever both have a character. */
  predicate Agree(a: string, b: string) {
    forall k :: 0 <= k < |a| && k < |b| ==> a[k] == b[k]
  }

  /** No occurrence of t can begin inside u, whatever follows u. */
  predicate NoneBeginsIn(u: string, t: string) {
    forall p :: 0 <= p < |u| ==> !Agree(u[p..], t)
  }

  /** No proper tail of t can run into u. */
  predicate NoTailInto(t: string, u: string) {
    forall p :: 1 <= p < |t| ==> !Agree(t[p..], u)
  }

  /** A rule whose replacement is the fixed text u. */
  predicate Replaces(r: Rule, u: string) {
    r.template == [Verbatim(u)]
  }

  lemma ReplacementIs(r: Rule, u: string, s: string, v: seq<nat>)
    requires Replaces(r, u)
    ensures Replacement(r, s, v) == u
  {
    assert Expand(r.template[1..], r.groups, s, v) == [];
  }

  /** One step of `re.sub` from index i: the replacement and the rest after a match, or
      the character at i and the rest after it. */
  lemma SubFromStep(r: Rule, u: string, s: string, i: nat)
    requires i < |s| && Replaces(r, u)
    ensures Hit(r, s, i).Some? ==>
              SubFrom(r, s, i).0 == u + SubFrom(r, s, Hit(r, s, i).value[|r.atoms|]).0
    ensures Hit(r, s, i).None? ==> SubFrom(r, s, i).0 == [s[i]] + SubFrom(r, s, i + 1).0
  {
    if Hit(r, s, i).Some? {
      ReplacementIs(r, u, s, Hit(r, s, i).value);
    }
  }

  /** When no tail of w runs into the replacement, a substitution's output begins with w
      only when its input does. */
  lemma {:induction false} OutputPrefix(r: Rule, u: string, s: string, i: nat, w: string)
    requires i <= |s| && Replaces(r, u)
    requires forall p :: 0 <= p < |w| ==> !Agree(w[p..], u)
    ensures StartsWith(SubFrom(r, s, i).0, w) ==> StartsAt(s, w, i)
    decreases |s| - i
  {
    if w != [] && i < |s| {
      SubFromStep(r, u, s, i);
      if Hit(r, s, i).Some? {
        assert w[0..] == w;
        DisagreeFront(w, u, SubFrom(r, s, Hit(r, s, i).value[|r.atoms|]).0);
      } else {
        forall p | 0 <= p < |w[1..]| ensures !Agree(w[1..][p..], u) {
          assert w[1..][p..] == w[p + 1..];
        }
        OutputPrefix(r, u, s, i + 1, w[1..]);
        ConsPrefix(s, i, w, SubFrom(r, s, i + 1).0);
      }
    }
  }

  /** Text that begins with s[i] and then with the rest of w begins with w; when the
      rest of w also follows i in s, w occurs at i. */
  lemma ConsPrefix(s: string, i: nat, w: string, rest: string)
    requires i < |s| && w != []
    ensures StartsWith([s[i]] + rest, w) ==> StartsWith(rest, w[1..]) && s[i] == w[0]
    ensures s[i] == w[0] && StartsAt(s, w[1..], i + 1) ==> StartsAt(s, w, i)
  {
    if StartsWith([s[i]] + rest, w) {
      assert rest[..|w| - 1] == w[1..];
    }
    if s[i] == w[0] && StartsAt(s, w[1..], i + 1) {
      assert s[i..i + |w|] == [s[i]] + s[i + 1..i + |w|];
    }
  }

  /** Text that begins with u does not begin with a w that disagrees with u. */
  lemma DisagreeFront(w: string, u: string, rest: string)
    requires !Agree(w, u)
    ensures !StartsWith(u + rest, w)
  {
    var k :| 0 <= k < |w| && k < |u| && w[k] != u[k];
    assert (u + rest)[k] == u[k];
  }

  /** A replacement in which no t can begin, followed by text without t, holds no t. */
  lemma {:induction false} AfterReplacement(u: string, t: string, rest: string)
    requires t != [] && NoneBeginsIn(u, t) && !Contains(rest, t)
    ensures !Contains(u + rest, t)
  {
    var out := u + rest;
    forall p: nat | p + |t| <= |out| ensures !StartsAt(out, t, p) {
      if p < |u| {
        var k :| 0 <= k < |u[p..]| && k < |t| && u[p..][k] != t[k];
        assert out[p + k] == u[p..][k];
      } else {
        assert rest[p - |u|..p - |u| + |t|] == out[p..p + |t|];
        var q: nat := p - |u|;
        assert StartsAt(out, t, p) ==> StartsAt(rest, t, q);
      }
    }
  }

  /** A character put before text without t gives a t only at the front. */
  lemma {:induction false} AfterCharacter(c: char, t: string, rest: string)
    requires t != [] && !Contains(rest, t)
    ensures Contains([c] + rest, t) ==> c == t[0] && StartsWith(rest, t[1..])
  {
    var out := [c] + rest;
    forall p: nat | 0 < p && p + |t| <= |out| ensures !StartsAt(out, t, p) {
      assert rest[p - 1..p - 1 + |t|] == out[p..p + |t|];
      var q: nat := p - 1;
      assert StartsAt(out, t, p) ==> StartsAt(rest, t, q);
    }
    if Contains(out, t) {
      assert StartsAt(out, t, 0);
      assert rest[..|t| - 1] == out[1..|t|];
    }
  }

  /** A substitution whose replacement neither holds nor runs into t, and which matches at
      every place t occurs, leaves no t behind. */
  lemma {:induction false} NoneLeft(r: Rule, u: string, t: string, s: string, i: nat)
    requires i <= |s| && t != [] && Replaces(r, u)
    requires NoneBeginsIn(u, t) && NoTailInto(t, u)
    requires forall j :: i <= j < |s| && StartsAt(s, t, j) ==> Hit(r, s, j).Some?
    ensures !Contains(SubFrom(r, s, i).0, t)
    decreases |s| - i
  {
    if i < |s| {
      match Hit(r, s, i)
      case Some(v) =>
        var rest := SubFrom(r, s, v[|r.atoms|]).0;
        NoneLeft(r, u, t, s, v[|r.atoms|]);
        SubFromStep(r, u, s, i);
        AfterReplacement(u, t, rest);
      case None =>
        var rest := SubFrom(r, s, i + 1).0;
        NoneLeft(r, u, t, s, i + 1);
        SubFromStep(r, u, s, i);
        AfterCharacter(s[i], t, rest);
        forall q | 0 <= q < |t[1..]| ensures !Agree(t[1..][q..], u) {
          assert t[1..][q..] == t[q + 1..];
        }
        OutputPrefix(r, u, s, i + 1, t[1..]);
        ConsPrefix(s, i, t, rest);
    }
  }

  /** A plain-text pattern matches wherever its text occurs. */
  lemma LiteralHits(t: string, u: string, s: string, j: nat)
    requires t != [] && j < |s| && StartsAt(s, t, j)
    ensures Hit(Literal(t, u), s, j).Some?
  {
    var atoms := [One(Lit(t))];
    assert AtomEnds(atoms[0], s, j) == [j + |t|];
    assert atoms[1..] == [];
    assert MatchAt(atoms[1..], s, j + |t|) == Some([j + |t|]);
    assert MatchAt(atoms, s, j) == TryEnds([j + |t|], atoms, s, j);
  }

  /** When `re.search` does not find a plain-text pattern, its text does not occur. */
  lemma LiteralNotFound(t: string, u: string, s: string)
    requires t != [] && !Search(Literal(t, u), s)
    ensures !Contains(s, t)
  {
    if Contains(s, t) {
      var j: nat :| j + |t| <= |s| && StartsAt(s, t, j);
      LiteralHits(t, u, s, j);
    }
  }

  lemma TypeArgFacts()
    ensures NoneBeginsIn("<unknown>", "<any>") && NoTailInto("<any>", "<unknown>")
    ensures NoneBeginsIn("as unknown", "<any>") && NoTailInto("<any>", "as unknown")
  {
    forall p | 0 <= p < |"<unknown>"| ensures !Agree("<unknown>"[p..], "<any>") {
      if p == 0 {
        assert "<unknown>"[p..][1] != "<any>"[1];
      } else {
        assert "<unknown>"[p..][0] != "<any>"[0];
      }
    }
    forall p | 0 <= p < |"as unknown"| ensures !Agree("as unknown"[p..], "<any>") {
      assert "as unknown"[p..][0] != "<any>"[0];
    }
    forall p | 1 <= p < |"<any>"| ensures !Agree("<any>"[p..], "<unknown>") {
      assert "<any>"[p..][0] != "<unknown>"[0];
    }
    forall p | 1 <= p < |"<any>"| ensures !Agree("<any>"[p..], "as unknown") {
      if p == 1 {
        assert "<any>"[p..][1] != "as unknown"[1];
      } else {
        assert "<any>"[p..][0] != "as unknown"[0];
      }
    }
  }

  /** Once `<any>` is gone, the `as any` step brings none back. */
  lemma {:induction false} AsAnyKeepsNone(s: string)
    requires !Contains(s, "<any>")
    ensures !Contains(FixStep(AnyTypeRule(7), s), "<any>")
  {
    if Search(AnyTypeRule(7), s) {
      TypeArgFacts();
      NoneLeft(AnyTypeRule(7), "as unknown", "<any>", s, 0);
    }
  }

  /** The `<any>` step leaves no `<any>`. */
  lemma {:induction false} TypeArgStepClears(s: string)
    ensures !Contains(FixStep(AnyTypeRule(6), s), "<any>")
  {
    if Search(AnyTypeRule(6), s) {
      TypeArgFacts();
      forall j | 0 <= j < |s| && StartsAt(s, "<any>", j) ensures Hit(AnyTypeRule(6), s, j).Some? {
        LiteralHits("<any>", "<unknown>", s, j);
      }
      NoneLeft(AnyTypeRule(6), "<unknown>", "<any>", s, 0);
    } else {
      LiteralNotFound("<any>", "<unknown>", s);
    }
  }

  /** One substitution run only when found. */
  function FixStep(r: Rule, s: string): string {
    if Search(r, s) then Sub(r, s).0 else s
  }

  /** The last two of eight substitutions, each run only when found. */
  lemma {:induction false} LastTwoSteps(rules: seq<Rule>, content: string)
    requires |rules| == 8
    ensures FixContent(rules, content).0 ==
            FixStep(rules[7], FixStep(rules[6], FixContent(rules[..6], content).0))
  {
    assert rules[..7][..6] == rules[..6];
  }

  /** After the eight substitutions no `<any>` is left, and so neither is `Array<any>`
      nor `Promise<any>`. */
  lemma {:induction false} NoAnyTypeArgument(content: string)
    ensures var fixed := FixContent(AnyTypeRules(), content).0;
            !Contains(fixed, "<any>") && !Contains(fixed, "Array<any>") && !Contains(fixed, "Promise<any>")
  {
    var rules := AnyTypeRules();
    LastTwoSteps(rules, content);
    var before := FixContent(rules[..6], content).0;
    TypeArgStepClears(before);
    AsAnyKeepsNone(FixStep(AnyTypeRule(6), before));
    var fixed := FixContent(rules, content).0;
    GenericsHoldTypeArg();
    if Contains(fixed, "Array<any>") {
      ContainsWithin(fixed, "Array<any>", "<any>");
    }
    if Contains(fixed, "Promise<any>") {
      ContainsWithin(fixed, "Promise<any>", "<any>");
    }
  }

  /** `Array<any>` and `Promise<any>` both contain `<any>`. */
  lemma GenericsHoldTypeArg()
    ensures Contains("Array<any>", "<any>") && Contains("Promise<any>", "<any>")
  {
    assert StartsAt("Array<any>", "<any>", 5);
    assert StartsAt("Promise<any>", "<any>", 7);
  }

  // ---------------------------------------------------------------------------
  // A second run

  /** For each substitution, the index of one of its plain-text atoms that holds `any`,
      and that atom's text. */
  function AnyLit(k: nat): (nat, string)
    requires k < 8
  {
    match k
    case 0 => (2, "any>")
    case 1 => (2, "any[]>")
    case 2 => (0, "any[]")
    case 3 => (0, "Array<any>")
    case 4 => (0, "Promise<any>")
    case 5 => (2, "any")
    case 6 => (0, "<any>")
    case 7 => (2, "any")
  }

  /** Every match of substitution k covers its `any` text. */
  lemma HitHoldsLit(k: nat, s: string, i: nat)
    requires k < 8 && i <= |s| && Hit(AnyTypeRule(k), s, i).Some?
    ensures Contains(s, AnyLit(k).1)
  {
    var r := AnyTypeRule(k);
    var v := Hit(r, s, i).value;
    var m := AnyLit(k).0;
    var t := AnyLit(k).1;
    assert m < |r.atoms| && r.atoms[m] == One(Lit(t));
    LitInTrace(r.atoms, s, v, m, t);
    var at: nat := v[m];
    assert StartsAt(s, t, at);
  }

  /** Each `any` text holds `any`. */
  lemma LitHoldsAny(k: nat)
    requires k < 8
    ensures Contains(AnyLit(k).1, "any")
  {
    var t := AnyLit(k).1;
    var off: nat := if k == 3 then 6 else if k == 4 then 8 else if k == 6 then 1 else 0;
    AnyLetters(t, off);
  }

  /** A substitution does not find its pattern in a text without its `any` text. */
  lemma NoLitNoSearch(k: nat, s: string)
    requires k < 8 && !Contains(s, AnyLit(k).1)
    ensures !Search(AnyTypeRule(k), s)
  {
    if Search(AnyTypeRule(k), s) {
      HitHoldsLit(k, s, FindFrom(AnyTypeRule(k), s, 0).value);
    }
  }

  /** In a text without `any`, none of the eight substitutions finds its pattern. */
  lemma NoAnyNoSearch(k: nat, s: string)
    requires k < 8 && !Contains(s, "any")
    ensures !Search(AnyTypeRule(k), s)
  {
    if Search(AnyTypeRule(k), s) {
      HitHoldsLit(k, s, FindFrom(AnyTypeRule(k), s, 0).value);
      LitHoldsAny(k);
      ContainsWithin(s, AnyLit(k).1, "any");
    }
  }

  /** The first n + 1 steps are the first n and then step n, run only when found. */
  lemma FixContentPrefix(rules: seq<Rule>, content: string, n: nat)
    requires n < |rules|
    ensures FixContent(rules[..n + 1], content) ==
            var prev := FixContent(rules[..n], content);
            if Search(rules[n], prev.0) then (Sub(rules[n], prev.0).0, true) else prev
  {
    assert rules[..n + 1][..n] == rules[..n];
    assert rules[..n + 1][n] == rules[n];
  }

  /** Steps that find nothing leave the text and the flag as they were. */
  lemma {:induction false} FixContentSkips(rules: seq<Rule>, content: string, a: nat, b: nat)
    requires a <= b <= |rules|
    requires forall k :: a <= k < b ==> !Search(rules[k], FixContent(rules[..a], content).0)
    ensures FixContent(rules[..b], content) == FixContent(rules[..a], content)
    decreases b - a
  {
    if a < b {
      FixContentPrefix(rules, content, a);
      FixContentSkips(rules, content, a + 1, b);
    }
  }

  /** A text without `any` is left as it is and not marked modified. */
  lemma NoAnyUntouched(s: string)
    requires !Contains(s, "any")
    ensures FixContent(AnyTypeRules(), s) == (s, false)
  {
    var rules := AnyTypeRules();
    forall k | 0 <= k < 8 ensures !Search(rules[k], FixContent(rules[..0], s).0) {
      NoAnyNoSearch(k, s);
    }
    FixContentSkips(rules, s, 0, 8);
    assert rules[..8] == rules;
  }

  /** Running the rewriter again on its own output finds nothing and marks nothing,
      whenever the first run left no `any` in the text. */
  lemma AnyFixIdempotent(content: string)
    requires !Contains(FixContent(AnyTypeRules(), content).0, "any")
    ensures var once := FixContent(AnyTypeRules(), content).0;
            FixContent(AnyTypeRules(), once) == (once, false)
  {
    NoAnyUntouched(FixContent(AnyTypeRules(), content).0);
  }

  /** After the colon and its blank, `any\b` matches up to the end of `x: any`. */
  lemma WordAnyAtEnd()
    ensures MatchAt(AnyWord(), "x: any", 3) == Some([3, 6, 6])
  {
    var s := "x: any";
    var p3: seq<Atom> := [One(Boundary)];
    var p2: seq<Atom> := AnyWord();
    assert p3[1..] == [] && p2[1..] == p3;
    assert AtomEnds(p3[0], s, 6) == [6];
    assert MatchAt(p3[1..], s, 6) == Some([6]);
    assert [6] + [6] == [6, 6];
    assert TryEnds([6], p3, s, 6) == Some([6, 6]);
    assert s[3..6] == "any";
    assert AtomEnds(p2[0], s, 3) == [6];
    assert [3] + [6, 6] == [3, 6, 6];
    assert TryEnds([6], p2, s, 3) == Some([3, 6, 6]);
  }

  /** From the blank, `\s*any\b` matches up to the end of `x: any`. */
  lemma SpacesAnyAtEnd()
    ensures MatchAt([Spaces] + AnyWord(), "x: any", 2) == Some([2, 3, 6, 6])
  {
    var s := "x: any";
    var p1: seq<Atom> := [Spaces] + AnyWord();
    assert p1[1..] == AnyWord();
    WordAnyAtEnd();
    assert RunEnd(Space, s, 3) == 3;
    assert RunEnd(Space, s, 2) == 3;
    assert AtomEnds(p1[0], s, 2) == [3, 2];
    assert [2] + [3, 6, 6] == [2, 3, 6, 6];
    assert TryEnds([3, 2], p1, s, 2) == Some([2, 3, 6, 6]);
  }

  /** `:\s*any\b` matches `x: any` at the colon, up to the end. */
  lemma ColonAnyHit()
    ensures Hit(AnyTypeRule(5), "x: any", 1) == Some([1, 2, 3, 6, 6])
  {
    var s := "x: any";
    var p1: seq<Atom> := [Spaces] + AnyWord();
    var p0: seq<Atom> := [Exactly(":")] + p1;
    assert AnyTypeRule(5).atoms == p0;
    assert p0[1..] == p1;
    SpacesAnyAtEnd();
    assert AtomEnds(p0[0], s, 1) == [2];
    MatchAtSingleEnd(p0, s, 1, 2, [2, 3, 6, 6]);
    assert [1] + [2, 3, 6, 6] == [1, 2, 3, 6, 6];
  }

  /** `:\s*any\b` does not match `x: any` at its first character. */
  lemma ColonAnyMiss()
    ensures Hit(AnyTypeRule(5), "x: any", 0) == None
  {
    var r := AnyTypeRule(5);
    var s := "x: any";
    assert r.atoms[0] == Exactly(":");
    assert s[0..1][0] == 'x';
    assert AtomEnds(r.atoms[0], s, 0) == [];
  }

  /** From the colon on, `x: any` becomes `: unknown`, with one replacement. */
  lemma ColonAnyRest()
    ensures SubFrom(AnyTypeRule(5), "x: any", 1) == (": unknown", 1)
  {
    var r := AnyTypeRule(5);
    ColonAnyHit();
    assert |r.atoms| == 4 && Replaces(r, ": unknown");
    SubFromLastHit(r, ": unknown", "x: any", 1, [1, 2, 3, 6, 6]);
  }

  /** A match with a fixed replacement that runs to the end of the text is the last
      replacement. */
  lemma SubFromLastHit(r: Rule, u: string, s: string, i: nat, v: seq<nat>)
    requires i < |s| && Hit(r, s, i) == Some(v) && Replaces(r, u)
    requires |v| == |r.atoms| + 1 && v[|r.atoms|] == |s|
    ensures SubFrom(r, s, i) == (u, 1)
  {
    SubFromHit(r, s, i, v);
    ReplacementIs(r, u, s, v);
    assert u + [] == u;
  }

  /** `:\s*any\b` on `x: any` matches once, at the colon. */
  lemma ColonAnyMatch()
    ensures Sub(AnyTypeRule(5), "x: any") == ("x: unknown", 1)
  {
    ColonAnyWhole();
  }

  lemma ColonAnyWhole()
    ensures SubFrom(AnyTypeRule(5), "x: any", 0) == ("x: unknown", 1)
  {
    var r := AnyTypeRule(5);
    var s := "x: any";
    ColonAnyMiss();
    ColonAnyRest();
    SubFromMiss(r, s, 0);
    assert s[0] == 'x';
    KeptFirst();
  }

  lemma KeptFirst()
    ensures ['x'] + ": unknown" == "x: unknown"
  {
  }

  /** The five steps before `:\s*any\b` find nothing in `x: any`. */
  lemma EarlyStepsMiss(k: nat)
    requires k < 5
    ensures !Search(AnyTypeRule(k), "x: any")
  {
    var s := "x: any";
    var t := AnyLit(k).1;
    assert forall j :: 0 <= j < |s| && j != 3 ==> s[j] != 'a';
    assert t[0] in "aAP" && |t| >= 4;
    NoFirstChar(s, t);
    NoLitNoSearch(k, s);
  }

  lemma NoAnyInUnknown()
    ensures !Contains("x: unknown", "any")
  {
    var t := "x: unknown";
    assert forall j :: 0 <= j < |t| ==> t[j] != 'a';
    NoFirstChar(t, "any");
  }

  /** The first six steps on `x: any`: only `:\s*any\b` finds its pattern. */
  lemma ColonAnyFirstSix()
    ensures FixContent(AnyTypeRules()[..6], "x: any") == ("x: unknown", true)
  {
    var rules := AnyTypeRules();
    var s := "x: any";
    assert FixContent(rules[..0], s) == (s, false);
    forall k | 0 <= k < 5 ensures !Search(rules[k], FixContent(rules[..0], s).0) {
      EarlyStepsMiss(k);
    }
    FixContentSkips(rules, s, 0, 5);
    ColonAnyMatch();
    ColonAnyHit();
    assert Search(rules[5], s);
    FixContentPrefix(rules, s, 5);
  }

  /** The worked case: `x: any` becomes `x: unknown` on the first run, which the
      second run leaves unchanged and unmarked. */
  lemma ColonAnyTwice()
    ensures FixContent(AnyTypeRules(), "x: any") == ("x: unknown", true)
    ensures FixContent(AnyTypeRules(), "x: unknown") == ("x: unknown", false)
  {
    var rules := AnyTypeRules();
    var s := "x: any";
    var t := "x: unknown";
    ColonAnyFirstSix();
    NoAnyInUnknown();
    forall k | 6 <= k < 8 ensures !Search(rules[k], FixContent(rules[..6], s).0) {
      NoAnyNoSearch(k, t);
    }
    FixContentSkips(rules, s, 6, 8);
    assert rules[..8] == rules;
    NoAnyUntouched(t);
  }

  // ---------------------------------------------------------------------------
  // The walk

  /** The walk over the files: the files afterwards and the paths of the files written.
      It is stated for any list of substitutions; `fix_any_types` uses `AnyTypeRules()`. */
  function FixAnyFiles(files: seq<SourceFile>, rules: seq<Rule>): (r: (seq<SourceFile>, set<string>))
    ensures |r.0| == |files|
  {
    if files == [] then ([], {})
    else
      var prev := FixAnyFiles(files[..|files| - 1], rules);
      var f := files[|files| - 1];
      if !EndsWith(f.name, ".ts") then (prev.0 + [f], prev.1)
      else
        var fixed := FixContent(rules, f.content);
        if fixed.1 then (prev.0 + [f.(content := fixed.0)], prev.1 + {JoinPath(f.root, f.name)})
        else (prev.0 + [f], prev.1)
  }

  /** File k is a `.ts` file one of whose substitutions found its pattern. */
  predicate Modified(files: seq<SourceFile>, rules: seq<Rule>, k: nat)
    requires k < |files|
  {
    EndsWith(files[k].name, ".ts") && FixContent(rules, files[k].content).1
  }

  /** Each file keeps its place, and takes its rewritten text exactly when it is modified. */
  lemma {:induction false} FixAnyFilesContents(files: seq<SourceFile>, rules: seq<Rule>)
    ensures var after := FixAnyFiles(files, rules).0;
            forall k :: 0 <= k < |files| ==>
              after[k] == if Modified(files, rules, k) then files[k].(content := FixContent(rules, files[k].content).0)
                          else files[k]
  {
    if files != [] {
      var n := |files| - 1;
      var init := files[..n];
      FixAnyFilesContents(init, rules);
      var prev := FixAnyFiles(init, rules).0;
      var after := FixAnyFiles(files, rules).0;
      assert after[..n] == prev;
      forall k | 0 <= k < n
        ensures after[k] == if Modified(files, rules, k) then files[k].(content := FixContent(rules, files[k].content).0)
                            else files[k]
      {
        assert init[k] == files[k];
        assert after[k] == prev[k];
        assert Modified(init, rules, k) == Modified(files, rules, k);
      }
    }
  }

  /** A path is reported exactly when some file with that path is modified. */
  lemma {:induction false} FixAnyFilesWritten(files: seq<SourceFile>, rules: seq<Rule>, path: string)
    ensures path in FixAnyFiles(files, rules).1 <==>
            exists k :: 0 <= k < |files| && Modified(files, rules, k) && JoinPath(files[k].root, files[k].name) == path
  {
    if files != [] {
      var n := |files| - 1;
      var init := files[..n];
      FixAnyFilesWritten(init, rules, path);
      if path in FixAnyFiles(files, rules).1 && path !in FixAnyFiles(init, rules).1 {
        assert Modified(files, rules, n);
      }
      if path in FixAnyFiles(init, rules).1 {
        var k :| 0 <= k < n && Modified(init, rules, k) && JoinPath(init[k].root, init[k].name) == path;
        assert init[k] == files[k];
        assert Modified(files, rules, k);
      }
      if exists k :: 0 <= k < |files| && Modified(files, rules, k) && JoinPath(files[k].root, files[k].name) == path {
        var k :| 0 <= k < |files| && Modified(files, rules, k) && JoinPath(files[k].root, files[k].name) == path;
        if k < n {
          assert init[k] == files[k];
          assert Modified(init, rules, k);
        }
      }
    }
  }

  /** One `.ts` file's eight steps, as the script runs them. */
  method FixText(content: string, rules: seq<Rule>) returns (modifiedContent: string, fileModified: bool)
    ensures (modifiedContent, fileModified) == FixContent(rules, content)
  {
    modifiedContent := content;
    fileModified := false;
    for k := 0 to |rules|
      invariant (modifiedContent, fileModified) == FixContent(rules[..k], content)
    {
      assert rules[..k + 1][..k] == rules[..k];
      var pattern := rules[k];
      if Search(pattern, modifiedContent) {
        modifiedContent := Sub(pattern, modifiedContent).0;
        fileModified := true;
      }
    }
    assert rules[..|rules|] == rules;
  }

  /** The loop over the files of the walk. */
  method WalkFiles(files: seq<SourceFile>, rules: seq<Rule>) returns (after: seq<SourceFile>, filesModified: set<string>)
    ensures (after, filesModified) == FixAnyFiles(files, rules)
  {
    after := [];
    filesModified := {};
    for i := 0 to |files|
      invariant (after, filesModified) == FixAnyFiles(files[..i], rules)
    {
      assert files[..i + 1][..i] == files[..i];
      var f := files[i];
      if !EndsWith(f.name, ".ts") {
        after := after + [f];
        continue;
      }
      var filePath := JoinPath(f.root, f.name);
      var modifiedContent, fileModified := FixText(f.content, rules);
      if fileModified {
        after := after + [f.(content := modifiedContent)];
        filesModified := filesModified + {filePath};
      } else {
        after := after + [f];
      }
    }
    assert files[..|files|] == files;
  }

  /** `fix_any_types` over the files of the walk: the files afterwards and the paths written. */
  method FixAnyTypesWalk(files: seq<SourceFile>) returns (after: seq<SourceFile>, filesModified: set<string>)
    ensures (after, filesModified) == FixAnyFiles(files, AnyTypeRules())
  {
    after, filesModified := WalkFiles(files, AnyTypeRules());
  }
}
