/**
 * `resolveVerseFromSpeech`: a recognised utterance is lower-cased, its
 * spoken ordinals are rewritten as digits, and it must end in
 * "chapter N" (optionally followed by "verse M"); the book phrase before
 * that and the numbers are then handed to `resolveVerse` as typed text.
 */
module SpeechQuery {
  import opened Wrappers
  import opened Text
  import opened CanonTables
  import opened VerseQuery
  import opened ResolveVerse

  // ---------------------------------------------------------------------
  // Ordinal rewriting
  // ---------------------------------------------------------------------

  /** An occurrence of `a` or of `b` starts at position `i` of `s`. */
  predicate OccursAt(s: string, i: nat, a: string, b: string)
    requires i <= |s|
  {
    StartsWith(s[i..], a) || StartsWith(s[i..], b)
  }

  /**
   * `replace(/a|b/g, rep)`: scan from the left; where `a` (tried first) or
   * `b` starts, emit `rep` and resume after the occurrence, otherwise keep
   * the character and move on by one.
   */
  function ReplaceEither(s: string, a: string, b: string, rep: string): (r: string)
    requires a != [] && b != []
    ensures |rep| <= |a| && |rep| <= |b| ==> |r| <= |s|
    decreases |s|
  {
    if s == [] then []
    else if StartsWith(s, a) then rep + ReplaceEither(s[|a|..], a, b, rep)
    else if StartsWith(s, b) then rep + ReplaceEither(s[|b|..], a, b, rep)
    else [s[0]] + ReplaceEither(s[1..], a, b, rep)
  }

  /** An occurrence anywhere makes a shortening replacement shorten the text. */
  lemma {:induction false} ReplaceEitherShortens(s: string, a: string, b: string, rep: string, i: nat)
    requires a != [] && b != [] && |rep| < |a| && |rep| < |b|
    requires i <= |s| && OccursAt(s, i, a, b)
    ensures |ReplaceEither(s, a, b, rep)| < |s|
    decreases i
  {
    if !OccursAt(s, 0, a, b) {
      assert s[1..][i - 1..] == s[i..];
      ReplaceEitherShortens(s[1..], a, b, rep, i - 1);
    }
  }

  lemma {:induction false} ReplaceEitherKeeps(s: string, a: string, b: string, rep: string)
    requires a != [] && b != []
    requires forall i | 0 <= i <= |s| :: !OccursAt(s, i, a, b)
    ensures ReplaceEither(s, a, b, rep) == s
    decreases |s|
  {
    if s != [] {
      assert !OccursAt(s, 0, a, b);
      forall i | 0 <= i <= |s| - 1 ensures !OccursAt(s[1..], i, a, b) {
        assert s[1..][i..] == s[i + 1..];
        assert !OccursAt(s, i + 1, a, b);
      }
      ReplaceEitherKeeps(s[1..], a, b, rep);
    }
  }

  /** A shortening replacement leaves the text unchanged exactly when neither word occurs in it. */
  lemma ReplaceEitherUnchanged(s: string, a: string, b: string, rep: string)
    requires a != [] && b != [] && |rep| < |a| && |rep| < |b|
    ensures ReplaceEither(s, a, b, rep) == s <==> forall i | 0 <= i <= |s| :: !OccursAt(s, i, a, b)
  {
    if forall i | 0 <= i <= |s| :: !OccursAt(s, i, a, b) {
      ReplaceEitherKeeps(s, a, b, rep);
    } else {
      var i :| 0 <= i <= |s| && OccursAt(s, i, a, b);
      ReplaceEitherShortens(s, a, b, rep, i);
    }
  }

  /** Text holding neither word's first character passes through unchanged, whatever follows it. */
  lemma {:induction false} ReplaceEitherSkips(x: string, y: string, a: string, b: string, rep: string)
    requires a != [] && b != []
    requires a[0] !in x && b[0] !in x
    ensures ReplaceEither(x + y, a, b, rep) == x + ReplaceEither(y, a, b, rep)
    decreases |x|
  {
    if x != [] {
      assert (x + y)[0] == x[0];
      assert (x + y)[1..] == x[1..] + y;
      assert x[0] in x;
      assert forall c | c in x[1..] :: c in x;
      ReplaceEitherSkips(x[1..], y, a, b, rep);
    } else {
      assert x + y == y;
    }
  }

  /**
   * The first occurrence is rewritten: text in which no occurrence starts
   * before `y`, and `y` starting with `a` or `b`, becomes that text, `rep`
   * in place of the occurrence (`a` when both fit, since `a` is tried
   * first), and the rewrite of what follows.
   */
  lemma {:induction false} ReplaceEitherRewrites(x: string, y: string, a: string, b: string, rep: string)
    requires a != [] && b != []
    requires forall i | 0 <= i < |x| :: !OccursAt(x + y, i, a, b)
    requires OccursAt(y, 0, a, b)
    ensures var n := if StartsWith(y, a) then |a| else |b|;
      ReplaceEither(x + y, a, b, rep) == x + rep + ReplaceEither(y[n..], a, b, rep)
    decreases |x|
  {
    if x == [] {
      ReplaceEitherAtOccurrence(x, y, a, b, rep);
    } else {
      var n := if StartsWith(y, a) then |a| else |b|;
      NoOccurrenceAtStart(x, y, a, b, rep);
      ReplaceEitherRewrites(x[1..], y, a, b, rep);
      ConsRegroup(x, rep, ReplaceEither(y[n..], a, b, rep));
    }
  }

  /** At an occurrence, the replacement emits `rep` and goes on after the occurrence. */
  lemma ReplaceEitherAtOccurrence(x: string, y: string, a: string, b: string, rep: string)
    requires x == [] && a != [] && b != [] && OccursAt(y, 0, a, b)
    ensures var n := if StartsWith(y, a) then |a| else |b|;
      ReplaceEither(x + y, a, b, rep) == x + rep + ReplaceEither(y[n..], a, b, rep)
  {
    assert y[0..] == y;
    assert x + y == y;
    assert x + rep == rep;
  }

  lemma ConsRegroup(x: string, m: string, r: string)
    requires x != []
    ensures [x[0]] + (x[1..] + m + r) == x + m + r
  {
    assert x == [x[0]] + x[1..];
  }
  /** One step along text in which no occurrence starts: the first character is kept and the rest has none either. */
  lemma NoOccurrenceAtStart(x: string, y: string, a: string, b: string, rep: string)
    requires a != [] && b != [] && x != [] && forall i | 0 <= i < |x| :: !OccursAt(x + y, i, a, b)
    ensures !StartsWith(x + y, a) && !StartsWith(x + y, b) && x + y != []
    ensures (x + y)[0] == x[0] && (x + y)[1..] == x[1..] + y
    ensures forall i | 0 <= i < |x| - 1 :: !OccursAt(x[1..] + y, i, a, b)
    ensures ReplaceEither(x + y, a, b, rep) == [x[0]] + ReplaceEither(x[1..] + y, a, b, rep)
  {
    assert !OccursAt(x + y, 0, a, b);
    assert (x + y)[0..] == x + y;
    forall i | 0 <= i < |x| - 1 ensures !OccursAt(x[1..] + y, i, a, b) {
      assert (x[1..] + y)[i..] == (x + y)[i + 1..];
      assert !OccursAt(x + y, i + 1, a, b);
    }
  }

  /** A digit followed by "th" starts at position `i`. */
  predicate OrdinalAt(s: string, i: nat) {
    i + 3 <= |s| && IsDigit(s[i]) && s[i + 1] == 't' && s[i + 2] == 'h'
  }

  /** `replace(/(\d)th/g, "$1")`: every digit followed by "th" keeps the digit and loses the "th". */
  function DropOrdinalSuffix(s: string): (r: string)
    ensures |r| <= |s|
    decreases |s|
  {
    if s == [] then []
    else if OrdinalAt(s, 0) then [s[0]] + DropOrdinalSuffix(s[3..])
    else [s[0]] + DropOrdinalSuffix(s[1..])
  }

  lemma {:induction false} DropOrdinalSuffixShortens(s: string, i: nat)
    requires OrdinalAt(s, i)
    ensures |DropOrdinalSuffix(s)| < |s|
    decreases i
  {
    if !OrdinalAt(s, 0) {
      assert OrdinalAt(s[1..], i - 1);
      DropOrdinalSuffixShortens(s[1..], i - 1);
    }
  }

  lemma {:induction false} DropOrdinalSuffixKeeps(s: string)
    requires forall i | 0 <= i < |s| :: !OrdinalAt(s, i)
    ensures DropOrdinalSuffix(s) == s
    decreases |s|
  {
    if s != [] {
      assert !OrdinalAt(s, 0);
      forall i | 0 <= i < |s| - 1 ensures !OrdinalAt(s[1..], i) {
        assert !OrdinalAt(s, i + 1);
      }
      DropOrdinalSuffixKeeps(s[1..]);
    }
  }

  /** The rewrite leaves the text unchanged exactly when no digit in it is followed by "th". */
  lemma DropOrdinalSuffixUnchanged(s: string)
    ensures DropOrdinalSuffix(s) == s <==> forall i | 0 <= i < |s| :: !OrdinalAt(s, i)
  {
    if forall i | 0 <= i < |s| :: !OrdinalAt(s, i) {
      DropOrdinalSuffixKeeps(s);
    } else {
      var i :| 0 <= i < |s| && OrdinalAt(s, i);
      DropOrdinalSuffixShortens(s, i);
    }
  }

  /** Text without digits passes through unchanged, whatever follows it. */
  lemma {:induction false} DropOrdinalSuffixSkips(x: string, y: string)
    requires forall c | c in x :: !IsDigit(c)
    ensures DropOrdinalSuffix(x + y) == x + DropOrdinalSuffix(y)
    decreases |x|
  {
    if x != [] {
      assert (x + y)[0] == x[0];
      assert x[0] in x;
      assert (x + y)[1..] == x[1..] + y;
      assert forall c | c in x[1..] :: c in x;
      DropOrdinalSuffixSkips(x[1..], y);
    } else {
      assert x + y == y;
    }
  }

  /**
   * The first digit followed by "th" loses the "th": text with no such
   * digit before `y`, and `y` starting with one, keeps its text and the
   * digit and goes on with the rewrite after the "th".
   */
  lemma {:induction false} DropOrdinalSuffixRewrites(x: string, y: string)
    requires forall i | 0 <= i < |x| :: !OrdinalAt(x + y, i)
    requires OrdinalAt(y, 0)
    ensures DropOrdinalSuffix(x + y) == x + [y[0]] + DropOrdinalSuffix(y[3..])
    decreases |x|
  {
    if x == [] {
      assert x + y == y;
    } else {
      assert !OrdinalAt(x + y, 0);
      assert (x + y)[0] == x[0];
      assert (x + y)[1..] == x[1..] + y;
      forall i | 0 <= i < |x| - 1 ensures !OrdinalAt(x[1..] + y, i) {
        assert !OrdinalAt(x + y, i + 1);
      }
      DropOrdinalSuffixRewrites(x[1..], y);
    }
  }

  /** The normalisation chain: lower-case, then the three ordinal-word rewrites, then the digit-"th" rewrite. */
  function Normalize(speech: string): (r: string)
    ensures |r| <= |speech|
  {
    var lower := Lower(speech);
    var first := ReplaceEither(lower, "1st", "first", "1");
    var second := ReplaceEither(first, "2nd", "second", "2");
    var third := ReplaceEither(second, "3rd", "third", "3");
    DropOrdinalSuffix(third)
  }

  // ---------------------------------------------------------------------
  // The pattern /^(.*?)\s*(?:chapter\s+(\d+))(?:\s+verse\s+(\d+))?$/i
  // ---------------------------------------------------------------------

  /** `\s+verse\s+(\d+)$` against the whole of `x`: the verse number. */
  function MatchVerseClause(x: string): (r: Option<string>)
    ensures r.Some? ==> r.value != [] && AllDigits(r.value)
  {
    var e := Span(x, IsSpace);
    var y := x[e..];
    if e == 0 || !StartsWith(y, "verse") then None
    else
      var z := y[5..];
      var f := Span(z, IsSpace);
      var digits := z[f..];
      if f == 0 || digits == [] || !AllDigits(digits) then None else Some(digits)
  }

  /** `(\d+)(?:\s+verse\s+(\d+))?$` against the whole of `w`. */
  function MatchNumbers(w: string): (r: Option<(string, Option<string>)>)
    ensures r.Some? ==> r.value.0 != [] && AllDigits(r.value.0)
    ensures r.Some? && r.value.1.Some? ==> r.value.1.value != [] && AllDigits(r.value.1.value)
  {
    var d := Span(w, IsDigit);
    if d == 0 then None
    else if d == |w| then Some((w, None))
    else match MatchVerseClause(w[d..])
      case None => None
      case Some(verse) => Some((w[..d], Some(verse)))
  }

  /**
   * `\s*chapter\s+(\d+)(?:\s+verse\s+(\d+))?$` against the whole of `t`:
   * the chapter number and, when the verse clause is present, the verse
   * number. Every run is greedy and no backtracking can help: what follows
   * each run cannot start with a character of the run.
   */
  function MatchClause(t: string): (r: Option<(string, Option<string>)>)
    ensures r.Some? ==> r.value.0 != [] && AllDigits(r.value.0)
    ensures r.Some? && r.value.1.Some? ==> r.value.1.value != [] && AllDigits(r.value.1.value)
  {
    var a := Span(t, IsSpace);
    if !StartsWith(t[a..], "chapter") then None
    else
      var v := t[a + 7..];
      var g := Span(v, IsSpace);
      if g == 0 then None else MatchNumbers(v[g..])
  }

  /** A verse clause has no 'c': it consists of white space, the letters of "verse" and digits. */
  lemma VerseClauseHasNoC(x: string)
    requires MatchVerseClause(x).Some?
    ensures forall i | 0 <= i < |x| :: x[i] != 'c'
  {
    var before, after := VerseClauseParts(x);
    VersePiecesHaveNoC(before, after, MatchVerseClause(x).value);
  }

  lemma VersePiecesHaveNoC(before: string, after: string, vs: string)
    requires AllSpaces(before) && AllSpaces(after) && AllDigits(vs)
    ensures 'c' !in before + "verse" + after + vs
  {
    assert 'c' !in before && 'c' !in after && 'c' !in vs && 'c' !in "verse";
  }

  /** The numbers and an optional verse clause have no 'c'. */
  lemma NumbersHaveNoC(w: string)
    requires MatchNumbers(w).Some?
    ensures forall i | 0 <= i < |w| :: w[i] != 'c'
  {
    var d := Span(w, IsDigit);
    if d < |w| {
      var x := w[d..];
      VerseClauseHasNoC(x);
      forall i | d <= i < |w| ensures w[i] != 'c' {
        assert w[i] == x[i - d];
      }
    }
  }

  lemma ChapterHasOneC(k: int)
    requires 0 <= k < 7 && "chapter"[k] == 'c'
    ensures k == 0
  {
    var w := "chapter";
    assert w[1] == 'h' && w[2] == 'a' && w[3] == 'p' && w[4] == 't' && w[5] == 'e' && w[6] == 'r';
  }

  /** In a text the clause matches, the only 'c' is the first letter of "chapter". */
  lemma ClauseHasOneC(t: string)
    requires MatchClause(t).Some?
    ensures Span(t, IsSpace) < |t| && t[Span(t, IsSpace)] == 'c'
    ensures forall i | 0 <= i < |t| && t[i] == 'c' :: i == Span(t, IsSpace)
  {
    var a, g, w := ClauseSplit(t);
    assert t[a] == t[a..][..7][0];
    var v := t[a + 7..];
    NumbersHaveNoC(w);
    forall i | 0 <= i < |t| && i != a ensures t[i] != 'c' {
      if i < a {
        assert IsSpace(t[i]);
      } else if i < a + 7 {
        assert t[i] == t[a..][..7][i - a];
        if "chapter"[i - a] == 'c' {
          ChapterHasOneC(i - a);
        }
      } else if i < a + 7 + g {
        assert IsSpace(v[i - a - 7]);
      } else {
        assert v[g..][i - a - 7 - g] == t[i];
      }
    }
  }

  /** A run of white space before a character outside `\s` is exactly what `\s*` takes. */
  lemma SpacesThen(sp: string, rest: string)
    requires AllSpaces(sp) && rest != [] && !IsSpace(rest[0])
    ensures Span(sp + rest, IsSpace) == |sp| && (sp + rest)[|sp|..] == rest
  {
    SpanUnique(sp + rest, IsSpace, |sp|);
  }

  /** After white space, "chapter" and white space, the clause is decided by the numbers that follow. */
  lemma MatchClauseOfNumbers(lead: string, gap: string, w: string)
    requires AllSpaces(lead) && gap != [] && AllSpaces(gap) && w != [] && IsDigit(w[0])
    ensures MatchClause(lead + "chapter" + gap + w) == MatchNumbers(w)
  {
    ChapterAfterLead(lead, gap + w);
    assert lead + "chapter" + gap + w == lead + "chapter" + (gap + w);
    SpacesThen(gap, w);
  }

  /** `\s*` takes exactly the leading white space, and "chapter" and the rest follow it. */
  lemma ChapterAfterLead(lead: string, v: string)
    requires AllSpaces(lead)
    ensures var t := lead + "chapter" + v;
      Span(t, IsSpace) == |lead| && StartsWith(t[|lead|..], "chapter") && t[|lead| + 7..] == v
  {
    var u := "chapter" + v;
    assert lead + "chapter" + v == lead + u;
    SpacesThen(lead, u);
    assert u[..7] == "chapter";
    assert u[7..] == v;
  }

  /** White space, "chapter", white space and a number: the clause without a verse. */
  lemma MatchClauseChapter(lead: string, gap: string, chapter: string)
    requires AllSpaces(lead) && gap != [] && AllSpaces(gap) && chapter != [] && AllDigits(chapter)
    ensures MatchClause(lead + "chapter" + gap + chapter) == Some((chapter, None))
  {
    MatchClauseOfNumbers(lead, gap, chapter);
    SpanUnique(chapter, IsDigit, |chapter|);
  }

  /** The verse clause on its own: white space, "verse", white space and a number. */
  lemma MatchVerseClauseOf(gap: string, gap': string, verse: string)
    requires gap != [] && AllSpaces(gap) && gap' != [] && AllSpaces(gap') && verse != [] && AllDigits(verse)
    ensures MatchVerseClause(gap + "verse" + gap' + verse) == Some(verse)
  {
    var x := gap + "verse" + gap' + verse;
    SpanUnique(x, IsSpace, |gap|);
    assert x[|gap|..][..5] == "verse";
    var z := x[|gap| + 5..];
    assert z == gap' + verse;
    SpanUnique(z, IsSpace, |gap'|);
    assert z[|gap'|..] == verse;
  }

  lemma MatchNumbersThenVerse(chapter: string, x: string)
    requires chapter != [] && AllDigits(chapter) && MatchVerseClause(x).Some?
    ensures MatchNumbers(chapter + x) == Some((chapter, MatchVerseClause(x)))
  {
    var w := chapter + x;
    assert Span(x, IsSpace) > 0;
    SpanUnique(w, IsDigit, |chapter|);
    assert w[..|chapter|] == chapter;
    assert w[|chapter|..] == x;
  }

  /** White space, "chapter", white space, a number, then a verse clause: the clause with a verse. */
  lemma MatchClauseChapterVerse(lead: string, gap: string, chapter: string, gap': string, gap'': string, verse: string)
    requires AllSpaces(lead) && gap != [] && AllSpaces(gap) && chapter != [] && AllDigits(chapter)
    requires gap' != [] && AllSpaces(gap') && gap'' != [] && AllSpaces(gap'') && verse != [] && AllDigits(verse)
    ensures MatchClause(lead + "chapter" + gap + (chapter + (gap' + "verse" + gap'' + verse))) == Some((chapter, Some(verse)))
  {
    var x := gap' + "verse" + gap'' + verse;
    MatchVerseClauseOf(gap', gap'', verse);
    MatchNumbersThenVerse(chapter, x);
    MatchClauseOfNumbers(lead, gap, chapter + x);
  }

  /** The white-space runs of a clause: before "chapter", after it, and around "verse" when a verse is spoken. */
  datatype ClauseGaps = ClauseGaps(lead: string, gap: string, beforeVerse: string, afterVerse: string)

  /** The text after "chapter" and its white space: the chapter digits, then the verse clause if a verse is spoken. */
  function NumbersText(chapter: string, verse: Option<string>, beforeVerse: string, afterVerse: string): string {
    match verse
    case None => chapter
    case Some(vs) => chapter + (beforeVerse + "verse" + afterVerse + vs)
  }

  function ClauseText(g: ClauseGaps, chapter: string, verse: Option<string>): string {
    g.lead + "chapter" + g.gap + NumbersText(chapter, verse, g.beforeVerse, g.afterVerse)
  }

  /** `\s*` before "chapter", `\s+` after each word and `(\d+)` for each number. */
  predicate ClauseFits(g: ClauseGaps, chapter: string, verse: Option<string>) {
    && AllSpaces(g.lead) && g.gap != [] && AllSpaces(g.gap) && chapter != [] && AllDigits(chapter)
    && match verse
       case None => true
       case Some(vs) =>
         g.beforeVerse != [] && AllSpaces(g.beforeVerse) && g.afterVerse != [] && AllSpaces(g.afterVerse)
         && vs != [] && AllDigits(vs)
  }

  /**
   * The whole of `t` is white space, "chapter", white space and the chapter
   * digits, followed, when a verse is spoken, by white space, "verse", white
   * space and the verse digits.
   */
  ghost predicate ClauseShape(t: string, chapter: string, verse: Option<string>) {
    exists g :: ClauseFits(g, chapter, verse) && t == ClauseText(g, chapter, verse)
  }

  /** A string is its prefix followed by the rest. */
  lemma Rejoin(s: string, k: nat)
    requires k <= |s|
    ensures s == s[..k] + s[k..]
  {
  }

  /** A string that starts with a word is the word followed by the rest. */
  lemma WordThen(y: string, word: string)
    requires StartsWith(y, word)
    ensures y == word + y[|word|..]
  {
    Rejoin(y, |word|);
  }

  lemma Regroup4(a: string, b: string, c: string, d: string)
    ensures a + (b + (c + d)) == a + b + c + d
  {
  }

  /** The white-space runs around "verse" in a verse clause the matcher accepts. */
  lemma VerseClauseParts(x: string) returns (before: string, after: string)
    requires MatchVerseClause(x).Some?
    ensures before != [] && AllSpaces(before) && after != [] && AllSpaces(after)
    ensures x == before + "verse" + after + MatchVerseClause(x).value
  {
    var e := Span(x, IsSpace);
    var y := x[e..];
    var z := y[5..];
    var f := Span(z, IsSpace);
    var vs := z[f..];
    assert MatchVerseClause(x) == Some(vs);
    before, after := x[..e], z[..f];
    Rejoin(x, e);
    WordThen(y, "verse");
    Rejoin(z, f);
    Regroup4(before, "verse", after, vs);
  }

  /** The white-space runs of the numbers part the matcher accepts. */
  lemma NumbersParts(w: string) returns (before: string, after: string)
    requires MatchNumbers(w).Some?
    ensures MatchNumbers(w).value.1.Some? ==> before != [] && AllSpaces(before) && after != [] && AllSpaces(after)
    ensures w == NumbersText(MatchNumbers(w).value.0, MatchNumbers(w).value.1, before, after)
  {
    var d := Span(w, IsDigit);
    if d == |w| {
      before, after := [], [];
    } else {
      var x := w[d..];
      assert MatchNumbers(w) == Some((w[..d], MatchVerseClause(x)));
      before, after := VerseClauseParts(x);
      Rejoin(w, d);
    }
  }

  /** Text that has "chapter" at `a` is what comes before, "chapter", a run of `k` characters and the rest. */
  lemma ChapterJoin(t: string, a: nat, k: nat)
    requires a + 7 + k <= |t| && StartsWith(t[a..], "chapter")
    ensures t == t[..a] + "chapter" + t[a + 7..][..k] + t[a + 7..][k..]
  {
    var v := t[a + 7..];
    Rejoin(t, a);
    WordThen(t[a..], "chapter");
    assert t[a..][7..] == v;
    Rejoin(v, k);
    Regroup4(t[..a], "chapter", v[..k], v[k..]);
  }

  /** After the white space that starts a clause the matcher accepts come "chapter", white space and the numbers part. */
  lemma ClauseSplit(t: string) returns (a: nat, k: nat, w: string)
    requires MatchClause(t).Some?
    ensures a == Span(t, IsSpace) && a + 7 + k <= |t| && StartsWith(t[a..], "chapter")
    ensures k == Span(t[a + 7..], IsSpace) && AllSpaces(t[..a]) && k > 0 && AllSpaces(t[a + 7..][..k])
    ensures w == t[a + 7..][k..] && MatchNumbers(w) == MatchClause(t)
    ensures t == t[..a] + "chapter" + t[a + 7..][..k] + w
  {
    a := Span(t, IsSpace);
    var v := t[a + 7..];
    k := Span(v, IsSpace);
    w := v[k..];
    ChapterJoin(t, a, k);
  }

  /** The white-space runs of a clause the matcher accepts. */
  lemma ClauseParts(t: string) returns (g: ClauseGaps)
    requires MatchClause(t).Some?
    ensures ClauseFits(g, MatchClause(t).value.0, MatchClause(t).value.1)
    ensures t == ClauseText(g, MatchClause(t).value.0, MatchClause(t).value.1)
  {
    var a, k, w := ClauseSplit(t);
    var before, after := NumbersParts(w);
    g := ClauseGaps(t[..a], t[a + 7..][..k], before, after);
  }

  /** The clause matcher accepts exactly the texts of `ClauseShape`, with exactly its numbers. */
  lemma MatchClauseSpec(t: string, chapter: string, verse: Option<string>)
    ensures MatchClause(t) == Some((chapter, verse)) <==> ClauseShape(t, chapter, verse)
  {
    if MatchClause(t) == Some((chapter, verse)) {
      var g := ClauseParts(t);
      assert ClauseFits(g, chapter, verse) && t == ClauseText(g, chapter, verse);
    }
    if ClauseShape(t, chapter, verse) {
      var g :| ClauseFits(g, chapter, verse) && t == ClauseText(g, chapter, verse);
      match verse
      case None =>
        MatchClauseChapter(g.lead, g.gap, chapter);
      case Some(vs) =>
        MatchClauseChapterVerse(g.lead, g.gap, chapter, g.beforeVerse, g.afterVerse, vs);
    }
  }

  /** What the pattern captures: the book phrase, the chapter number and the verse number if spoken. */
  datatype SpeechCaptures = SpeechCaptures(book: string, chapter: string, verse: Option<string>)

  /**
   * The lazy `(.*?)`: try ends of the book phrase from `p` upwards and stop
   * at the first from which the clause matches the rest; the phrase cannot
   * run across a line terminator.
   */
  function FindBookEnd(s: string, p: nat): (r: Option<SpeechCaptures>)
    requires p <= |s|
    ensures r.Some? ==>
      && p <= |r.value.book| <= |s| && r.value.book == s[..|r.value.book|]
      && MatchClause(s[|r.value.book|..]) == Some((r.value.chapter, r.value.verse))
    decreases |s| - p
  {
    match MatchClause(s[p..])
    case Some((chapter, verse)) => Some(SpeechCaptures(s[..p], chapter, verse))
    case None => if p == |s| || IsLineTerminator(s[p]) then None else FindBookEnd(s, p + 1)
  }

  /**
   * The whole speech pattern: the book phrase is a prefix of the text and
   * the clause matches the rest, with the captured numbers.
   */
  function MatchSpeech(s: string): (r: Option<SpeechCaptures>)
    ensures r.Some? ==>
      && |r.value.book| <= |s| && r.value.book == s[..|r.value.book|]
      && MatchClause(s[|r.value.book|..]) == Some((r.value.chapter, r.value.verse))
  {
    FindBookEnd(s, 0)
  }

  /** The pattern can match with the book phrase ending at `p`. */
  ghost predicate PhraseEndsAt(s: string, p: int) {
    && 0 <= p <= |s|
    && (forall i | 0 <= i < p :: !IsLineTerminator(s[i]))
    && MatchClause(s[p..]).Some?
  }

  /** One step of the search: when the clause fails at `p`, the ends that work from `p` on are those from `p + 1` on. */
  lemma NoPhraseEndAt(s: string, p: nat, end: int)
    requires p < |s| && MatchClause(s[p..]).None?
    requires forall q | p + 1 <= q < end :: !PhraseEndsAt(s, q)
    ensures forall q | p <= q < end :: !PhraseEndsAt(s, q)
  {
    assert !PhraseEndsAt(s, p);
  }

  lemma {:induction false} FindBookEndNone(s: string, p: nat)
    requires p <= |s| && FindBookEnd(s, p).None?
    ensures forall q | p <= q <= |s| :: !PhraseEndsAt(s, q)
    decreases |s| - p
  {
    assert MatchClause(s[p..]).None?;
    if p < |s| && !IsLineTerminator(s[p]) {
      assert FindBookEnd(s, p + 1).None?;
      FindBookEndNone(s, p + 1);
      NoPhraseEndAt(s, p, |s| + 1);
    } else {
      forall q | p <= q <= |s| ensures !PhraseEndsAt(s, q) {
        if q != p {
          assert p < q && IsLineTerminator(s[p]);
        }
      }
    }
  }

  lemma {:induction false} FindBookEndSome(s: string, p: nat)
    requires p <= |s| && FindBookEnd(s, p).Some?
    requires forall i | 0 <= i < p :: !IsLineTerminator(s[i])
    ensures var end := |FindBookEnd(s, p).value.book|;
      PhraseEndsAt(s, end) && forall q | p <= q < end :: !PhraseEndsAt(s, q)
    decreases |s| - p
  {
    var r := FindBookEnd(s, p);
    if MatchClause(s[p..]).Some? {
      assert |r.value.book| == p;
      assert PhraseEndsAt(s, p);
    } else {
      assert p < |s| && !IsLineTerminator(s[p]);
      assert r == FindBookEnd(s, p + 1);
      assert forall i | 0 <= i < p + 1 :: !IsLineTerminator(s[i]);
      FindBookEndSome(s, p + 1);
      NoPhraseEndAt(s, p, |r.value.book|);
    }
  }

  /**
   * The pattern matches exactly when some end of the book phrase works;
   * the phrase then ends at the smallest such end and the numbers are the
   * clause's captures there.
   */
  lemma MatchSpeechSpec(s: string)
    ensures MatchSpeech(s).None? <==> forall p :: !PhraseEndsAt(s, p)
    ensures MatchSpeech(s).Some? ==>
      var cap := MatchSpeech(s).value;
      && cap.book == s[..|cap.book|] && PhraseEndsAt(s, |cap.book|)
      && MatchClause(s[|cap.book|..]) == Some((cap.chapter, cap.verse))
      && forall p | PhraseEndsAt(s, p) :: |cap.book| <= p
  {
    var r := FindBookEnd(s, 0);
    if r.None? {
      FindBookEndNone(s, 0);
    } else {
      FindBookEndSome(s, 0);
    }
  }

  /**
   * A book phrase with no line terminator that does not end in white space,
   * followed by a clause the pattern accepts, is split exactly there: any
   * earlier split would make the clause's "chapter" start inside the phrase.
   */
  lemma MatchSpeechOfPhrase(book: string, clause: string)
    requires forall c | c in book :: !IsLineTerminator(c)
    requires book == [] || !IsSpace(book[|book| - 1])
    requires MatchClause(clause).Some?
    ensures MatchSpeech(book + clause) ==
      Some(SpeechCaptures(book, MatchClause(clause).value.0, MatchClause(clause).value.1))
  {
    var s := book + clause;
    assert forall i | 0 <= i < |book| :: book[i] in book;
    assert s[..|book|] == book && s[|book|..] == clause;
    assert PhraseEndsAt(s, |book|);
    var a := Span(clause, IsSpace);
    ClauseHasOneC(clause);
    forall p | 0 <= p < |book| ensures !PhraseEndsAt(s, p) {
      var t := s[p..];
      if MatchClause(t).Some? {
        ClauseHasOneC(t);
      }
    }
    MatchSpeechSpec(s);
    var cap := MatchSpeech(s).value;
    assert |cap.book| == |book|;
  }

  /** A phrase followed by "chapter" and a number: the number is the chapter and no verse is captured. */
  lemma MatchSpeechChapter(book: string, lead: string, gap: string, chapter: string)
    requires forall c | c in book :: !IsLineTerminator(c)
    requires book == [] || !IsSpace(book[|book| - 1])
    requires AllSpaces(lead) && gap != [] && AllSpaces(gap) && chapter != [] && AllDigits(chapter)
    ensures MatchSpeech(book + (lead + "chapter" + gap + chapter)) == Some(SpeechCaptures(book, chapter, None))
  {
    MatchClauseChapter(lead, gap, chapter);
    MatchSpeechOfPhrase(book, lead + "chapter" + gap + chapter);
  }

  /** A phrase followed by "chapter", a number, "verse" and a number: both numbers are captured. */
  lemma MatchSpeechChapterVerse(book: string, lead: string, gap: string, chapter: string, gap': string, gap'': string, verse: string)
    requires forall c | c in book :: !IsLineTerminator(c)
    requires book == [] || !IsSpace(book[|book| - 1])
    requires AllSpaces(lead) && gap != [] && AllSpaces(gap) && chapter != [] && AllDigits(chapter)
    requires gap' != [] && AllSpaces(gap') && gap'' != [] && AllSpaces(gap'') && verse != [] && AllDigits(verse)
    ensures MatchSpeech(book + (lead + "chapter" + gap + (chapter + (gap' + "verse" + gap'' + verse)))) ==
      Some(SpeechCaptures(book, chapter, Some(verse)))
  {
    MatchClauseChapterVerse(lead, gap, chapter, gap', gap'', verse);
    MatchSpeechOfPhrase(book, lead + "chapter" + gap + (chapter + (gap' + "verse" + gap'' + verse)));
  }

  // ---------------------------------------------------------------------
  // resolveVerseFromSpeech
  // ---------------------------------------------------------------------

  /** A spoken reference resolves to a whole chapter (`[book, chapter]`) or to a verse (`[book, chapter, verse]`). */
  datatype SpeechResult = WholeChapter(book: int, chapter: int) | AtVerse(reference: Reference)

  function ResolveFromSpeech(canon: Canon, speech: string): (r: Option<SpeechResult>)
    requires canon.Valid()
    ensures r.Some? && r.value.WholeChapter? ==> IsBook(r.value.book) && canon.HasChapter(r.value.book, r.value.chapter)
    ensures r.Some? && r.value.AtVerse? ==> IsReference(canon, r.value.reference)
  {
    match MatchSpeech(Normalize(speech))
    case None => None
    case Some(cap) =>
      if cap.verse.None? then
        match Resolve(canon, cap.book + " " + cap.chapter)
        case None => None
        case Some(reference) => Some(WholeChapter(reference.book, reference.chapter))
      else
        match Resolve(canon, cap.book + " " + cap.chapter + ":" + cap.verse.value)
        case None => None
        case Some(reference) => Some(AtVerse(reference))
  }

  /**
   * Speech resolves only when its normalised text ends in a "chapter N" or
   * "chapter N verse M" clause, with no line terminator before the clause.
   */
  lemma ResolveFromSpeechNeedsClause(canon: Canon, speech: string)
    requires canon.Valid()
    ensures ResolveFromSpeech(canon, speech).Some? ==>
      var s := Normalize(speech);
      exists p, chapter, verse :: 0 <= p <= |s| && (forall i | 0 <= i < p :: !IsLineTerminator(s[i])) &&
        ClauseShape(s[p..], chapter, verse)
  {
    var s := Normalize(speech);
    if ResolveFromSpeech(canon, speech).Some? {
      MatchSpeechSpec(s);
      var cap := MatchSpeech(s).value;
      MatchClauseSpec(s[|cap.book|..], cap.chapter, cap.verse);
    }
  }

  /** A spoken chapter without a verse is answered as the typed query "<book> <chapter>" is, keeping only book and chapter. */
  lemma ResolveFromSpeechChapter(canon: Canon, speech: string, book: string, chapter: string)
    requires canon.Valid()
    requires MatchSpeech(Normalize(speech)) == Some(SpeechCaptures(book, chapter, None))
    ensures ResolveFromSpeech(canon, speech).Some? <==> Resolve(canon, book + " " + chapter).Some?
    ensures forall b, c :: ResolveFromSpeech(canon, speech) == Some(WholeChapter(b, c)) <==>
      exists v :: Resolve(canon, book + " " + chapter) == Some(Reference(b, c, v))
  {
    var q := book + " " + chapter;
    if Resolve(canon, q).Some? {
      var reference := Resolve(canon, q).value;
      forall b, c | ResolveFromSpeech(canon, speech) == Some(WholeChapter(b, c))
        ensures Resolve(canon, q) == Some(Reference(b, c, reference.verse))
      {
      }
    }
  }

  /** A spoken verse is answered as the typed query "<book> <chapter>:<verse>" is. */
  lemma ResolveFromSpeechVerse(canon: Canon, speech: string, book: string, chapter: string, verse: string)
    requires canon.Valid()
    requires MatchSpeech(Normalize(speech)) == Some(SpeechCaptures(book, chapter, Some(verse)))
    ensures forall reference :: ResolveFromSpeech(canon, speech) == Some(AtVerse(reference)) <==>
      Resolve(canon, book + " " + chapter + ":" + verse) == Some(reference)
    ensures ResolveFromSpeech(canon, speech).None? <==> Resolve(canon, book + " " + chapter + ":" + verse).None?
  {
  }
}
