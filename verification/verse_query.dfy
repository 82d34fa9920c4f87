/**
 * The parsing half of `resolveVerse`: the anchored pattern
 * `^(\d*\s*[a-z].+?)(?:(\d+)(?:\W*(\d+))?)?$` (flag `i`) applied to the
 * lower-cased query, written out as the match a backtracking engine finds,
 * followed by trimming the book group and defaulting chapter and verse to 1.
 */
module VerseQuery {
  import opened Wrappers
  import opened Text

  /** Group 1 (the book group) and groups 2 and 3 when they took part in the match. */
  datatype Captures = Captures(book: string, chapter: Option<string>, verse: Option<string>)

  /** The trimmed, lower-cased book fragment and the requested chapter and verse. */
  datatype ParsedQuery = ParsedQuery(fragment: string, chapter: nat, verse: nat)

  /** An optional capture of a digit group: absent, or a non-empty run of digits. */
  predicate DigitGroup(g: Option<string>) {
    g.None? || (g.value != [] && AllDigits(g.value))
  }

  /**
   * The optional tail `(?:(\d+)(?:\W*(\d+))?)?$` applied to the text after the
   * book group, with the captures the engine prefers: `\d+` is greedy, so an
   * all-digit tail is all chapter, and a verse is captured only when at least
   * one non-word character separates it from the chapter.
   */
  function MatchTail(t: string): (r: Option<(Option<string>, Option<string>)>)
    ensures r.Some? ==> DigitGroup(r.value.0) && DigitGroup(r.value.1)
  {
    if t == [] then Some((None, None))
    else
      var k := Span(t, IsDigit);
      if k == 0 then None
      else if k == |t| then Some((Some(t), None))
      else
        var w := Span(t[k..], IsNonWordChar);
        var rest := t[k + w..];
        if w > 0 && rest != [] && AllDigits(rest) then Some((Some(t[..k]), Some(rest))) else None
  }

  /** The three shapes a tail can take, stated without reference to how they are found. */
  predicate TailShape(t: string, chapter: Option<string>, verse: Option<string>) {
    match (chapter, verse)
    case (None, None) => t == []
    case (Some(ch), None) => ch != [] && AllDigits(ch) && t == ch
    case (Some(ch), Some(vs)) =>
      && ch != [] && AllDigits(ch) && vs != [] && AllDigits(vs)
      && |ch| + |vs| < |t| && t[..|ch|] == ch && t[|t| - |vs|..] == vs
      && (forall i | |ch| <= i < |t| - |vs| :: IsNonWordChar(t[i]))
    case (None, Some(_)) => false
  }

  /** The tail matcher finds exactly the tails of `TailShape`, with exactly its captures. */
  lemma MatchTailSpec(t: string, chapter: Option<string>, verse: Option<string>)
    ensures MatchTail(t) == Some((chapter, verse)) <==> TailShape(t, chapter, verse)
  {
    if TailShape(t, chapter, verse) && chapter.Some? && verse.Some? {
      var ch, vs := chapter.value, verse.value;
      SpanUnique(t, IsDigit, |ch|);
      var k := |ch|;
      SpanUnique(t[k..], IsNonWordChar, |t| - |vs| - k);
      assert t[k + (|t| - |vs| - k)..] == vs;
    }
    if TailShape(t, chapter, verse) && chapter.Some? && verse.None? {
      SpanUnique(t, IsDigit, |t|);
    }
  }

  /**
   * Where `[a-z]` has to match: right after the longest digit run and the
   * longest white-space run after it. A shorter run would leave a digit or a
   * space where the letter is needed, so this position is the only candidate.
   */
  function LetterPosition(s: string): (l: nat)
    ensures l <= |s|
  {
    var d := Span(s, IsDigit);
    d + Span(s[d..], IsSpace)
  }

  /** Any split of a prefix into digits, spaces and then a letter puts the letter at `LetterPosition`. */
  lemma LetterPositionUnique(s: string, digits: nat, spaces: nat)
    requires digits + spaces < |s| && IsAsciiLetter(s[digits + spaces])
    requires forall i | 0 <= i < digits :: IsDigit(s[i])
    requires forall i | digits <= i < digits + spaces :: IsSpace(s[i])
    ensures LetterPosition(s) == digits + spaces
  {
    SpanUnique(s, IsDigit, digits);
    SpanUnique(s[digits..], IsSpace, spaces);
  }

  /** Whether the tail pattern matches the whole of `t`. */
  predicate TailMatches(t: string) {
    MatchTail(t).Some?
  }

  /** `test` applied to the text after each end `e'` from `e` on. */
  function TableFrom(test: string -> bool, s: string, e: nat): (ok: seq<bool>)
    requires e <= |s| + 1
    ensures |ok| == |s| + 1 - e
    decreases |s| + 1 - e
  {
    if e == |s| + 1 then [] else [test(s[e..])] + TableFrom(test, s, e + 1)
  }

  lemma {:induction false} TableFromAt(test: string -> bool, s: string, e: nat, k: nat)
    requires e <= k <= |s|
    ensures TableFrom(test, s, e)[k - e] == test(s[k..])
    decreases k - e
  {
    if e < k {
      TableFromAt(test, s, e + 1, k);
    }
  }

  /** Whether the tail pattern matches the text after each end `e` of the book group, `0 <= e <= |s|`. */
  function TailTable(s: string): (ok: seq<bool>)
    ensures |ok| == |s| + 1
  {
    TableFrom(TailMatches, s, 0)
  }

  /** Entry `k` of the table says whether the tail matches after `k`. */
  lemma TailTableAt(s: string, k: nat)
    requires k <= |s|
    ensures TailTable(s)[k] == MatchTail(s[k..]).Some?
  {
    TableFromAt(TailMatches, s, 0, k);
  }

  /**
   * The lazy `.+?`: ends of the book group are tried from `e` upwards,
   * stopping at the first one after which the tail matches (`ok[e]`); the
   * group is extended by one character only when that character is not a
   * line terminator.
   */
  function SearchEnd(s: string, ok: seq<bool>, e: nat): (r: Option<nat>)
    requires |ok| == |s| + 1 && e <= |s|
    ensures r.Some? ==> e <= r.value <= |s| && ok[r.value]
    decreases |s| - e
  {
    if ok[e] then Some(e)
    else if e == |s| || IsLineTerminator(s[e]) then None
    else SearchEnd(s, ok, e + 1)
  }

  /**
   * The pattern once `\d*\s*` has left `[a-z]` to match at `l`: the letter,
   * then `.+?`, which takes at least the character after the letter, then
   * the tail, whose captures are the chapter and the verse.
   */
  function MatchFrom(s: string, l: nat): (r: Option<Captures>)
    ensures r.Some? ==> DigitGroup(r.value.chapter) && DigitGroup(r.value.verse)
  {
    if l + 2 <= |s| && IsAsciiLetter(s[l]) && !IsLineTerminator(s[l + 1]) then
      match SearchEnd(s, TailTable(s), l + 2)
      case None => None
      case Some(end) =>
        TailTableAt(s, end);
        var tail := MatchTail(s[end..]).value;
        Some(Captures(s[..end], tail.0, tail.1))
    else None
  }

  /** The whole pattern on an already lower-cased string. */
  function MatchVersePattern(s: string): (r: Option<Captures>)
    ensures r.Some? ==> DigitGroup(r.value.chapter) && DigitGroup(r.value.verse)
  {
    MatchFrom(s, LetterPosition(s))
  }

  /** With `[a-z]` matched at `l`, the book group can end at `e`: `.+?` reaches `e` and the tail matches from there. */
  ghost predicate GroupEndsAt(s: string, l: nat, e: int) {
    && l + 2 <= e <= |s|
    && (forall i | l + 1 <= i < e :: !IsLineTerminator(s[i]))
    && MatchTail(s[e..]).Some?
  }

  /** `GroupEndsAt` with the tail's success read from a table `ok`. */
  ghost predicate EndWorks(s: string, ok: seq<bool>, l: nat, e: int)
    requires |ok| == |s| + 1
  {
    && l + 2 <= e <= |s|
    && (forall i | l + 1 <= i < e :: !IsLineTerminator(s[i]))
    && ok[e]
  }

  /** No end in `[a, b)` works. */
  ghost predicate NoEndIn(s: string, ok: seq<bool>, l: nat, a: int, b: int)
    requires |ok| == |s| + 1
  {
    forall e | a <= e < b :: !EndWorks(s, ok, l, e)
  }

  /** When the search from `e` finds nothing, no end from `e` on works. */
  lemma {:induction false} SearchEndNone(s: string, ok: seq<bool>, l: nat, e: nat)
    requires |ok| == |s| + 1 && l + 2 <= e <= |s| && SearchEnd(s, ok, e).None?
    ensures NoEndIn(s, ok, l, e, |s| + 1)
    decreases |s| - e
  {
    assert !ok[e];
    if e < |s| && !IsLineTerminator(s[e]) {
      SearchEndNone(s, ok, l, e + 1);
    } else {
      forall e' | e < e' <= |s| ensures !EndWorks(s, ok, l, e') {
        assert IsLineTerminator(s[e]);
      }
    }
  }

  /** When the search from `e` finds an end, that end works and no earlier end from `e` on does. */
  lemma {:induction false} SearchEndSome(s: string, ok: seq<bool>, l: nat, e: nat)
    requires |ok| == |s| + 1 && l + 2 <= e <= |s| && SearchEnd(s, ok, e).Some?
    requires forall i | l + 1 <= i < e :: !IsLineTerminator(s[i])
    ensures EndWorks(s, ok, l, SearchEnd(s, ok, e).value)
    ensures NoEndIn(s, ok, l, e, SearchEnd(s, ok, e).value)
    decreases |s| - e
  {
    if !ok[e] {
      assert forall i | l + 1 <= i < e + 1 :: !IsLineTerminator(s[i]);
      SearchEndSome(s, ok, l, e + 1);
    }
  }

  /** The table records exactly where the tail matches. */
  lemma GroupEndsAtTable(s: string, l: nat)
    ensures forall e :: GroupEndsAt(s, l, e) == EndWorks(s, TailTable(s), l, e)
  {
    forall e ensures GroupEndsAt(s, l, e) == EndWorks(s, TailTable(s), l, e) {
      if l + 2 <= e <= |s| {
        TailTableAt(s, e);
      }
    }
  }

  /** With `[a-z]` matched at `l`, the pattern can match with the book group ending at `e`. */
  ghost predicate EndsFrom(s: string, l: nat, e: int) {
    l < |s| && IsAsciiLetter(s[l]) && GroupEndsAt(s, l, e)
  }

  /** The pattern can match with the book group ending at `e`. */
  ghost predicate BookGroupEndsAt(s: string, e: int) {
    EndsFrom(s, LetterPosition(s), e)
  }

  /**
   * `cap` is what the search leaves when `[a-z]` matched at `l`: the book
   * group is a prefix ending at the smallest end that works, and the chapter
   * and verse are the tail's captures there.
   */
  ghost predicate FirstEnd(s: string, l: nat, cap: Captures) {
    && |cap.book| <= |s| && cap.book == s[..|cap.book|] && EndsFrom(s, l, |cap.book|)
    && MatchTail(s[|cap.book|..]) == Some((cap.chapter, cap.verse))
    && forall e | EndsFrom(s, l, e) :: |cap.book| <= e
  }

  /** Without a letter at `l` followed by a character `.` accepts, nothing matches. */
  lemma NoMatchFromWithoutStart(s: string, l: nat)
    requires !(l + 2 <= |s| && IsAsciiLetter(s[l]) && !IsLineTerminator(s[l + 1]))
    ensures MatchFrom(s, l).None? && forall e :: !EndsFrom(s, l, e)
  {
    forall e ensures !EndsFrom(s, l, e) {
      if GroupEndsAt(s, l, e) {
        assert !IsLineTerminator(s[l + 1]);
      }
    }
  }

  /** When the search fails, no end of the book group works. */
  lemma NoMatchFromSearch(s: string, l: nat)
    requires l + 2 <= |s| && SearchEnd(s, TailTable(s), l + 2).None?
    ensures forall e :: !EndsFrom(s, l, e)
  {
    var ok := TailTable(s);
    GroupEndsAtTable(s, l);
    SearchEndNone(s, ok, l, l + 2);
    forall e ensures !EndsFrom(s, l, e) {
      if l + 2 <= e <= |s| {
        assert !EndWorks(s, ok, l, e);
      }
    }
  }

  /** When the search finds an end, it is the smallest end of the book group that works. */
  lemma MatchFromSearch(s: string, l: nat)
    requires l + 2 <= |s| && !IsLineTerminator(s[l + 1]) && l < |s| && IsAsciiLetter(s[l])
    requires SearchEnd(s, TailTable(s), l + 2).Some?
    ensures var end := SearchEnd(s, TailTable(s), l + 2).value;
      EndsFrom(s, l, end) && forall e | EndsFrom(s, l, e) :: end <= e
  {
    var ok := TailTable(s);
    var end := SearchEnd(s, ok, l + 2).value;
    GroupEndsAtTable(s, l);
    SearchEndSome(s, ok, l, l + 2);
    assert EndWorks(s, ok, l, end);
    forall e | EndsFrom(s, l, e) ensures end <= e {
      assert EndWorks(s, ok, l, e);
    }
  }

  /**
   * With `[a-z]` placed at `l`, the match fails exactly when no end of the
   * book group works, and otherwise ends the group at the smallest end that
   * works.
   */
  lemma MatchFromSpec(s: string, l: nat)
    ensures MatchFrom(s, l).None? <==> forall e :: !EndsFrom(s, l, e)
    ensures MatchFrom(s, l).Some? ==> FirstEnd(s, l, MatchFrom(s, l).value)
  {
    if !(l + 2 <= |s| && IsAsciiLetter(s[l]) && !IsLineTerminator(s[l + 1])) {
      NoMatchFromWithoutStart(s, l);
    } else if SearchEnd(s, TailTable(s), l + 2).None? {
      NoMatchFromSearch(s, l);
    } else {
      MatchFromSearch(s, l);
    }
  }

  /**
   * The pattern matches exactly when some end of the book group works, and
   * then the book group ends at the smallest such end and the chapter and
   * verse are the tail's captures there.
   */
  lemma MatchVersePatternSpec(s: string)
    ensures MatchVersePattern(s).None? <==> forall e :: !BookGroupEndsAt(s, e)
    ensures MatchVersePattern(s).Some? ==> FirstEnd(s, LetterPosition(s), MatchVersePattern(s).value)
  {
    assert MatchVersePattern(s) == MatchFrom(s, LetterPosition(s));
    MatchFromSpec(s, LetterPosition(s));
    forall e ensures BookGroupEndsAt(s, e) == EndsFrom(s, LetterPosition(s), e) {
    }
  }

  /** A captured number, or 1 when its group did not take part in the match. */
  function CapturedNumber(g: Option<string>): nat
    requires DigitGroup(g)
  {
    if g.Some? then DecimalValue(g.value) else 1
  }

  /** `resolveVerse` up to and including the defaults for chapter and verse. */
  function Parse(query: string): Option<ParsedQuery>
  {
    if query == [] then None
    else match MatchVersePattern(Lower(query))
      case None => None
      case Some(cap) => Some(ParsedQuery(Lower(Trim(cap.book)), CapturedNumber(cap.chapter), CapturedNumber(cap.verse)))
  }

  /** How a match of the pattern becomes the parsed query. */
  lemma ParseOfMatch(query: string, cap: Captures)
    requires query != [] && MatchVersePattern(Lower(query)) == Some(cap)
    ensures DigitGroup(cap.chapter) && DigitGroup(cap.verse)
    ensures Parse(query) == Some(ParsedQuery(Lower(Trim(cap.book)), CapturedNumber(cap.chapter), CapturedNumber(cap.verse)))
  {
  }

  /** An empty query, and a query with no letter after its leading digits and white space, or with nothing after that letter, parse to nothing. */
  lemma ParseNeedsLetter(query: string)
    ensures Parse(query).Some? ==>
      var l := LetterPosition(Lower(query));
      l + 2 <= |query| && IsAsciiLetter(query[l])
  {
    if Parse(query).Some? {
      var s := Lower(query);
      MatchVersePatternSpec(s);
      assert EndsFrom(s, LetterPosition(s), |MatchVersePattern(s).value.book|);
      LowerCharKeepsClasses(query[LetterPosition(s)]);
    }
  }

  /**
   * A book name as it opens a query: a digit run, white space, an ASCII
   * letter, and after the letter no digit and no line terminator.
   */
  predicate BookNameShape(name: string, digits: nat, spaces: nat) {
    && digits + spaces < |name|
    && (forall i | 0 <= i < digits :: IsDigit(name[i]))
    && (forall i | digits <= i < digits + spaces :: IsSpace(name[i]))
    && IsAsciiLetter(name[digits + spaces])
    && (forall i | digits + spaces < i < |name| :: !IsDigit(name[i]) && !IsLineTerminator(name[i]))
  }

  lemma TailHasNoLetters(t: string)
    requires MatchTail(t).Some?
    ensures forall i | 0 <= i < |t| :: !IsAsciiLetter(t[i])
  {
    var r := MatchTail(t).value;
    MatchTailSpec(t, r.0, r.1);
    if r.0.Some? && r.1.Some? {
      var ch, vs := r.0.value, r.1.value;
      forall i | 0 <= i < |t| ensures !IsAsciiLetter(t[i]) {
        if i < |ch| {
          assert t[i] == ch[i];
        } else if i >= |t| - |vs| {
          assert t[i] == vs[i - (|t| - |vs|)];
        }
      }
    }
  }

  /** Lower-casing a character keeps it in or out of each class a book name is shaped by. */
  lemma LowerCharKeepsClasses(c: char)
    ensures IsDigit(LowerChar(c)) == IsDigit(c) && IsSpace(LowerChar(c)) == IsSpace(c)
    ensures IsLineTerminator(LowerChar(c)) == IsLineTerminator(c) && IsAsciiLetter(LowerChar(c)) == IsAsciiLetter(c)
  {
    if IsAsciiLetter(c) {
      assert 'a' <= LowerChar(c) <= 'z';
    }
  }

  lemma LowerKeepsNameShape(name: string, digits: nat, spaces: nat)
    requires BookNameShape(name, digits, spaces)
    ensures BookNameShape(Lower(name), digits, spaces)
  {
    var n := Lower(name);
    forall i | 0 <= i < |name| ensures IsDigit(n[i]) == IsDigit(name[i]) && IsSpace(n[i]) == IsSpace(name[i])
      && IsLineTerminator(n[i]) == IsLineTerminator(name[i]) && IsAsciiLetter(n[i]) == IsAsciiLetter(name[i])
    {
      LowerCharKeepsClasses(name[i]);
    }
  }

  /** Lower-casing a name, plain spaces and a tail lower-cases only the name. */
  lemma LowerNameThenTail(name: string, gap: string, tail: string)
    requires forall i | 0 <= i < |gap| :: gap[i] == ' '
    requires MatchTail(tail).Some?
    ensures Lower(name + gap + tail) == Lower(name) + gap + tail
  {
    TailHasNoLetters(tail);
    LowerAppend(name + gap, tail);
    LowerAppend(name, gap);
    assert Lower(gap) == gap;
    assert Lower(tail) == tail;
  }

  /** In a book name, plain spaces and a tail, the letter comes right after the digits and spaces. */
  lemma ShapedLetterPosition(name: string, digits: nat, spaces: nat, gap: string, tail: string)
    requires BookNameShape(name, digits, spaces)
    ensures LetterPosition(name + gap + tail) == digits + spaces
  {
    var s := name + gap + tail;
    assert forall i | 0 <= i < |name| :: s[i] == name[i];
    LetterPositionUnique(s, digits, spaces);
  }

  /** In a book name, plain spaces and a tail, the book group can end where the tail begins. */
  lemma ShapedGroupEnds(name: string, digits: nat, spaces: nat, gap: string, tail: string)
    requires BookNameShape(name, digits, spaces)
    requires forall i | 0 <= i < |gap| :: gap[i] == ' '
    requires digits + spaces + 2 <= |name| + |gap|
    requires MatchTail(tail).Some?
    ensures var s := name + gap + tail;
      IsAsciiLetter(s[digits + spaces]) && GroupEndsAt(s, digits + spaces, |name| + |gap|)
  {
    var e := |name| + |gap|;
    var s := name + gap + tail;
    assert s[e..] == tail;
    assert forall i | 0 <= i < |name| :: s[i] == name[i];
    assert forall i | |name| <= i < e :: s[i] == ' ';
  }

  /** No earlier end of the book group works, since the tail would start with a non-digit that is not the end of the text. */
  lemma ShapedGroupEndsNoEarlier(name: string, digits: nat, spaces: nat, gap: string, tail: string, s: string, l: nat)
    requires BookNameShape(name, digits, spaces) && l == digits + spaces
    requires forall i | 0 <= i < |gap| :: gap[i] == ' '
    requires tail == [] || IsDigit(tail[0])
    requires s == name + gap + tail
    ensures forall e' | l + 2 <= e' < |name| + |gap| :: !GroupEndsAt(s, l, e')
  {
    forall e' | l + 2 <= e' < |name| + |gap| ensures !GroupEndsAt(s, l, e') {
      if e' < |name| {
        assert s[e'] == name[e'];
      } else {
        assert s[e'] == gap[e' - |name|];
      }
      assert s[e'..][0] == s[e'];
    }
  }

  /** Cutting a string where its tail begins gives back the head and the tail. */
  lemma SplitAtTail(head: string, tail: string)
    ensures (head + tail)[..|head|] == head && MatchTail((head + tail)[|head|..]) == MatchTail(tail)
  {
    assert (head + tail)[|head|..] == tail;
  }

  /** With the letter after the digits and spaces of a book name, the search ends the book group where the tail begins. */
  lemma ShapedMatchFrom(name: string, digits: nat, spaces: nat, gap: string, tail: string)
    requires BookNameShape(name, digits, spaces)
    requires forall i | 0 <= i < |gap| :: gap[i] == ' '
    requires digits + spaces + 2 <= |name| + |gap|
    requires tail == [] || IsDigit(tail[0])
    requires MatchTail(tail).Some?
    ensures MatchFrom(name + gap + tail, digits + spaces) ==
      Some(Captures(name + gap, MatchTail(tail).value.0, MatchTail(tail).value.1))
  {
    var l := digits + spaces;
    var e := |name| + |gap|;
    var s := name + gap + tail;
    ShapedGroupEnds(name, digits, spaces, gap, tail);
    ShapedGroupEndsNoEarlier(name, digits, spaces, gap, tail, s, l);
    MatchFromSpec(s, l);
    assert EndsFrom(s, l, e);
    var cap := MatchFrom(s, l).value;
    assert EndsFrom(s, l, |cap.book|);
    assert |cap.book| == e;
    SplitAtTail(name + gap, tail);
  }

  /** Once the letter's position is known, the pattern is the match from there. */
  lemma PatternAtLetter(s: string, l: nat)
    requires LetterPosition(s) == l
    ensures MatchVersePattern(s) == MatchFrom(s, l)
  {
  }

  /**
   * A book name, plain spaces and a tail the tail pattern accepts: the book
   * group ends exactly where the tail begins, because every earlier end
   * would leave a tail starting with something other than a digit.
   */
  lemma MatchShapedThenTail(name: string, digits: nat, spaces: nat, gap: string, tail: string)
    requires BookNameShape(name, digits, spaces)
    requires forall i | 0 <= i < |gap| :: gap[i] == ' '
    requires digits + spaces + 2 <= |name| + |gap|
    requires tail == [] || IsDigit(tail[0])
    requires MatchTail(tail).Some?
    ensures MatchVersePattern(name + gap + tail) ==
      Some(Captures(name + gap, MatchTail(tail).value.0, MatchTail(tail).value.1))
  {
    ShapedLetterPosition(name, digits, spaces, gap, tail);
    PatternAtLetter(name + gap + tail, digits + spaces);
    ShapedMatchFrom(name, digits, spaces, gap, tail);
  }

  lemma MatchNameThenTail(name: string, digits: nat, spaces: nat, gap: string, tail: string)
    requires BookNameShape(name, digits, spaces)
    requires forall i | 0 <= i < |gap| :: gap[i] == ' '
    requires digits + spaces + 2 <= |name| + |gap|
    requires tail == [] || IsDigit(tail[0])
    requires MatchTail(tail).Some?
    ensures MatchVersePattern(Lower(name + gap + tail)) ==
      Some(Captures(Lower(name) + gap, MatchTail(tail).value.0, MatchTail(tail).value.1))
  {
    LowerNameThenTail(name, gap, tail);
    LowerKeepsNameShape(name, digits, spaces);
    MatchShapedThenTail(Lower(name), digits, spaces, gap, tail);
  }

  /** The fragment a name-led query yields is the trimmed, lower-cased name. */
  lemma NameFragment(name: string, digits: nat, spaces: nat, gap: string)
    requires BookNameShape(name, digits, spaces)
    requires forall i | 0 <= i < |gap| :: gap[i] == ' '
    ensures Lower(Trim(Lower(name) + gap)) == Trim(Lower(name))
  {
    TrimAppendSpaces(Lower(name), gap, digits + spaces);
    LowerIsLowerCase(name);
    TrimOfLowerCase(Lower(name));
  }

  /** A book name, plain spaces and a tail the tail pattern accepts: the fragment is the trimmed, lower-cased name and the numbers are the tail's. */
  lemma ParseShaped(query: string, name: string, digits: nat, spaces: nat, gap: string, tail: string)
    requires BookNameShape(name, digits, spaces)
    requires forall i | 0 <= i < |gap| :: gap[i] == ' '
    requires digits + spaces + 2 <= |name| + |gap|
    requires tail == [] || IsDigit(tail[0])
    requires MatchTail(tail).Some?
    requires query == name + gap + tail
    ensures Parse(query) == Some(ParsedQuery(Trim(Lower(name)), CapturedNumber(MatchTail(tail).value.0), CapturedNumber(MatchTail(tail).value.1)))
  {
    MatchNameThenTail(name, digits, spaces, gap, tail);
    NameFragment(name, digits, spaces, gap);
    ParseOfMatch(query, Captures(Lower(name) + gap, MatchTail(tail).value.0, MatchTail(tail).value.1));
  }

  /** A query that is just a book name asks for chapter 1, verse 1 ("Psa", "joh"). */
  lemma ParseNameOnly(name: string, digits: nat, spaces: nat)
    requires BookNameShape(name, digits, spaces) && digits + spaces + 2 <= |name|
    ensures Parse(name) == Some(ParsedQuery(Trim(Lower(name)), 1, 1))
  {
    assert name == name + [] + [];
    ParseShaped(name, name, digits, spaces, [], []);
  }

  /** A book name followed by a chapter number asks for that chapter, verse 1 ("Matthew 1", "1 Corinthians 13"). */
  lemma ParseNameChapter(name: string, digits: nat, spaces: nat, gap: string, chapter: nat)
    requires BookNameShape(name, digits, spaces)
    requires forall i | 0 <= i < |gap| :: gap[i] == ' '
    requires digits + spaces + 2 <= |name| + |gap|
    ensures Parse(name + gap + DecimalString(chapter)) == Some(ParsedQuery(Trim(Lower(name)), chapter, 1))
  {
    var ch := DecimalString(chapter);
    MatchTailSpec(ch, Some(ch), None);
    DecimalRoundTrip(chapter);
    ParseShaped(name + gap + ch, name, digits, spaces, gap, ch);
  }

  /** The tail of "<chapter><separator><verse>" captures both numbers. */
  lemma TailOfChapterVerse(ch: string, sep: string, vs: string)
    requires ch != [] && AllDigits(ch) && vs != [] && AllDigits(vs)
    requires sep != [] && forall i | 0 <= i < |sep| :: IsNonWordChar(sep[i])
    ensures MatchTail(ch + sep + vs) == Some((Some(ch), Some(vs)))
  {
    var t := ch + sep + vs;
    assert t[..|ch|] == ch && t[|t| - |vs|..] == vs;
    forall i | |ch| <= i < |t| - |vs| ensures IsNonWordChar(t[i]) {
      assert t[i] == sep[i - |ch|];
    }
    MatchTailSpec(t, Some(ch), Some(vs));
  }

  /** "<chapter><separator><verse>" is a tail that starts with a digit and captures both numbers. */
  lemma ChapterVerseTail(chapter: nat, sep: string, verse: nat)
    requires sep != [] && forall i | 0 <= i < |sep| :: IsNonWordChar(sep[i])
    ensures var t := DecimalString(chapter) + sep + DecimalString(verse);
      IsDigit(t[0]) && MatchTail(t).Some? &&
      CapturedNumber(MatchTail(t).value.0) == chapter && CapturedNumber(MatchTail(t).value.1) == verse
  {
    var ch, vs := DecimalString(chapter), DecimalString(verse);
    TailOfChapterVerse(ch, sep, vs);
    assert (ch + sep + vs)[0] == ch[0];
    DecimalRoundTrip(chapter);
    DecimalRoundTrip(verse);
  }

  lemma Regroup(h: string, a: string, b: string, c: string)
    ensures h + a + b + c == h + (a + b + c)
  {
  }

  /** A book name, a chapter, non-word separators and a verse ask for that chapter and verse ("John 3:16", "jn3.16"). */
  lemma ParseNameChapterVerse(name: string, digits: nat, spaces: nat, gap: string, chapter: nat, sep: string, verse: nat)
    requires BookNameShape(name, digits, spaces)
    requires forall i | 0 <= i < |gap| :: gap[i] == ' '
    requires digits + spaces + 2 <= |name| + |gap|
    requires sep != [] && forall i | 0 <= i < |sep| :: IsNonWordChar(sep[i])
    ensures Parse(name + gap + DecimalString(chapter) + sep + DecimalString(verse)) ==
      Some(ParsedQuery(Trim(Lower(name)), chapter, verse))
  {
    var ch, vs := DecimalString(chapter), DecimalString(verse);
    ChapterVerseTail(chapter, sep, verse);
    Regroup(name + gap, ch, sep, vs);
    ParseShaped(name + gap + ch + sep + vs, name, digits, spaces, gap, ch + sep + vs);
  }

}
