/**
 * `resolveVerse`: the subsequence test, the abbreviation index built once
 * from the abbreviation table, and the elimination of candidate books by
 * name, chapter bounds and verse bounds, answering only when exactly one
 * book survives.
 */
module ResolveVerse {
  import opened Wrappers
  import opened Text
  import opened CanonTables
  import opened VerseQuery

  /** A resolved `[book, chapter, verse]`. */
  datatype Reference = Reference(book: int, chapter: int, verse: int)

  /** The reference names a book, a chapter the book has and a verse that chapter has. */
  predicate IsReference(canon: Canon, r: Reference)
    requires canon.Valid()
  {
    IsBook(r.book) && canon.HasChapter(r.book, r.chapter) && canon.HasVerse(r.book, r.chapter, r.verse)
  }

  // ---------------------------------------------------------------------
  // isSubsequence
  // ---------------------------------------------------------------------

  /** `query` can be read off `text` left to right, matching each query character at the first chance. */
  function Subsequence(query: string, text: string): (r: bool)
    ensures r ==> |query| <= |text|
    decreases |text|
  {
    if query == [] then true
    else if text == [] then false
    else if query[0] == text[0] then Subsequence(query[1..], text[1..])
    else Subsequence(query, text[1..])
  }

  /** `positions` places each character of `query` in `text`, at strictly increasing positions. */
  ghost predicate Embeds(query: string, text: string, positions: seq<int>) {
    && |positions| == |query|
    && (forall k | 0 <= k < |positions| :: 0 <= positions[k] < |text| && text[positions[k]] == query[k])
    && (forall k1, k2 | 0 <= k1 < k2 < |positions| :: positions[k1] < positions[k2])
  }

  lemma {:induction false} EmbeddingOfSubsequence(query: string, text: string) returns (positions: seq<int>)
    requires Subsequence(query, text)
    ensures Embeds(query, text, positions)
    decreases |text|
  {
    if query == [] {
      positions := [];
    } else if query[0] == text[0] {
      var rest := EmbeddingOfSubsequence(query[1..], text[1..]);
      positions := [0] + seq(|rest|, k requires 0 <= k < |rest| => rest[k] + 1);
    } else {
      var rest := EmbeddingOfSubsequence(query, text[1..]);
      positions := seq(|rest|, k requires 0 <= k < |rest| => rest[k] + 1);
    }
  }

  lemma {:induction false} SubsequenceOfEmbedding(query: string, text: string, positions: seq<int>)
    requires Embeds(query, text, positions)
    ensures Subsequence(query, text)
    decreases |text|
  {
    if query != [] {
      assert positions[0] < |text|;
      if query[0] == text[0] {
        var rest := seq(|positions| - 1, k requires 0 <= k < |positions| - 1 => positions[k + 1] - 1);
        assert forall k | 0 <= k < |rest| :: rest[k] == positions[k + 1] - 1 && positions[0] < positions[k + 1];
        SubsequenceOfEmbedding(query[1..], text[1..], rest);
      } else {
        assert positions[0] != 0;
        var rest := seq(|positions|, k requires 0 <= k < |positions| => positions[k] - 1);
        assert forall k | 0 <= k < |rest| :: rest[k] == positions[k] - 1 && positions[0] <= positions[k];
        SubsequenceOfEmbedding(query, text[1..], rest);
      }
    }
  }

  /**
   * The greedy test answers exactly the subsequence question: the query's
   * characters occur in the text in the same order, not necessarily
   * adjacent. The empty query embeds in every text.
   */
  lemma SubsequenceIffEmbedding(query: string, text: string)
    ensures Subsequence(query, text) <==> exists positions :: Embeds(query, text, positions)
  {
    if Subsequence(query, text) {
      var positions := EmbeddingOfSubsequence(query, text);
    }
    if exists positions :: Embeds(query, text, positions) {
      var positions :| Embeds(query, text, positions);
      SubsequenceOfEmbedding(query, text, positions);
    }
  }

  /** `isSubsequence`: one pass over `text`, advancing `j` through `query` on each match. */
  method IsSubsequence(query: string, text: string) returns (b: bool)
    ensures b == Subsequence(query, text)
  {
    var j := 0;
    var i := 0;
    while i < |text| && j < |query|
      invariant 0 <= i <= |text| && 0 <= j <= |query|
      invariant Subsequence(query, text) == Subsequence(query[j..], text[i..])
      decreases |text| - i
    {
      assert text[i..][1..] == text[i + 1..];
      if query[j] == text[i] {
        assert query[j..][1..] == query[j + 1..];
        j := j + 1;
      }
      i := i + 1;
    }
    b := j == |query|;
  }

  // ---------------------------------------------------------------------
  // recognizedAbbreviations
  // ---------------------------------------------------------------------

  /** `Map.set` of each of a book's abbreviations, lower-cased, in order. */
  function AddAbbreviations(index: map<string, int>, book: int, abbreviations: seq<string>): map<string, int>
    decreases |abbreviations|
  {
    if abbreviations == [] then index
    else
      var last := |abbreviations| - 1;
      AddAbbreviations(index, book, abbreviations[..last])[Lower(abbreviations[last]) := book]
  }

  /** The index after the first `n` books of the table, visited in ascending book order. */
  function IndexOfBooks(table: seq<seq<string>>, n: nat): map<string, int>
    requires n <= |table|
  {
    if n == 0 then map[] else AddAbbreviations(IndexOfBooks(table, n - 1), n, table[n - 1])
  }

  /** The lower-cased abbreviation to book index that the resolver consults. */
  function AbbreviationIndex(table: seq<seq<string>>): map<string, int> {
    IndexOfBooks(table, |table|)
  }

  /** One of `abbreviations` lower-cases to `key`. */
  ghost predicate Lists(abbreviations: seq<string>, key: string) {
    exists a :: a in abbreviations && Lower(a) == key
  }

  /** Book `b` lists an abbreviation that lower-cases to `key`. */
  ghost predicate Abbreviates(table: seq<seq<string>>, b: int, key: string) {
    1 <= b <= |table| && Lists(table[b - 1], key)
  }

  lemma {:induction false} AddAbbreviationsSpec(index: map<string, int>, book: int, abbreviations: seq<string>)
    ensures forall key :: key in AddAbbreviations(index, book, abbreviations) <==>
      key in index || Lists(abbreviations, key)
    ensures forall key | key in AddAbbreviations(index, book, abbreviations) ::
      AddAbbreviations(index, book, abbreviations)[key] == if Lists(abbreviations, key) then book else index[key]
    decreases |abbreviations|
  {
    if abbreviations != [] {
      var last := |abbreviations| - 1;
      var init := abbreviations[..last];
      AddAbbreviationsSpec(index, book, init);
      assert abbreviations == init + [abbreviations[last]];
      forall key ensures Lists(abbreviations, key) <==> Lists(init, key) || Lower(abbreviations[last]) == key
      {
        if Lists(abbreviations, key) {
          var a :| a in abbreviations && Lower(a) == key;
          if a != abbreviations[last] {
            assert a in init;
          }
        }
        if Lower(abbreviations[last]) == key {
          assert abbreviations[last] in abbreviations;
        }
        if Lists(init, key) {
          var a :| a in init && Lower(a) == key;
          assert a in abbreviations;
        }
      }
    }
  }

  lemma {:induction false} IndexOfBooksKeys(table: seq<seq<string>>, n: nat)
    requires n <= |table|
    ensures forall key :: key in IndexOfBooks(table, n) <==> exists b :: 1 <= b <= n && Abbreviates(table, b, key)
  {
    if n > 0 {
      IndexOfBooksKeys(table, n - 1);
      var previous := IndexOfBooks(table, n - 1);
      AddAbbreviationsSpec(previous, n, table[n - 1]);
      forall key ensures key in IndexOfBooks(table, n) <==> exists b :: 1 <= b <= n && Abbreviates(table, b, key) {
        if exists b :: 1 <= b <= n && Abbreviates(table, b, key) {
          var b :| 1 <= b <= n && Abbreviates(table, b, key);
          if b < n {
            assert key in previous;
          }
        }
        if key in previous {
          var b :| 1 <= b <= n - 1 && Abbreviates(table, b, key);
          assert 1 <= b <= n && Abbreviates(table, b, key);
        }
        if Lists(table[n - 1], key) {
          assert Abbreviates(table, n, key);
        }
      }
    }
  }

  /**
   * The index after the first `n` books maps each of its keys to a book that
   * lists it, and to the greatest such book among the first `n`: when books
   * share an abbreviation, `Map.set` has left the one visited last.
   */
  lemma {:induction false} IndexOfBooksLatestWins(table: seq<seq<string>>, n: nat)
    requires n <= |table|
    ensures forall key | key in IndexOfBooks(table, n) ::
      var b := IndexOfBooks(table, n)[key];
      1 <= b <= n && Abbreviates(table, b, key) && forall b' | b < b' <= n :: !Abbreviates(table, b', key)
  {
    if n > 0 {
      IndexOfBooksLatestWins(table, n - 1);
      var previous := IndexOfBooks(table, n - 1);
      AddAbbreviationsSpec(previous, n, table[n - 1]);
      var index := IndexOfBooks(table, n);
      forall key | key in index
        ensures 1 <= index[key] <= n && Abbreviates(table, index[key], key)
        ensures forall b' | index[key] < b' <= n :: !Abbreviates(table, b', key)
      {
        if !Lists(table[n - 1], key) {
          assert key in previous && index[key] == previous[key];
        }
      }
    }
  }

  /** The index holds exactly the abbreviations of the table; each maps to the greatest book listing it. */
  lemma AbbreviationIndexLatestWins(table: seq<seq<string>>)
    ensures forall key :: key in AbbreviationIndex(table) <==> exists b :: 1 <= b <= |table| && Abbreviates(table, b, key)
    ensures forall key | key in AbbreviationIndex(table) ::
      var b := AbbreviationIndex(table)[key];
      1 <= b <= |table| && Abbreviates(table, b, key) && forall b' | b < b' <= |table| :: !Abbreviates(table, b', key)
  {
    IndexOfBooksKeys(table, |table|);
    IndexOfBooksLatestWins(table, |table|);
  }

  /** The module-load loop that fills `recognizedAbbreviations`, book by book and abbreviation by abbreviation. */
  method BuildAbbreviationIndex(table: seq<seq<string>>) returns (index: map<string, int>)
    ensures index == AbbreviationIndex(table)
  {
    index := map[];
    var b := 0;
    while b < |table|
      invariant 0 <= b <= |table|
      invariant index == IndexOfBooks(table, b)
    {
      var abbreviations := table[b];
      var j := 0;
      while j < |abbreviations|
        invariant 0 <= j <= |abbreviations|
        invariant index == AddAbbreviations(IndexOfBooks(table, b), b + 1, abbreviations[..j])
      {
        assert abbreviations[..j + 1][..j] == abbreviations[..j];
        index := index[Lower(abbreviations[j]) := b + 1];
        j := j + 1;
      }
      assert abbreviations[..j] == table[b];
      b := b + 1;
    }
  }

  // ---------------------------------------------------------------------
  // Elimination
  // ---------------------------------------------------------------------

  /** The books 1 to `n`: `Object.keys(bookNames)` for `n` = 66. */
  function BooksUpTo(n: nat): (r: set<int>)
    ensures forall b :: b in r <==> 1 <= b <= n
  {
    if n == 0 then {} else BooksUpTo(n - 1) + {n}
  }

  /** The starting candidates: the one book of an exact abbreviation hit, otherwise every book. */
  function Seed(canon: Canon, fragment: string): (r: set<int>)
    requires canon.Valid()
    ensures forall b | b in r :: IsBook(b)
  {
    var index := AbbreviationIndex(canon.abbreviations);
    AbbreviationIndexLatestWins(canon.abbreviations);
    if fragment in index then {index[fragment]} else BooksUpTo(BookCount)
  }

  /**
   * The name test on a lower-cased book name: a leading number in the name
   * must also start the fragment, the fragment must be a subsequence of the
   * name, and the name must start with the fragment's first character.
   */
  predicate NameTest(name: string, fragment: string) {
    var number := name[..Span(name, IsDigit)];
    && (number == [] || StartsWith(fragment, number))
    && Subsequence(fragment, name)
    && StartsWith(name, fragment[..if fragment == [] then 0 else 1])
  }

  predicate NameMatches(canon: Canon, fragment: string, b: int)
    requires canon.Valid() && IsBook(b)
  {
    NameTest(Lower(canon.Name(b)), fragment)
  }

  /** The first loop: drop the candidates whose name fails the name test; it only removes. */
  function NameStage(canon: Canon, fragment: string, candidates: set<int>): (r: set<int>)
    requires canon.Valid() && forall b | b in candidates :: IsBook(b)
    ensures r <= candidates
    ensures forall b | b in r :: NameMatches(canon, fragment, b)
  {
    set b | b in candidates && NameMatches(canon, fragment, b)
  }

  /** The second loop: drop the candidates that have no chapter `chapter`; it only removes. */
  function ChapterStage(canon: Canon, chapter: int, candidates: set<int>): (r: set<int>)
    requires canon.Valid() && forall b | b in candidates :: IsBook(b)
    ensures r <= candidates
    ensures forall b | b in r :: canon.HasChapter(b, chapter)
  {
    set b | b in candidates && canon.HasChapter(b, chapter)
  }

  /** The third loop: drop the candidates whose chapter `chapter` has no verse `verse`; it only removes. */
  function VerseStage(canon: Canon, chapter: int, verse: int, candidates: set<int>): (r: set<int>)
    requires canon.Valid() && forall b | b in candidates :: IsBook(b) && canon.HasChapter(b, chapter)
    ensures r <= candidates
    ensures forall b | b in r :: canon.HasVerse(b, chapter, verse)
  {
    set b | b in candidates && canon.HasVerse(b, chapter, verse)
  }

  /** The candidates left after all three loops. */
  function Survivors(canon: Canon, p: ParsedQuery): (r: set<int>)
    requires canon.Valid()
    ensures forall b | b in r :: IsBook(b) && IsReference(canon, Reference(b, p.chapter, p.verse))
  {
    VerseStage(canon, p.chapter, p.verse,
      ChapterStage(canon, p.chapter,
        NameStage(canon, p.fragment, Seed(canon, p.fragment))))
  }

  /** The smallest of the books 1 to `n` that `s` holds, if any. */
  function LeastMember(s: set<int>, n: nat): (r: Option<int>)
    ensures r.Some? ==> r.value in s && 1 <= r.value <= n
    ensures r.None? ==> forall b | 1 <= b <= n :: b !in s
  {
    if n == 0 then None
    else match LeastMember(s, n - 1)
      case Some(b) => Some(b)
      case None => if n in s then Some(n) else None
  }

  lemma NoLeastMember(s: set<int>, n: nat)
    requires forall b | b in s :: 1 <= b <= n
    ensures LeastMember(s, n).None? ==> s == {}
  {
    if LeastMember(s, n).None? {
      assert forall b :: b !in s;
    }
  }

  lemma OnlyMember(s: set<int>, x: int)
    requires |s| == 1 && x in s
    ensures s == {x}
  {
    assert |s - {x}| == |s| - 1;
    assert s - {x} == {};
  }

  /** The one book of a one-book candidate set (`const [bookId] = candidates`). */
  function TheOnly(s: set<int>): (x: int)
    requires |s| == 1 && forall b | b in s :: IsBook(b)
    ensures s == {x}
  {
    forall b | b in s ensures 1 <= b <= BookCount {
      assert IsBook(b);
    }
    NoLeastMember(s, BookCount);
    var x := LeastMember(s, BookCount).value;
    OnlyMember(s, x);
    x
  }

  /** `resolveVerse(query)`: the reference when exactly one candidate survives, otherwise `undefined`. */
  function Resolve(canon: Canon, query: string): (r: Option<Reference>)
    requires canon.Valid()
    ensures r.Some? ==> IsReference(canon, r.value)
  {
    match Parse(query)
    case None => None
    case Some(p) =>
      var survivors := Survivors(canon, p);
      if |survivors| == 1 then Some(Reference(TheOnly(survivors), p.chapter, p.verse)) else None
  }

  // ---------------------------------------------------------------------
  // The elimination loops and resolveVerse as the source runs them
  // ---------------------------------------------------------------------

  /**
   * The first loop. A `Set` of book ids built in ascending order is visited
   * in ascending order, and each visit deletes at most the visited book, so
   * visiting the ids 1 to 66 and skipping those no longer present visits
   * the same books in the same order.
   */
  method EliminateByName(canon: Canon, fragment: string, seed: set<int>) returns (candidates: set<int>)
    requires canon.Valid() && forall b | b in seed :: IsBook(b)
    ensures candidates == NameStage(canon, fragment, seed)
  {
    candidates := seed;
    var b := 1;
    while b <= BookCount
      invariant 1 <= b <= BookCount + 1
      invariant forall x :: x in candidates <==> x in seed && (x >= b || NameMatches(canon, fragment, x))
    {
      if b in candidates {
        var name := Lower(canon.Name(b));
        var number := name[..Span(name, IsDigit)];
        if number != [] && !StartsWith(fragment, number) {
          candidates := candidates - {b};
        } else {
          var embeds := IsSubsequence(fragment, name);
          if !embeds || !StartsWith(name, fragment[..if fragment == [] then 0 else 1]) {
            candidates := candidates - {b};
          }
        }
      }
      b := b + 1;
    }
    forall x ensures x in candidates <==> x in NameStage(canon, fragment, seed) {
      if x in seed {
        assert IsBook(x);
      }
    }
  }

  /** The second loop: delete each candidate whose book has fewer than `chapter` chapters, or when `chapter` < 1. */
  method EliminateByChapter(canon: Canon, chapter: int, seed: set<int>) returns (candidates: set<int>)
    requires canon.Valid() && forall b | b in seed :: IsBook(b)
    ensures candidates == ChapterStage(canon, chapter, seed)
  {
    candidates := seed;
    var b := 1;
    while b <= BookCount
      invariant 1 <= b <= BookCount + 1
      invariant forall x :: x in candidates <==> x in seed && (x >= b || canon.HasChapter(x, chapter))
    {
      if b in candidates {
        var maxChapters := canon.ChapterCount(b);
        if chapter < 1 || chapter > maxChapters {
          candidates := candidates - {b};
        }
      }
      b := b + 1;
    }
    forall x ensures x in candidates <==> x in ChapterStage(canon, chapter, seed) {
      if x in seed {
        assert IsBook(x);
      }
    }
  }

  /** The third loop: delete each candidate whose chapter `chapter` has fewer than `verse` verses, or when `verse` < 1. */
  method EliminateByVerse(canon: Canon, chapter: int, verse: int, seed: set<int>) returns (candidates: set<int>)
    requires canon.Valid() && forall b | b in seed :: IsBook(b) && canon.HasChapter(b, chapter)
    ensures candidates == VerseStage(canon, chapter, verse, seed)
  {
    candidates := seed;
    var b := 1;
    while b <= BookCount
      invariant 1 <= b <= BookCount + 1
      invariant forall x :: x in candidates <==> x in seed && (x >= b || canon.HasVerse(x, chapter, verse))
    {
      if b in candidates {
        var maxVerses := canon.VerseCount(b, chapter);
        if verse < 1 || verse > maxVerses {
          candidates := candidates - {b};
        }
      }
      b := b + 1;
    }
    forall x ensures x in candidates <==> x in VerseStage(canon, chapter, verse, seed) {
      if x in seed {
        assert IsBook(x);
      }
    }
  }

  /**
   * The starting candidate set: the indexed book of an exact abbreviation
   * hit, else the ids of all books. This is the branch as `resolveVerse` runs
   * it, reading the index built once at module load; `Seed` is its
   * specification, which rebuilds the index from the tables.
   */
  method SeedCandidates(canon: Canon, index: map<string, int>, fragment: string) returns (seed: set<int>)
    requires canon.Valid() && index == AbbreviationIndex(canon.abbreviations)
    ensures seed == Seed(canon, fragment)
  {
    if fragment in index {
      seed := {index[fragment]};
    } else {
      seed := BooksUpTo(BookCount);
    }
  }

  /**
   * `resolveVerse`, given the abbreviation index built at module load:
   * parse, seed the candidates, run the three elimination loops and answer
   * when exactly one candidate is left.
   */
  method ResolveVerse(canon: Canon, index: map<string, int>, query: string) returns (r: Option<Reference>)
    requires canon.Valid() && index == AbbreviationIndex(canon.abbreviations)
    ensures r == Resolve(canon, query)
  {
    var parsed := Parse(query);
    if parsed.None? {
      return None;
    }
    var p := parsed.value;
    var seed := SeedCandidates(canon, index, p.fragment);
    var candidates := EliminateByName(canon, p.fragment, seed);
    candidates := EliminateByChapter(canon, p.chapter, candidates);
    candidates := EliminateByVerse(canon, p.chapter, p.verse, candidates);
    if |candidates| == 1 {
      r := Some(Reference(TheOnly(candidates), p.chapter, p.verse));
    } else {
      r := None;
    }
  }

  // ---------------------------------------------------------------------
  // What resolveVerse promises
  // ---------------------------------------------------------------------

  /** No book lists an abbreviation that lower-cases to `key`. */
  ghost predicate Unabbreviated(table: seq<seq<string>>, key: string) {
    forall b | 1 <= b <= |table| :: !Abbreviates(table, b, key)
  }

  /** Book `b` lists `key` and no later book does. */
  ghost predicate LastToAbbreviate(table: seq<seq<string>>, b: int, key: string) {
    Abbreviates(table, b, key) && forall b' | b < b' <= |table| :: !Abbreviates(table, b', key)
  }

  /**
   * The seed, in terms of the abbreviation table: a fragment that some book
   * lists as an abbreviation seeds only the last book listing it; any other
   * fragment seeds every book.
   */
  lemma SeedSpec(canon: Canon, fragment: string)
    requires canon.Valid()
    ensures forall b :: b in Seed(canon, fragment) <==>
      IsBook(b) && (Unabbreviated(canon.abbreviations, fragment) || LastToAbbreviate(canon.abbreviations, b, fragment))
  {
    AbbreviationIndexLatestWins(canon.abbreviations);
  }

  /**
   * The name test, unfolded: every digit of the name's leading number
   * reappears at the same place in the fragment, the fragment's characters
   * appear in the name in order, and the name begins with the fragment's
   * first character.
   */
  lemma NameTestMeaning(name: string, fragment: string)
    ensures NameTest(name, fragment) <==>
      && (Span(name, IsDigit) > 0 ==>
            Span(name, IsDigit) <= |fragment| && forall i | 0 <= i < Span(name, IsDigit) :: fragment[i] == name[i])
      && (exists positions :: Embeds(fragment, name, positions))
      && (fragment != [] ==> name != [] && name[0] == fragment[0])
  {
    SubsequenceIffEmbedding(fragment, name);
    var k := Span(name, IsDigit);
    var number := name[..k];
    if k <= |fragment| && forall i | 0 <= i < k :: fragment[i] == name[i] {
      assert fragment[..k] == number;
    }
    if StartsWith(fragment, number) {
      forall i | 0 <= i < k ensures fragment[i] == name[i] {
        assert fragment[..k][i] == fragment[i];
      }
    }
    if fragment != [] && StartsWith(name, fragment[..1]) {
      assert name[..1][0] == fragment[..1][0];
    }
  }

  /** Book `b` passes every step for the parsed query: seeded, named, with the chapter, with the verse. */
  predicate Admits(canon: Canon, p: ParsedQuery, b: int)
    requires canon.Valid()
  {
    && IsBook(b)
    && b in Seed(canon, p.fragment)
    && NameMatches(canon, p.fragment, b)
    && canon.HasChapter(b, p.chapter)
    && canon.HasVerse(b, p.chapter, p.verse)
  }

  /** The three loops only remove: what survives them is exactly what every step admits. */
  lemma SurvivorsAreAdmitted(canon: Canon, p: ParsedQuery)
    requires canon.Valid()
    ensures forall b :: b in Survivors(canon, p) <==> Admits(canon, p, b)
  {
    var seed := Seed(canon, p.fragment);
    var named := NameStage(canon, p.fragment, seed);
    var chaptered := ChapterStage(canon, p.chapter, named);
    forall b ensures b in Survivors(canon, p) <==> Admits(canon, p, b) {
      if b in seed {
        assert IsBook(b);
      }
      if Admits(canon, p, b) {
        assert b in named && b in chaptered;
      }
    }
  }

  /** Book `b` is admitted and no other book is. */
  ghost predicate UniquelyAdmitted(canon: Canon, p: ParsedQuery, b: int)
    requires canon.Valid()
  {
    Admits(canon, p, b) && forall b' | Admits(canon, p, b') :: b' == b
  }

  /** Exactly one book survives exactly when exactly one book is admitted, and then it is that book. */
  lemma SurvivorIffUniquelyAdmitted(canon: Canon, p: ParsedQuery)
    requires canon.Valid()
    ensures |Survivors(canon, p)| == 1 <==> exists b :: UniquelyAdmitted(canon, p, b)
    ensures forall b :: Survivors(canon, p) == {b} <==> UniquelyAdmitted(canon, p, b)
  {
    var survivors := Survivors(canon, p);
    SurvivorsAreAdmitted(canon, p);
    if |survivors| == 1 {
      var b := TheOnly(survivors);
      assert UniquelyAdmitted(canon, p, b);
    }
    forall b | UniquelyAdmitted(canon, p, b) ensures survivors == {b} {
      assert forall x :: x in survivors <==> x == b;
    }
  }

  /** A query that parses is answered with the one survivor, if there is exactly one. */
  lemma ResolveOfParsed(canon: Canon, query: string, p: ParsedQuery)
    requires canon.Valid() && Parse(query) == Some(p)
    ensures forall b :: Resolve(canon, query) == Some(Reference(b, p.chapter, p.verse)) <==> Survivors(canon, p) == {b}
    ensures Resolve(canon, query).Some? <==> |Survivors(canon, p)| == 1
  {
    var survivors := Survivors(canon, p);
    if |survivors| == 1 {
      var x := TheOnly(survivors);
      assert Resolve(canon, query) == Some(Reference(x, p.chapter, p.verse));
      forall b ensures Resolve(canon, query) == Some(Reference(b, p.chapter, p.verse)) <==> survivors == {b} {
        if survivors == {b} {
          assert b in survivors;
        }
      }
    } else {
      assert Resolve(canon, query) == None;
      forall b ensures survivors != {b} {
        assert |{b}| == 1;
      }
    }
  }

  /**
   * For a query that parses, `resolveVerse` answers exactly when exactly
   * one book is admitted, and then answers that book with the requested
   * chapter and verse.
   */
  lemma ResolveIffUniquelyAdmitted(canon: Canon, query: string, p: ParsedQuery)
    requires canon.Valid() && Parse(query) == Some(p)
    ensures Resolve(canon, query).Some? <==> exists b :: UniquelyAdmitted(canon, p, b)
    ensures forall b :: Resolve(canon, query) == Some(Reference(b, p.chapter, p.verse)) <==> UniquelyAdmitted(canon, p, b)
  {
    SurvivorIffUniquelyAdmitted(canon, p);
    ResolveOfParsed(canon, query, p);
  }

  /** The book answered passes the name test: the fragment is spelled, in order, inside its name. */
  lemma ResolvedBookMatchesName(canon: Canon, query: string)
    requires canon.Valid() && Resolve(canon, query).Some?
    ensures
      var r, f := Resolve(canon, query).value, Parse(query).value.fragment;
      var name := Lower(canon.Name(r.book));
      && (Span(name, IsDigit) > 0 ==> Span(name, IsDigit) <= |f| && forall i | 0 <= i < Span(name, IsDigit) :: f[i] == name[i])
      && (exists positions :: Embeds(f, name, positions))
      && (f != [] ==> name != [] && name[0] == f[0])
  {
    var p := Parse(query).value;
    ResolveIffUniquelyAdmitted(canon, query, p);
    var b :| UniquelyAdmitted(canon, p, b);
    NameTestMeaning(Lower(canon.Name(b)), p.fragment);
  }

  /** A fragment that is a known abbreviation can only resolve to the last book listing it. */
  lemma ResolvedBookHonorsAbbreviation(canon: Canon, query: string)
    requires canon.Valid() && Resolve(canon, query).Some?
    ensures
      var r, f := Resolve(canon, query).value, Parse(query).value.fragment;
      Unabbreviated(canon.abbreviations, f) || LastToAbbreviate(canon.abbreviations, r.book, f)
  {
    var p := Parse(query).value;
    ResolveIffUniquelyAdmitted(canon, query, p);
    var b :| UniquelyAdmitted(canon, p, b);
    SeedSpec(canon, p.fragment);
  }

  /** A string is a subsequence of anything it is a prefix of. */
  lemma {:induction false} PrefixIsSubsequence(s: string, k: nat)
    requires k <= |s|
    ensures Subsequence(s[..k], s)
    decreases k
  {
    if k > 0 {
      PrefixIsSubsequence(s[1..], k - 1);
      assert s[..k][1..] == s[1..][..k - 1];
    }
  }

  /** Trimming a name shaped like a book name, with no leading white space, keeps a prefix that reaches past its first letter. */
  lemma TrimOfShapedName(name: string, digits: nat, spaces: nat)
    requires BookNameShape(name, digits, spaces) && (digits > 0 || spaces == 0)
    ensures digits + spaces < |Trim(name)| <= |name| && Trim(name) == name[..|Trim(name)|]
  {
    assert !IsSpace(name[0]) by {
      if digits == 0 {
        assert IsAsciiLetter(name[0]);
      } else {
        assert IsDigit(name[0]);
      }
    }
    TrimStartUnchanged(name);
    var r := TrimEnd(name);
    assert Trim(name) == r;
    assert !IsSpace(name[digits + spaces]);
  }

  /** A name shaped like a book name, with no leading white space, passes the name test against its own trimmed form. */
  lemma ShapedNamePassesNameTest(name: string, digits: nat, spaces: nat)
    requires BookNameShape(name, digits, spaces) && (digits > 0 || spaces == 0)
    ensures NameTest(name, Trim(name))
  {
    var f := Trim(name);
    TrimOfShapedName(name, digits, spaces);
    SpanUnique(name, IsDigit, digits);
    assert StartsWith(f, name[..digits]) by {
      assert f[..digits] == name[..digits];
    }
    PrefixIsSubsequence(name, |f|);
    assert StartsWith(name, f[..1]) by {
      assert name[..1] == f[..1];
    }
  }

  /** A book whose display name is shaped like a book name passes the name test for its own trimmed, lower-cased name. */
  lemma OwnNameMatches(canon: Canon, b: int, digits: nat, spaces: nat)
    requires canon.Valid() && IsBook(b)
    requires BookNameShape(canon.Name(b), digits, spaces) && (digits > 0 || spaces == 0)
    ensures NameMatches(canon, Trim(Lower(canon.Name(b))), b)
  {
    LowerKeepsNameShape(canon.Name(b), digits, spaces);
    ShapedNamePassesNameTest(Lower(canon.Name(b)), digits, spaces);
  }

  /** A book's own display name followed by a chapter and verse (`<name> <chapter>:<verse>`) parses to the trimmed lower-cased name and that chapter and verse. */
  lemma OwnNameReferenceParses(canon: Canon, b: int, digits: nat, spaces: nat, chapter: nat, verse: nat)
    requires canon.Valid() && IsBook(b)
    requires BookNameShape(canon.Name(b), digits, spaces)
    ensures Parse(canon.Name(b) + " " + DecimalString(chapter) + ":" + DecimalString(verse)) ==
      Some(ParsedQuery(Trim(Lower(canon.Name(b))), chapter, verse))
  {
    ParseNameChapterVerse(canon.Name(b), digits, spaces, " ", chapter, ":", verse);
  }

  /**
   * For that query, when the chapter and verse exist, the book passes every
   * step, provided no other book is the last to list its name as an
   * abbreviation; the answer is then that book exactly when no other book
   * passes too.
   */
  lemma OwnNameReferenceResolves(canon: Canon, b: int, digits: nat, spaces: nat, chapter: nat, verse: nat)
    requires canon.Valid() && IsBook(b)
    requires BookNameShape(canon.Name(b), digits, spaces) && (digits > 0 || spaces == 0)
    requires canon.HasChapter(b, chapter) && canon.HasVerse(b, chapter, verse)
    requires var f := Trim(Lower(canon.Name(b)));
      Unabbreviated(canon.abbreviations, f) || LastToAbbreviate(canon.abbreviations, b, f)
    ensures Admits(canon, ParsedQuery(Trim(Lower(canon.Name(b))), chapter, verse), b)
    ensures Resolve(canon, canon.Name(b) + " " + DecimalString(chapter) + ":" + DecimalString(verse)) == Some(Reference(b, chapter, verse))
      <==> forall b' | Admits(canon, ParsedQuery(Trim(Lower(canon.Name(b))), chapter, verse), b') :: b' == b
  {
    var query := canon.Name(b) + " " + DecimalString(chapter) + ":" + DecimalString(verse);
    var p := ParsedQuery(Trim(Lower(canon.Name(b))), chapter, verse);
    OwnNameReferenceParses(canon, b, digits, spaces, chapter, verse);
    OwnNameAdmitted(canon, b, digits, spaces, chapter, verse);
    ResolveOfAdmitted(canon, query, p, b);
  }

  /** For a query that parses and a book it admits, the answer is that book exactly when no other book is admitted. */
  lemma ResolveOfAdmitted(canon: Canon, query: string, p: ParsedQuery, b: int)
    requires canon.Valid() && Parse(query) == Some(p) && Admits(canon, p, b)
    ensures Resolve(canon, query) == Some(Reference(b, p.chapter, p.verse)) <==> forall b' | Admits(canon, p, b') :: b' == b
  {
    ResolveIffUniquelyAdmitted(canon, query, p);
  }

  lemma OwnNameAdmitted(canon: Canon, b: int, digits: nat, spaces: nat, chapter: nat, verse: nat)
    requires canon.Valid() && IsBook(b)
    requires BookNameShape(canon.Name(b), digits, spaces) && (digits > 0 || spaces == 0)
    requires canon.HasChapter(b, chapter) && canon.HasVerse(b, chapter, verse)
    requires var f := Trim(Lower(canon.Name(b)));
      Unabbreviated(canon.abbreviations, f) || LastToAbbreviate(canon.abbreviations, b, f)
    ensures Admits(canon, ParsedQuery(Trim(Lower(canon.Name(b))), chapter, verse), b)
  {
    SeedSpec(canon, Trim(Lower(canon.Name(b))));
    OwnNameMatches(canon, b, digits, spaces);
  }

  /** A fragment that is the last book's abbreviation and passes that book's name test admits that book alone at 1:1. */
  lemma AbbreviationUniquelyAdmitted(canon: Canon, f: string, b: int)
    requires canon.Valid() && IsBook(b)
    requires LastToAbbreviate(canon.abbreviations, b, f)
    requires NameMatches(canon, f, b)
    ensures UniquelyAdmitted(canon, ParsedQuery(f, 1, 1), b)
  {
    var p := ParsedQuery(f, 1, 1);
    SeedSpec(canon, f);
    assert Admits(canon, p, b);
    forall b' | Admits(canon, p, b') ensures b' == b {
      assert b' in Seed(canon, f);
    }
  }

  /**
   * A table abbreviation followed by " 1:1" resolves to chapter 1, verse 1
   * of the last book listing it, provided that book's name also passes the
   * name test for it: the name test runs on the one seeded book as well.
   */
  lemma AbbreviationResolves(canon: Canon, a: string, digits: nat, spaces: nat, b: int)
    requires canon.Valid() && IsBook(b)
    requires BookNameShape(a, digits, spaces)
    requires LastToAbbreviate(canon.abbreviations, b, Trim(Lower(a)))
    requires NameMatches(canon, Trim(Lower(a)), b)
    ensures Resolve(canon, a + " " + DecimalString(1) + ":" + DecimalString(1)) == Some(Reference(b, 1, 1))
  {
    var p := ParsedQuery(Trim(Lower(a)), 1, 1);
    ParseNameChapterVerse(a, digits, spaces, " ", 1, ":", 1);
    AbbreviationUniquelyAdmitted(canon, p.fragment, b);
    ResolveIffUniquelyAdmitted(canon, a + " " + DecimalString(1) + ":" + DecimalString(1), p);
  }
}
