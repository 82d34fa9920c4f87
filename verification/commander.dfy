/**
 * Chapter navigation in the command palette: the label shown for a
 * chapter, and the chapter before and after the one on screen. Chapters
 * are read in canon order, book by book, so every chapter has a position
 * in one sequence running from chapter 1 of the first book to the last
 * chapter of the last book; next and previous step along that sequence.
 */
module Commander {
  import opened Wrappers
  import opened Text
  import opened CanonTables
  import opened VerseQuery
  import opened ResolveVerse

  /** A `[book, chapter]` pair. */
  datatype Chapter = Chapter(book: int, chapter: int)

  predicate IsChapter(canon: Canon, x: Chapter)
    requires canon.Valid()
  {
    IsBook(x.book) && canon.HasChapter(x.book, x.chapter)
  }

  // ---------------------------------------------------------------------
  // formatChapter
  // ---------------------------------------------------------------------

  /** The book's display name, a space and the chapter number. */
  function FormatChapter(canon: Canon, x: Chapter): (s: string)
    requires canon.Valid() && IsBook(x.book)
    ensures |s| == |canon.Name(x.book)| + 1 + |NumberToString(x.chapter)|
    ensures StartsWith(s, canon.Name(x.book))
    ensures s[|canon.Name(x.book)|] == ' '
    ensures s[|canon.Name(x.book)| + 1..] == NumberToString(x.chapter)
  {
    var name := canon.Name(x.book);
    var s := name + " " + NumberToString(x.chapter);
    assert s[..|name|] == name;
    assert s[|name| + 1..] == NumberToString(x.chapter);
    s
  }

  /**
   * A chapter label typed back into the search box asks for that chapter,
   * verse 1, of the book whose trimmed, lower-cased name it begins with.
   */
  lemma FormattedChapterParses(canon: Canon, x: Chapter, digits: nat, spaces: nat)
    requires canon.Valid() && IsBook(x.book) && x.chapter >= 0
    requires BookNameShape(canon.Name(x.book), digits, spaces)
    ensures Parse(FormatChapter(canon, x)) == Some(ParsedQuery(Trim(Lower(canon.Name(x.book))), x.chapter, 1))
  {
    ParseNameChapter(canon.Name(x.book), digits, spaces, " ", x.chapter);
  }

  /**
   * The book a chapter label names passes every step of the resolver for
   * that label, provided no other book is the last to list that name as an
   * abbreviation.
   */
  lemma FormattedChapterAdmitted(canon: Canon, x: Chapter, digits: nat, spaces: nat)
    requires canon.Valid() && IsChapter(canon, x)
    requires BookNameShape(canon.Name(x.book), digits, spaces) && (digits > 0 || spaces == 0)
    requires var f := Trim(Lower(canon.Name(x.book)));
      Unabbreviated(canon.abbreviations, f) || LastToAbbreviate(canon.abbreviations, x.book, f)
    ensures Parse(FormatChapter(canon, x)).Some?
    ensures Admits(canon, Parse(FormatChapter(canon, x)).value, x.book)
  {
    var f := Trim(Lower(canon.Name(x.book)));
    FormattedChapterParses(canon, x, digits, spaces);
    assert Parse(FormatChapter(canon, x)).value == ParsedQuery(f, x.chapter, 1);
    SeedSpec(canon, f);
    OwnNameMatches(canon, x.book, digits, spaces);
  }

  // ---------------------------------------------------------------------
  // The reading order
  // ---------------------------------------------------------------------

  /** The number of chapters in the books before book `b`. */
  function ChaptersBefore(canon: Canon, b: int): (n: nat)
    requires canon.Valid() && 1 <= b <= BookCount + 1
    ensures n >= b - 1
    decreases b
  {
    if b == 1 then 0 else ChaptersBefore(canon, b - 1) + canon.ChapterCount(b - 1)
  }

  /** The number of chapters in the whole canon. */
  function TotalChapters(canon: Canon): nat
    requires canon.Valid()
  {
    ChaptersBefore(canon, BookCount + 1)
  }

  /** A chapter's place in reading order, counting from 1. */
  function Position(canon: Canon, x: Chapter): int
    requires canon.Valid() && IsBook(x.book)
  {
    ChaptersBefore(canon, x.book) + x.chapter
  }

  /** Every chapter of an earlier book comes before every chapter of a later one. */
  lemma {:induction false} ChaptersBeforeGrows(canon: Canon, b: int, b': int)
    requires canon.Valid() && 1 <= b < b' <= BookCount + 1
    ensures ChaptersBefore(canon, b) + canon.ChapterCount(b) <= ChaptersBefore(canon, b')
    decreases b'
  {
    if b' > b + 1 {
      ChaptersBeforeGrows(canon, b, b' - 1);
    }
  }

  /** Positions run from 1 to the number of chapters. */
  lemma PositionInRange(canon: Canon, x: Chapter)
    requires canon.Valid() && IsChapter(canon, x)
    ensures 1 <= Position(canon, x) <= TotalChapters(canon)
  {
    if x.book < BookCount {
      ChaptersBeforeGrows(canon, x.book, BookCount + 1);
    }
  }

  /** Reading order is book first, then chapter. */
  lemma PositionOrder(canon: Canon, x: Chapter, y: Chapter)
    requires canon.Valid() && IsChapter(canon, x) && IsChapter(canon, y)
    ensures Position(canon, x) < Position(canon, y) <==>
      x.book < y.book || (x.book == y.book && x.chapter < y.chapter)
  {
    if x.book < y.book {
      ChaptersBeforeGrows(canon, x.book, y.book);
    } else if y.book < x.book {
      ChaptersBeforeGrows(canon, y.book, x.book);
    }
  }

  /** Distinct chapters have distinct positions. */
  lemma PositionInjective(canon: Canon, x: Chapter, y: Chapter)
    requires canon.Valid() && IsChapter(canon, x) && IsChapter(canon, y)
    requires Position(canon, x) == Position(canon, y)
    ensures x == y
  {
    PositionOrder(canon, x, y);
    PositionOrder(canon, y, x);
  }

  // ---------------------------------------------------------------------
  // getNextChapter and getPreviousChapter
  // ---------------------------------------------------------------------

  /**
   * The next chapter of the same book, else chapter 1 of the next book,
   * else nothing after the last book. Looking up the chapter count of book
   * `x.book` needs it to be a book.
   */
  function NextChapter(canon: Canon, x: Chapter): (r: Option<Chapter>)
    requires canon.Valid() && IsBook(x.book)
    ensures r.Some? ==> IsBook(r.value.book)
    ensures r.None? <==> x.chapter >= canon.ChapterCount(x.book) && x.book == BookCount
  {
    if x.chapter < canon.ChapterCount(x.book) then Some(Chapter(x.book, x.chapter + 1))
    else if x.book < BookCount then Some(Chapter(x.book + 1, 1))
    else None
  }

  /**
   * The previous chapter of the same book, else the last chapter of the
   * previous book, else nothing before the first book. The previous book's
   * chapter count is looked up only when the chapter is at most 1 and the
   * book is after the first, and then the previous book must exist.
   */
  function PreviousChapter(canon: Canon, x: Chapter): (r: Option<Chapter>)
    requires canon.Valid() && (x.chapter > 1 || x.book <= 1 || IsBook(x.book - 1))
    ensures r.None? <==> x.chapter <= 1 && x.book <= 1
    ensures r.Some? && x.chapter <= 1 ==>
      IsChapter(canon, r.value) && r.value.book == x.book - 1 && r.value.chapter == canon.ChapterCount(x.book - 1)
  {
    if x.chapter > 1 then Some(Chapter(x.book, x.chapter - 1))
    else if x.book > 1 then Some(Chapter(x.book - 1, canon.ChapterCount(x.book - 1)))
    else None
  }

  /**
   * From a chapter that exists, next gives the chapter that exists and
   * comes immediately after it in reading order, and gives nothing exactly
   * at the last chapter of the canon.
   */
  lemma NextIsSuccessor(canon: Canon, x: Chapter)
    requires canon.Valid() && IsChapter(canon, x)
    ensures NextChapter(canon, x).None? <==> Position(canon, x) == TotalChapters(canon)
    ensures NextChapter(canon, x).Some? ==>
      IsChapter(canon, NextChapter(canon, x).value) &&
      Position(canon, NextChapter(canon, x).value) == Position(canon, x) + 1
  {
    if x.book < BookCount {
      ChaptersBeforeGrows(canon, x.book + 1, BookCount + 1);
    }
  }

  /**
   * From a chapter that exists, previous gives the chapter that exists and
   * comes immediately before it in reading order, and gives nothing exactly
   * at chapter 1 of the first book.
   */
  lemma PreviousIsPredecessor(canon: Canon, x: Chapter)
    requires canon.Valid() && IsChapter(canon, x)
    ensures PreviousChapter(canon, x).None? <==> Position(canon, x) == 1
    ensures PreviousChapter(canon, x).Some? ==>
      IsChapter(canon, PreviousChapter(canon, x).value) &&
      Position(canon, PreviousChapter(canon, x).value) == Position(canon, x) - 1
  {
    if x.book > 1 {
      assert ChaptersBefore(canon, x.book) >= 1;
    }
  }

  /** No chapter lies strictly between a chapter and the next one. */
  lemma NothingBetween(canon: Canon, x: Chapter, y: Chapter)
    requires canon.Valid() && IsChapter(canon, x) && IsChapter(canon, y)
    requires NextChapter(canon, x).Some?
    ensures y == x || y == NextChapter(canon, x).value ||
      Position(canon, y) < Position(canon, x) || Position(canon, NextChapter(canon, x).value) < Position(canon, y)
  {
    var z := NextChapter(canon, x).value;
    NextIsSuccessor(canon, x);
    if Position(canon, y) == Position(canon, x) {
      PositionInjective(canon, x, y);
    } else if Position(canon, y) == Position(canon, z) {
      PositionInjective(canon, z, y);
    }
  }

  /** Going forward and then back returns to the chapter one started from. */
  lemma PreviousOfNext(canon: Canon, x: Chapter)
    requires canon.Valid() && IsChapter(canon, x) && NextChapter(canon, x).Some?
    ensures PreviousChapter(canon, NextChapter(canon, x).value) == Some(x)
  {
    var y := NextChapter(canon, x).value;
    NextIsSuccessor(canon, x);
    PreviousIsPredecessor(canon, y);
    PositionInjective(canon, PreviousChapter(canon, y).value, x);
  }

  /** Going back and then forward returns to the chapter one started from. */
  lemma NextOfPrevious(canon: Canon, x: Chapter)
    requires canon.Valid() && IsChapter(canon, x) && PreviousChapter(canon, x).Some?
    ensures NextChapter(canon, PreviousChapter(canon, x).value) == Some(x)
  {
    var y := PreviousChapter(canon, x).value;
    PreviousIsPredecessor(canon, x);
    NextIsSuccessor(canon, y);
    PositionInjective(canon, NextChapter(canon, y).value, x);
  }
}
