/**
 * The canon tables: the display name of each of the 66 books, the
 * abbreviations each book is recognised by, and, per book, the verse count
 * of each chapter. Their contents are data, not logic; the model takes them
 * as a value of `Canon` and relies only on the invariants `Valid` states.
 */
module CanonTables {

  const BookCount: nat := 66

  predicate IsBook(b: int) {
    1 <= b <= BookCount
  }

  /**
   * Book `b` lives at index `b - 1` of each sequence: `names[b - 1]` is its
   * display name, `abbreviations[b - 1]` its abbreviations in table order and
   * `verseCounts[b - 1][c - 1]` the number of verses in chapter `c`, so that
   * chapters are numbered contiguously from 1 and a book's chapter count is
   * the number of its chapter entries.
   */
  datatype Canon = Canon(names: seq<string>, abbreviations: seq<seq<string>>, verseCounts: seq<seq<int>>)
  {
    predicate Valid() {
      && |names| == BookCount
      && |abbreviations| == BookCount
      && |verseCounts| == BookCount
      && (forall i | 0 <= i < BookCount :: |verseCounts[i]| >= 1)
      && (forall i, j | 0 <= i < BookCount && 0 <= j < |verseCounts[i]| :: verseCounts[i][j] >= 1)
    }

    function Name(b: int): string
      requires Valid() && IsBook(b)
    {
      names[b - 1]
    }

    /** `Object.keys(verseCount[b]).length`. */
    function ChapterCount(b: int): (n: nat)
      requires Valid() && IsBook(b)
      ensures n >= 1
    {
      |verseCounts[b - 1]|
    }

    predicate HasChapter(b: int, c: int)
      requires Valid() && IsBook(b)
    {
      1 <= c <= ChapterCount(b)
    }

    /** `verseCount[b][c]`. */
    function VerseCount(b: int, c: int): (n: int)
      requires Valid() && IsBook(b) && HasChapter(b, c)
      ensures n >= 1
    {
      verseCounts[b - 1][c - 1]
    }

    predicate HasVerse(b: int, c: int, v: int)
      requires Valid() && IsBook(b) && HasChapter(b, c)
    {
      1 <= v <= VerseCount(b, c)
    }
  }
}
