# versesearch: the verse resolver and chapter navigation, in Dafny

This project models the core of versesearch, a Bible reader whose command
palette takes free text ("John 3:16", "jn3.16", "1 Corinthians 13", "Psa")
or a spoken phrase ("1st Corinthians chapter 13") and answers with one
`[book, chapter, verse]` reference, or with nothing when the text is
malformed, names no book, names several books, or asks for a chapter or
verse the book does not have.

The model covers:

- `resolveVerse`:
  - parsing the query with the anchored pattern `^(\d*\s*[a-z].+?)(?:(\d+)(?:\W*(\d+))?)?$`, written out as the match a backtracking engine finds;
  - the abbreviation index built once at module load;
  - seeding the candidate books;
  - the three elimination loops (book name, chapter bounds, verse bounds);
  - the final "exactly one candidate" decision.
- `isSubsequence`, the greedy subsequence test the name loop uses.
- `resolveVerseFromSpeech`:
  - ASCII lower-casing;
  - the four global ordinal rewrites;
  - the pattern `^(.*?)\s*(?:chapter\s+(\d+))(?:\s+verse\s+(\d+))?$` with its lazy book phrase;
  - the hand-off to `resolveVerse` as typed text.
- From the command palette: `formatChapter`, `getNextChapter` and `getPreviousChapter`.

The book tables (display names, abbreviation lists, verse counts per chapter)
are data. They are the parameter `canon: Canon`, and the model relies only on
what `Canon.Valid` states:

- 66 books, book `b` at index `b - 1`;
- at least one chapter per book, chapters numbered from 1;
- at least one verse per chapter.

Because the answers of the repository's own examples depend on those tables,
the examples (module `Checkpoints`) are proved up to the tables. Each query
parses to the fragment, chapter and verse shown. The answer is book `b`
exactly when `b` is the only book every step admits.

Layout, one module per file:

- `wrappers.dfy`: `Option`, which stands for `undefined`.
- `text.dfy`: the JavaScript string primitives.
- `canon.dfy`: the tables.
- `verse_query.dfy`: the query pattern and `Parse`.
- `resolve_verse.dfy`: the resolver.
- `speech.dfy`: the speech path.
- `commander.dfy`: the three navigation helpers.
- `checkpoints.dfy`: the test suite's examples, with the facts about their literals in `checkpoint_steps.dfy`.

Each loop in the source is a method proved equal to a function. The loop methods are `IsSubsequence`, `BuildAbbreviationIndex` and the three `EliminateBy…` methods. `SeedCandidates` is not a loop: it is the seed branch made executable, proved equal to its function in the same way. `ResolveVerse` has no loop of its own: it chains `SeedCandidates` and the three elimination methods, and it is proved equal to `Resolve`. The properties are proved about those functions.

The name loop also runs when the seed is the single book of an exact abbreviation hit. The code does this at src/resolveVerse.ts:42-53, and the model follows the code. So a fragment that is a table abbreviation still fails when it is not a subsequence of its book's name (see `ResolveVerse.AbbreviationResolves`).

A JavaScript `Set` built in ascending id order is iterated in that order. Deleting the element being visited does not disturb the iteration. So each elimination loop visits the ids 1 to 66 in order and skips the ids already removed.

## Model

| member | source | states |
|---|---|---|
| Text.Lower | src/resolveVerse.ts:26-27 | `toLowerCase` keeps the length and maps every character through ASCII lower-casing |
| Text.NumberToString | src/components/Commander.tsx:31 | `${n}` for an integer: the decimal digits of a natural number, and a minus sign before the digits of a negative one; `DecimalRoundTrip` is its inverse |
| Text.DecimalRoundTrip | src/resolveVerse.ts:33-34 | `parseInt` of the decimal rendering of a number gives back the number |
| Text.Trim | src/resolveVerse.ts:32 | `trim`: a non-empty result neither starts nor ends with white space; `TrimUnchanged` and `TrimAppendSpaces` give what it removes |
| Text.TrimUnchanged | src/resolveVerse.ts:32 | `trim` leaves a string alone when it neither starts nor ends with white space |
| Text.TrimAppendSpaces | src/resolveVerse.ts:32 | `trim` removes white space appended to a string that has a non-space character |
| VerseQuery.MatchTail | src/resolveVerse.ts:28 | the optional `(\d+)(?:\W*(\d+))?$` tail: any capture it makes is a digit run; `MatchTailSpec` characterises it exactly |
| VerseQuery.LetterPosition | src/resolveVerse.ts:28 | where `\d*\s*` leaves `[a-z]` to match, a position inside the text; `LetterPositionUnique` shows it is the only candidate |
| VerseQuery.MatchVersePattern | src/resolveVerse.ts:26-29 | the whole typed pattern: any chapter or verse it captures is a digit run; `MatchVersePatternSpec` characterises it exactly |
| VerseQuery.CapturedNumber | src/resolveVerse.ts:33-34 | no contract of its own: a captured group is read as a decimal number and a missing group gives 1; `DecimalRoundTrip` relates the reading to the number's rendering |
| VerseQuery.Parse | src/resolveVerse.ts:23-34 | no contract of its own: the empty query, the pattern, the trimmed lower-cased fragment and the defaults; its meaning is `ParseNeedsLetter`, `MatchVersePatternSpec` and the three `ParseName…` lemmas |
| VerseQuery.MatchTailSpec | src/resolveVerse.ts:28 | the optional chapter/verse tail matches exactly the empty text, an all-digit chapter, or chapter digits, a run of non-word characters and verse digits, with exactly those captures |
| VerseQuery.LetterPositionUnique | src/resolveVerse.ts:28 | `\d*\s*[a-z]` can only put the letter right after the longest digit run and the longest white-space run after it |
| VerseQuery.SearchEndSome | src/resolveVerse.ts:28 | the lazy `.+?` tries ends in increasing order without crossing a line terminator, and the end it stops at is the first one the table of tail matches marks |
| VerseQuery.SearchEndNone | src/resolveVerse.ts:28 | when the lazy search gives up, no end from its starting point on is marked in the table of tail matches |
| VerseQuery.MatchFromSpec | src/resolveVerse.ts:28 | from a given position of the letter, the match fails exactly when no end of the book group works, and otherwise ends the group at the smallest end that works |
| VerseQuery.MatchVersePatternSpec | src/resolveVerse.ts:26-29 | the pattern fails exactly when no end of the book group works; otherwise the lazy book group ends at the smallest end that works, and chapter and verse are the tail's captures there |
| VerseQuery.ParseNeedsLetter | src/resolveVerse.ts:23-29 | a query parses only if a letter follows its leading digits and white space and at least one more character follows that letter |
| VerseQuery.ParseNameOnly | src/resolveVerse.ts:31-34 | a book name alone parses to its trimmed lower-cased form with chapter 1 and verse 1 |
| VerseQuery.ParseNameChapter | src/resolveVerse.ts:31-34 | a name, spaces and a chapter number parse to that chapter with verse 1 |
| VerseQuery.ParseNameChapterVerse | src/resolveVerse.ts:26-34 | a name, spaces, a chapter, non-word separators and a verse parse to that chapter and verse |
| ResolveVerse.Subsequence | src/resolveVerse.ts:5-11 | the greedy subsequence test, as a recursive function: a query longer than the text is never accepted; `SubsequenceIffEmbedding` gives its exact meaning |
| ResolveVerse.IsSubsequence | src/resolveVerse.ts:5-11 | the loop returns the greedy subsequence answer |
| ResolveVerse.SubsequenceIffEmbedding | src/resolveVerse.ts:5-11 | the greedy answer is true exactly when the query's characters occur in the text at strictly increasing positions |
| ResolveVerse.AbbreviationIndex | src/resolveVerse.ts:13-18 | no contract of its own: the index the module-load loops build; `AbbreviationIndexLatestWins` gives its keys and values |
| ResolveVerse.BuildAbbreviationIndex | src/resolveVerse.ts:13-18 | the module-load loops build the abbreviation index, book by book and abbreviation by abbreviation |
| ResolveVerse.AbbreviationIndexLatestWins | src/resolveVerse.ts:13-18 | the index holds exactly the lower-cased abbreviations of the table, each mapped to the greatest book listing it |
| ResolveVerse.Seed | src/resolveVerse.ts:37-39 | the starting candidates hold only book ids; `SeedSpec` says exactly which books are seeded |
| ResolveVerse.SeedCandidates | src/resolveVerse.ts:37-39 | the seed is the indexed book on an exact hit, else all 66 book ids |
| ResolveVerse.SeedSpec | src/resolveVerse.ts:37-39 | a book is seeded exactly when no book lists the fragment, or it is the last book listing it |
| ResolveVerse.NameTest | src/resolveVerse.ts:43-52 | no contract of its own: the test that keeps a book in the name loop; `NameTestMeaning` gives its meaning |
| ResolveVerse.Survivors | src/resolveVerse.ts:36-69 | every book left after the seed and the three loops has the requested chapter and verse; `SurvivorsAreAdmitted` says exactly which books are left |
| ResolveVerse.NameStage | src/resolveVerse.ts:42-53 | the name loop only removes, and every book it keeps passes the name test |
| ResolveVerse.ChapterStage | src/resolveVerse.ts:56-61 | the chapter loop only removes, and every book it keeps has the requested chapter |
| ResolveVerse.VerseStage | src/resolveVerse.ts:64-69 | the verse loop only removes, and every book it keeps has the requested verse in that chapter |
| ResolveVerse.EliminateByName | src/resolveVerse.ts:42-53 | the name loop, deleting while it iterates, leaves exactly the candidates that pass the name test |
| ResolveVerse.EliminateByChapter | src/resolveVerse.ts:56-61 | the chapter loop leaves exactly the candidates with chapter numbers 1 to their chapter count covering the request |
| ResolveVerse.EliminateByVerse | src/resolveVerse.ts:64-69 | the verse loop leaves exactly the candidates whose chapter has the requested verse |
| ResolveVerse.NameTestMeaning | src/resolveVerse.ts:43-52 | the name test holds exactly when the name's leading number starts the fragment, the fragment's characters occur in the name in order, and the name begins with the fragment's first character |
| ResolveVerse.TheOnly | src/resolveVerse.ts:72-73 | destructuring a one-element candidate set yields its only element |
| ResolveVerse.Resolve | src/resolveVerse.ts:20-78 | an answer always names a book, a chapter it has and a verse that chapter has |
| ResolveVerse.ResolveVerse | src/resolveVerse.ts:20-78 | the imperative resolver, with the index built at load, answers what `Resolve` specifies |
| ResolveVerse.SurvivorsAreAdmitted | src/resolveVerse.ts:36-69 | a book survives the three loops exactly when it is seeded, passes the name test and has the chapter and the verse |
| ResolveVerse.SurvivorIffUniquelyAdmitted | src/resolveVerse.ts:72-75 | exactly one survivor remains exactly when exactly one book is admitted, and it is that book |
| ResolveVerse.ResolveIffUniquelyAdmitted | src/resolveVerse.ts:71-77 | for a query that parses, there is an answer exactly when one book alone is admitted, and the answer is that book with the requested chapter and verse |
| ResolveVerse.ResolveOfAdmitted | src/resolveVerse.ts:71-77 | for a query that parses and an admitted book, the answer is that book exactly when no other book is admitted |
| ResolveVerse.ResolvedBookMatchesName | src/resolveVerse.ts:42-53 | an answered book's lower-cased name contains the fragment in order, starts with its first character, and its leading number starts the fragment |
| ResolveVerse.ResolvedBookHonorsAbbreviation | src/resolveVerse.ts:37-39 | when the fragment is a table abbreviation, only the last book listing it can be the answer |
| ResolveVerse.ShapedNamePassesNameTest | src/resolveVerse.ts:43-52 | a name shaped like a book name passes the name test against its own trimmed form |
| ResolveVerse.OwnNameReferenceParses | src/resolveVerse.ts:26-34 | `<display name> <chapter>:<verse>` parses to the trimmed lower-cased name, that chapter and that verse |
| ResolveVerse.OwnNameReferenceResolves | src/resolveVerse.ts:37-77 | for that query the book is admitted provided no other book is the last to list its name as an abbreviation, and it is the answer exactly when no other book is admitted |
| ResolveVerse.AbbreviationUniquelyAdmitted | src/resolveVerse.ts:37-69 | the last book listing an abbreviation is the only book admitted at 1:1, if it passes the name test |
| ResolveVerse.AbbreviationResolves | src/resolveVerse.ts:37-77 | `<abbreviation> 1:1` resolves to chapter 1, verse 1 of the last book listing the abbreviation when that book passes the name test |
| SpeechQuery.Normalize | src/resolveVerse.ts:84-89 | lower-casing followed by the four rewrites never lengthens the utterance; the `…Unchanged`, `…Skips` and `…Rewrites` lemmas say what each rewrite does |
| SpeechQuery.ReplaceEither | src/resolveVerse.ts:86-88 | a global `a\|b` replacement by a string no longer than either word never lengthens the text |
| SpeechQuery.ReplaceEitherUnchanged | src/resolveVerse.ts:86-88 | a global `a\|b` replacement by a shorter string leaves the text unchanged exactly when neither word occurs in it |
| SpeechQuery.ReplaceEitherSkips | src/resolveVerse.ts:86-88 | text holding neither word's first character passes through the replacement unchanged, whatever follows |
| SpeechQuery.ReplaceEitherRewrites | src/resolveVerse.ts:86-88 | the first occurrence of either word is replaced by the replacement string, the text before it is kept, and the rewrite goes on after the replaced word |
| SpeechQuery.DropOrdinalSuffix | src/resolveVerse.ts:89 | the digit-"th" rewrite never lengthens the text |
| SpeechQuery.DropOrdinalSuffixUnchanged | src/resolveVerse.ts:89 | the digit-"th" rewrite leaves the text unchanged exactly when no digit is followed by "th" |
| SpeechQuery.DropOrdinalSuffixSkips | src/resolveVerse.ts:89 | text without digits passes through the digit-"th" rewrite unchanged, whatever follows |
| SpeechQuery.DropOrdinalSuffixRewrites | src/resolveVerse.ts:89 | at the first digit followed by "th" the digit is kept, the "th" is dropped, the text before it is kept and the rewrite goes on after it |
| SpeechQuery.MatchClause | src/resolveVerse.ts:93 | the `\s*chapter\s+(\d+)(?:\s+verse\s+(\d+))?$` clause: its captures are non-empty digit runs; `MatchClauseSpec` characterises it exactly |
| SpeechQuery.MatchClauseChapter | src/resolveVerse.ts:93 | white space, "chapter", white space and digits match the clause with that chapter and no verse |
| SpeechQuery.MatchClauseChapterVerse | src/resolveVerse.ts:93 | adding white space, "verse", white space and digits also captures the verse |
| SpeechQuery.MatchClauseSpec | src/resolveVerse.ts:93 | the clause pattern captures a chapter and an optional verse exactly when the text is white space, "chapter", white space and those digits, followed for a verse by white space, "verse", white space and its digits |
| SpeechQuery.FindBookEnd | src/resolveVerse.ts:92-94 | the lazy `(.*?)` searching from a given end: a phrase it returns ends at or after that end, is a prefix of the text, and the clause matches the rest with the captured numbers |
| SpeechQuery.MatchSpeech | src/resolveVerse.ts:92-94 | the whole speech pattern: the captured phrase is a prefix of the text and the clause matches the rest with the captured numbers; `MatchSpeechSpec` characterises it exactly |
| SpeechQuery.MatchSpeechSpec | src/resolveVerse.ts:92-95 | the speech pattern fails exactly when no end of the book phrase works; otherwise the phrase ends at the smallest end that works, and the numbers are captured there |
| SpeechQuery.MatchSpeechOfPhrase | src/resolveVerse.ts:92-97 | a phrase with no line terminator that does not end in white space, followed by a clause, is captured as the book exactly |
| SpeechQuery.MatchSpeechChapter | src/resolveVerse.ts:92-97 | a phrase followed by "chapter N" captures the phrase and N, with no verse |
| SpeechQuery.MatchSpeechChapterVerse | src/resolveVerse.ts:92-97 | a phrase followed by "chapter N verse M" captures the phrase, N and M |
| SpeechQuery.ResolveFromSpeech | src/resolveVerse.ts:80-107 | a whole-chapter answer names a book and a chapter it has; a verse answer is a reference that exists |
| SpeechQuery.ResolveFromSpeechNeedsClause | src/resolveVerse.ts:92-95 | speech resolves only if its normalised text ends in a clause of the shape `MatchClauseSpec` describes, with no line terminator before the clause |
| SpeechQuery.ResolveFromSpeechChapter | src/resolveVerse.ts:99-103 | without a verse, speech answers `[book, chapter]` exactly when the typed `<book> <chapter>` resolves, dropping only its verse |
| SpeechQuery.ResolveFromSpeechVerse | src/resolveVerse.ts:105-106 | with a verse, speech answers exactly the reference the typed `<book> <chapter>:<verse>` resolves to |
| Checkpoints.ParseJohn316 | src/resolveVerse.test.ts:5 | "John 3:16" asks for fragment "john", chapter 3, verse 16 |
| Checkpoints.ParseJn316 | src/resolveVerse.test.ts:6 | "jn3.16" asks for fragment "jn", chapter 3, verse 16 |
| Checkpoints.ParseFirstCorinthians13 | src/resolveVerse.test.ts:7 | "1 Corinthians 13" asks for fragment "1 corinthians", chapter 13, verse 1 |
| Checkpoints.ParseMatthew1 | src/resolveVerse.test.ts:11 | "Matthew 1" asks for chapter 1 and the default verse 1 |
| Checkpoints.ParsePsa | src/resolveVerse.test.ts:15 | "Psa" asks for chapter 1, verse 1 |
| Checkpoints.ParseJoh | src/resolveVerse.test.ts:16 | "joh" asks for chapter 1, verse 1 |
| Checkpoints.ParseP11 | src/resolveVerse.test.ts:20 | "P 1:1" parses to fragment "p", so its answer depends only on how many books "p" admits |
| Checkpoints.Parse11 | src/resolveVerse.test.ts:21 | "1:1" does not parse |
| Checkpoints.ResolveExamples | src/resolveVerse.test.ts:4-23 | each typed example answers book `b` exactly when `b` alone is admitted for its parsed query; "1:1" and "" answer nothing |
| Checkpoints.NormalizeFirstCorinthians | src/resolveVerse.test.ts:26 | "1st Corinthians chapter 13" normalises to "1 corinthians chapter 13" |
| Checkpoints.SpeechFirstCorinthians13 | src/resolveVerse.test.ts:26-28 | that utterance answers `[b, 13]` exactly when `b` alone is admitted for "1 corinthians", chapter 13, verse 1 |
| Checkpoints.NormalizeJohn | src/resolveVerse.test.ts:29 | "John chapter 3 verse 16" normalises to "john chapter 3 verse 16" |
| Checkpoints.SpeechJohn316 | src/resolveVerse.test.ts:29-31 | that utterance answers `[b, 3, 16]` exactly when `b` alone is admitted for "john", chapter 3, verse 16 |
| Commander.FormatChapter | src/components/Commander.tsx:30-32 | the label is the book's display name, one space, then the chapter number |
| Commander.FormattedChapterParses | src/components/Commander.tsx:30-32 | a chapter label typed into the palette parses to the book's trimmed lower-cased name, that chapter and verse 1 |
| Commander.FormattedChapterAdmitted | src/components/Commander.tsx:30-32 | the labelled book passes every resolver step for its own label, provided no other book is the last to list its name as an abbreviation |
| Commander.NextChapter | src/components/Commander.tsx:34-42 | next gives a book id, and gives nothing exactly at or past the last chapter of book 66 |
| Commander.PreviousChapter | src/components/Commander.tsx:44-56 | previous gives nothing exactly at chapter 1 (or below) of book 1 (or below); crossing a book boundary lands on the last chapter of the previous book |
| Commander.NextIsSuccessor | src/components/Commander.tsx:34-42 | from an existing chapter, next is the existing chapter one place later in reading order, and nothing exactly at the last chapter of the canon |
| Commander.PreviousIsPredecessor | src/components/Commander.tsx:44-56 | from an existing chapter, previous is the existing chapter one place earlier, and nothing exactly at chapter 1 of book 1 |
| Commander.NothingBetween | src/components/Commander.tsx:34-42 | no existing chapter lies strictly between a chapter and its next |
| Commander.PreviousOfNext | src/components/Commander.tsx:34-56 | going forward and then back returns to the starting chapter |
| Commander.NextOfPrevious | src/components/Commander.tsx:34-56 | going back and then forward returns to the starting chapter |

## Left out

- The tables' contents (`bookNames`, `bookAbbreviations`, `verseCount`) are data and are not part of this model. They are the `Canon` parameter. So the concrete book numbers the test suite expects (43 for John, 46 for 1 Corinthians, 40 for Matthew, 19 for Psalms, ambiguity for "P 1:1") are stated as "the book alone admitted", not as numbers.
- Unicode: `toLowerCase` is modelled for ASCII letters only. Characters are Unicode scalar values, not UTF-16 code units. Lower-casing that changes a string's length, or non-ASCII letters, are not modelled.
- `parseInt` is modelled as exact decimal conversion of a digit run. The precision loss of very long digit runs in a JavaScript number is not modelled.
- Commander.PreviousChapter: its precondition asks only that the previous book exist when it is looked up. Calls with a book id outside 1 to 67 on that path read a missing table entry, which throws in the source and is not modelled.
- Commander.NextChapter: requires a book id from 1 to 66, because the source reads that book's chapter count. A missing entry throws there.
- Commander.FormatChapter: requires a book id from 1 to 66. For any other id, `bookNames[b]` renders as "undefined" in the source, which is not modelled.
- `goTo` (src/components/Commander.tsx:21-28) is left out. It writes the location hash and a store, which is UI state.
- The React components are not part of this model: `Commander`, `Searcher`, `ChapterSelector`, `Toolbar`, the speech connector and hotkey.
- The second argument the command palette passes to `resolveVerse` (src/components/Commander.tsx:63) is ignored by the function and is not modelled.
- These files are not part of this model: `loadBibleXml`, the index generator script, `speech.ts`, `scrollInto`, `routing` and `settings`. They are I/O, DOM or browser speech APIs.
- The abbreviation index is a value built by a method at load. The model does not capture that the source keeps it in a module-level `Map` shared by all calls.

## Findings

No discrepancy between the code and its evident intent was found.
