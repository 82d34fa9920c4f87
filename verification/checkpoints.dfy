/**
 * The examples the repository's own test suite checks, stated against the
 * model. The book tables are a parameter here, so each example is stated
 * up to the table contents: the query parses to the fragment, chapter and
 * verse shown, and the answer is book `b` exactly when `b` is the only book
 * the parsed query admits. The facts about the particular literals these
 * proofs rest on are in module CheckpointSteps.
 */
module Checkpoints {
  import opened Wrappers
  import opened Text
  import opened CanonTables
  import opened VerseQuery
  import opened ResolveVerse
  import opened SpeechQuery
  import opened CheckpointSteps

  // ---------------------------------------------------------------------
  // resolveVerse
  // ---------------------------------------------------------------------

  /** "John 3:16" asks for chapter 3, verse 16 of the book matching "john". */
  lemma ParseJohn316()
    ensures Parse("John 3:16") == Some(ParsedQuery("john", 3, 16))
  {
    Numerals();
    NameJohn();
    assert "John" + " " + DecimalString(3) + ":" + DecimalString(16) == "John 3:16";
    ParseNameChapterVerse("John", 0, 0, " ", 3, ":", 16);
  }

  /** "jn3.16": no space before the chapter and a full stop between the numbers. */
  lemma ParseJn316()
    ensures Parse("jn3.16") == Some(ParsedQuery("jn", 3, 16))
  {
    Numerals();
    NameJn();
    assert "jn" + "" + DecimalString(3) + "." + DecimalString(16) == "jn3.16";
    ParseNameChapterVerse("jn", 0, 0, "", 3, ".", 16);
  }

  /** "1 Corinthians 13": a numbered book and a chapter; the verse defaults to 1. */
  lemma ParseFirstCorinthians13()
    ensures Parse("1 Corinthians 13") == Some(ParsedQuery("1 corinthians", 13, 1))
  {
    ParseFirstCorinthiansPieces();
    LowerCorinthians();
    Numerals();
    JoinCorinthians13();
  }

  /** "Matthew 1": the verse defaults to 1. */
  lemma ParseMatthew1()
    ensures Parse("Matthew 1") == Some(ParsedQuery("matthew", 1, 1))
  {
    ParseMatthewPieces();
    LowerMatthew();
    Numerals();
    JoinMatthew1();
  }

  /** "Psa": chapter and verse both default to 1. */
  lemma ParsePsa()
    ensures Parse("Psa") == Some(ParsedQuery("psa", 1, 1))
  {
    NamePsa();
    ParseNameOnly("Psa", 0, 0);
  }

  /** "joh": chapter and verse both default to 1. */
  lemma ParseJoh()
    ensures Parse("joh") == Some(ParsedQuery("joh", 1, 1))
  {
    NameJoh();
    ParseNameOnly("joh", 0, 0);
  }

  /** "P 1:1" parses; whether it resolves is up to how many books "p" admits. */
  lemma ParseP11()
    ensures Parse("P 1:1") == Some(ParsedQuery("p", 1, 1))
  {
    Numerals();
    NameP();
    assert "P" + " " + DecimalString(1) + ":" + DecimalString(1) == "P 1:1";
    ParseNameChapterVerse("P", 0, 0, " ", 1, ":", 1);
  }

  /** "1:1" has no letter after its leading number, so it names no book. */
  lemma Parse11()
    ensures Parse("1:1") == None
  {
    assert Lower("1:1") == "1:1";
    SpanUnique("1:1", IsDigit, 1);
    assert "1:1"[1..] == ":1";
    SpanUnique(":1", IsSpace, 0);
    assert LetterPosition("1:1") == 1;
    ParseNeedsLetter("1:1");
  }

  /** The typed examples, against any valid tables. */
  lemma ResolveExamples(canon: Canon)
    requires canon.Valid()
    ensures forall b :: Resolve(canon, "John 3:16") == Some(Reference(b, 3, 16)) <==> UniquelyAdmitted(canon, ParsedQuery("john", 3, 16), b)
    ensures forall b :: Resolve(canon, "jn3.16") == Some(Reference(b, 3, 16)) <==> UniquelyAdmitted(canon, ParsedQuery("jn", 3, 16), b)
    ensures forall b :: Resolve(canon, "1 Corinthians 13") == Some(Reference(b, 13, 1)) <==> UniquelyAdmitted(canon, ParsedQuery("1 corinthians", 13, 1), b)
    ensures forall b :: Resolve(canon, "Matthew 1") == Some(Reference(b, 1, 1)) <==> UniquelyAdmitted(canon, ParsedQuery("matthew", 1, 1), b)
    ensures forall b :: Resolve(canon, "Psa") == Some(Reference(b, 1, 1)) <==> UniquelyAdmitted(canon, ParsedQuery("psa", 1, 1), b)
    ensures forall b :: Resolve(canon, "joh") == Some(Reference(b, 1, 1)) <==> UniquelyAdmitted(canon, ParsedQuery("joh", 1, 1), b)
    ensures Resolve(canon, "P 1:1").Some? <==> exists b :: UniquelyAdmitted(canon, ParsedQuery("p", 1, 1), b)
    ensures Resolve(canon, "1:1") == None && Resolve(canon, "") == None
  {
    ParseJohn316();
    ResolveIffUniquelyAdmitted(canon, "John 3:16", ParsedQuery("john", 3, 16));
    ParseJn316();
    ResolveIffUniquelyAdmitted(canon, "jn3.16", ParsedQuery("jn", 3, 16));
    ParseFirstCorinthians13();
    ResolveIffUniquelyAdmitted(canon, "1 Corinthians 13", ParsedQuery("1 corinthians", 13, 1));
    ParseMatthew1();
    ResolveIffUniquelyAdmitted(canon, "Matthew 1", ParsedQuery("matthew", 1, 1));
    ParsePsa();
    ResolveIffUniquelyAdmitted(canon, "Psa", ParsedQuery("psa", 1, 1));
    ParseJoh();
    ResolveIffUniquelyAdmitted(canon, "joh", ParsedQuery("joh", 1, 1));
    ParseP11();
    ResolveIffUniquelyAdmitted(canon, "P 1:1", ParsedQuery("p", 1, 1));
    Parse11();
  }

  // ---------------------------------------------------------------------
  // resolveVerseFromSpeech: "1st Corinthians chapter 13"
  // ---------------------------------------------------------------------

  /** "1st Corinthians chapter 13" normalises to "1 corinthians chapter 13". */
  lemma NormalizeFirstCorinthians()
    ensures Normalize("1st Corinthians chapter 13") == "1 corinthians chapter 13"
  {
    LowerFirstCorinthians();
    FirstRewrite();
    SecondRewrite();
    ThirdRewrite();
    OrdinalRewrite();
  }

  /**
   * "1st Corinthians chapter 13" is heard as "1 corinthians 13" typed:
   * the answer is chapter 13 of book `b` exactly when `b` is the only book
   * admitted for fragment "1 corinthians", chapter 13, verse 1.
   */
  lemma SpeechFirstCorinthians13(canon: Canon)
    requires canon.Valid()
    ensures ResolveFromSpeech(canon, "1st Corinthians chapter 13").Some? <==>
      exists b :: UniquelyAdmitted(canon, ParsedQuery("1 corinthians", 13, 1), b)
    ensures forall b :: ResolveFromSpeech(canon, "1st Corinthians chapter 13") == Some(WholeChapter(b, 13)) <==>
      UniquelyAdmitted(canon, ParsedQuery("1 corinthians", 13, 1), b)
  {
    NormalizeFirstCorinthians();
    MatchFirstCorinthians();
    ResolveFromSpeechChapter(canon, "1st Corinthians chapter 13", "1 corinthians", "13");
    ParseTypedFirstCorinthians();
    ResolveIffUniquelyAdmitted(canon, "1 corinthians" + " " + "13", ParsedQuery("1 corinthians", 13, 1));
  }

  // ---------------------------------------------------------------------
  // resolveVerseFromSpeech: "John chapter 3 verse 16"
  // ---------------------------------------------------------------------

  /** "John chapter 3 verse 16" normalises to "john chapter 3 verse 16": nothing in it is an ordinal. */
  lemma NormalizeJohn()
    ensures Normalize("John chapter 3 verse 16") == "john chapter 3 verse 16"
  {
    LowerJohnSpeech();
    JohnFirstRewrite();
    JohnSecondRewrite();
    JohnThirdRewrite();
    JohnOrdinalRewrite();
  }

  /**
   * "John chapter 3 verse 16" is heard as "john 3:16" typed: the answer is
   * verse 16 of chapter 3 of book `b` exactly when `b` is the only book
   * admitted for fragment "john", chapter 3, verse 16.
   */
  lemma SpeechJohn316(canon: Canon)
    requires canon.Valid()
    ensures ResolveFromSpeech(canon, "John chapter 3 verse 16").Some? <==>
      exists b :: UniquelyAdmitted(canon, ParsedQuery("john", 3, 16), b)
    ensures forall b :: ResolveFromSpeech(canon, "John chapter 3 verse 16") == Some(AtVerse(Reference(b, 3, 16))) <==>
      UniquelyAdmitted(canon, ParsedQuery("john", 3, 16), b)
  {
    NormalizeJohn();
    MatchJohn();
    ResolveFromSpeechVerse(canon, "John chapter 3 verse 16", "john", "3", "16");
    ParseTypedJohn();
    ResolveIffUniquelyAdmitted(canon, "john" + " " + "3" + ":" + "16", ParsedQuery("john", 3, 16));
  }
}
