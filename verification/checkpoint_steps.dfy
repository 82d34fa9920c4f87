/**
 * Steps of the examples in module Checkpoints: what the particular
 * literals of those examples lower-case, trim and rewrite to, and how a
 * literal splits into the pieces the general lemmas are stated over. One
 * step per lemma keeps each example's proof small enough to be checked
 * quickly and reliably; none of them states anything about the repository
 * beyond the example it serves.
 */
module CheckpointSteps {
  import opened Wrappers
  import opened Text
  import opened CanonTables
  import opened VerseQuery
  import opened ResolveVerse
  import opened SpeechQuery

  lemma Numerals()
    ensures DecimalString(1) == "1" && DecimalString(3) == "3"
    ensures DecimalString(13) == "13" && DecimalString(16) == "16"
  {
  }

  /** Lower-case text that neither starts nor ends with white space survives `toLowerCase` and `trim`. */
  lemma TrimLowerUnchanged(s: string)
    requires IsLowerCase(s)
    requires s == [] || (!IsSpace(s[0]) && !IsSpace(s[|s| - 1]))
    ensures Trim(Lower(s)) == s
  {
    LowerOfLowerCase(s);
    TrimUnchanged(s);
  }

  /** Lowering text whose only capital is the character `c` lowers just that character. */
  lemma LowerOneCapital(a: string, c: char, b: string)
    requires IsLowerCase(a) && IsLowerCase(b)
    ensures Lower(a + [c] + b) == a + [LowerChar(c)] + b
  {
    LowerOfLowerCase(a);
    LowerOfLowerCase(b);
    LowerAppend(a + [c], b);
    LowerAppend(a, [c]);
  }

  // ---------------------------------------------------------------------
  // Typed book names
  // ---------------------------------------------------------------------

  lemma NameJohn() ensures Trim(Lower("John")) == "john" && BookNameShape("John", 0, 0) {
    assert Lower("John") == "john";
    TrimUnchanged("john");
  }

  lemma NameJn() ensures Trim(Lower("jn")) == "jn" && BookNameShape("jn", 0, 0) {
    assert Lower("jn") == "jn";
    TrimUnchanged("jn");
  }

  lemma NamePsa() ensures Trim(Lower("Psa")) == "psa" && BookNameShape("Psa", 0, 0) {
    assert Lower("Psa") == "psa";
    TrimUnchanged("psa");
  }

  lemma NameJoh() ensures Trim(Lower("joh")) == "joh" && BookNameShape("joh", 0, 0) {
    assert Lower("joh") == "joh";
    TrimUnchanged("joh");
  }

  lemma NameP() ensures Trim(Lower("P")) == "p" && BookNameShape("P", 0, 0) {
    assert Lower("P") == "p";
    TrimUnchanged("p");
  }

  lemma LowerMatthewWord() ensures Lower("Matthew") == "matthew" {}

  lemma LowerMatthew() ensures Trim(Lower("Matthew")) == "matthew" {
    LowerMatthewWord();
    TrimUnchanged("matthew");
  }

  lemma ShapeCorinthians() ensures BookNameShape("1 Corinthians", 1, 1) && BookNameShape("1 corinthians", 1, 1) {}

  lemma TrimCorinthians() ensures Trim(Lower("1 corinthians")) == "1 corinthians" {
    assert IsLowerCase("1 corinthians");
    TrimLowerUnchanged("1 corinthians");
  }

  lemma SplitCorinthians()
    ensures "1 " + ['C'] + "orinthians" == "1 Corinthians"
    ensures "1 " + [LowerChar('C')] + "orinthians" == "1 corinthians"
  {
  }

  lemma LowerCorinthiansCapital() ensures Lower("1 Corinthians") == "1 corinthians" {
    assert IsLowerCase("1 ") && IsLowerCase("orinthians");
    LowerOneCapital("1 ", 'C', "orinthians");
    SplitCorinthians();
  }

  lemma LowerCorinthians() ensures Trim(Lower("1 Corinthians")) == "1 corinthians" {
    LowerCorinthiansCapital();
    TrimCorinthians();
  }

  lemma JoinCorinthians13() ensures "1 Corinthians" + " " + "13" == "1 Corinthians 13" {}

  lemma ParseFirstCorinthiansPieces()
    ensures Parse("1 Corinthians" + " " + DecimalString(13)) == Some(ParsedQuery(Trim(Lower("1 Corinthians")), 13, 1))
  {
    ShapeCorinthians();
    ParseNameChapter("1 Corinthians", 1, 1, " ", 13);
  }

  lemma JoinMatthew1() ensures "Matthew" + " " + "1" == "Matthew 1" {}

  lemma ParseMatthewPieces()
    ensures Parse("Matthew" + " " + DecimalString(1)) == Some(ParsedQuery(Trim(Lower("Matthew")), 1, 1))
  {
    assert BookNameShape("Matthew", 0, 0);
    ParseNameChapter("Matthew", 0, 0, " ", 1);
  }

  // ---------------------------------------------------------------------
  // "1st Corinthians chapter 13"
  // ---------------------------------------------------------------------

  lemma SplitFirstCorinthians()
    ensures "1st " + ['C'] + "orinthians chapter 13" == "1st Corinthians chapter 13"
    ensures "1st " + [LowerChar('C')] + "orinthians chapter 13" == "1st corinthians chapter 13"
  {
  }

  lemma LowerFirstCorinthians() ensures Lower("1st Corinthians chapter 13") == "1st corinthians chapter 13" {
    assert IsLowerCase("1st ") && IsLowerCase("orinthians chapter 13");
    LowerOneCapital("1st ", 'C', "orinthians chapter 13");
    SplitFirstCorinthians();
  }

  lemma FirstSplit() ensures "1st corinthians chapter 13"[3..] == " corinthians chapter " + "13" {}

  lemma FirstJoin() ensures "1" + (" corinthians chapter " + "13") == "1 corinthians chapter 13" {}

  lemma FirstRewrite() ensures ReplaceEither("1st corinthians chapter 13", "1st", "first", "1") == "1 corinthians chapter 13" {
    var s := "1st corinthians chapter 13";
    assert StartsWith(s, "1st");
    FirstSplit();
    assert ReplaceEither(s, "1st", "first", "1") == "1" + ReplaceEither(" corinthians chapter " + "13", "1st", "first", "1");
    ReplaceEitherSkips(" corinthians chapter ", "13", "1st", "first", "1");
    assert ReplaceEither("13", "1st", "first", "1") == "13";
    FirstJoin();
  }

  lemma SecondTail() ensures ReplaceEither("s chapter 13", "2nd", "second", "2") == "s chapter 13" {
    var t := "s chapter 13";
    assert t[1] != "second"[1];
    assert !StartsWith(t, "second");
    assert t[1..] == " chapter 13" + [];
    ReplaceEitherSkips(" chapter 13", [], "2nd", "second", "2");
  }

  lemma SecondRewrite() ensures ReplaceEither("1 corinthians chapter 13", "2nd", "second", "2") == "1 corinthians chapter 13" {
    assert "1 corinthians chapter 13" == "1 corinthian" + "s chapter 13";
    ReplaceEitherSkips("1 corinthian", "s chapter 13", "2nd", "second", "2");
    SecondTail();
  }

  lemma ThirdAtTer() ensures ReplaceEither("ter 13", "3rd", "third", "3") == "t" + ("er 1" + "3") {
    var t := "ter 13";
    assert t[1] != "third"[1];
    assert t[1..] == "er 1" + "3";
    ReplaceEitherSkips("er 1", "3", "3rd", "third", "3");
    assert ReplaceEither("3", "3rd", "third", "3") == "3";
  }

  lemma ThirdAtThians() ensures ReplaceEither("thians chapter 13", "3rd", "third", "3") == "t" + ("hians chap" + ("t" + ("er 1" + "3"))) {
    var t := "thians chapter 13";
    assert t[3] != "third"[3];
    assert t[1..] == "hians chap" + "ter 13";
    ReplaceEitherSkips("hians chap", "ter 13", "3rd", "third", "3");
    ThirdAtTer();
  }

  lemma ThirdSplit() ensures "1 corinthians chapter 13" == "1 corin" + "thians chapter 13" {}

  lemma ThirdJoin() ensures "1 corin" + ("t" + ("hians chap" + ("t" + ("er 1" + "3")))) == "1 corinthians chapter 13" {}

  lemma ThirdRewrite() ensures ReplaceEither("1 corinthians chapter 13", "3rd", "third", "3") == "1 corinthians chapter 13" {
    ThirdSplit();
    ReplaceEitherSkips("1 corin", "thians chapter 13", "3rd", "third", "3");
    ThirdAtThians();
    ThirdJoin();
  }

  lemma OrdinalSplit() ensures "1 corinthians chapter 13"[1..] == " corinthians chapter " + "13" {}

  lemma OrdinalJoin() ensures "1" + (" corinthians chapter " + "13") == "1 corinthians chapter 13" {}

  lemma OrdinalRewrite() ensures DropOrdinalSuffix("1 corinthians chapter 13") == "1 corinthians chapter 13" {
    var s := "1 corinthians chapter 13";
    assert !OrdinalAt(s, 0);
    OrdinalSplit();
    DropOrdinalSuffixSkips(" corinthians chapter ", "13");
    assert DropOrdinalSuffix("13") == "13";
    OrdinalJoin();
  }

  lemma JoinFirstCorinthiansClause() ensures "1 corinthians" + (" " + "chapter" + " " + "13") == "1 corinthians chapter 13" {}

  lemma MatchFirstCorinthians()
    ensures MatchSpeech("1 corinthians chapter 13") == Some(SpeechCaptures("1 corinthians", "13", None))
  {
    MatchSpeechChapter("1 corinthians", " ", " ", "13");
    JoinFirstCorinthiansClause();
  }

  lemma ParseTypedFirstCorinthians()
    ensures Parse("1 corinthians" + " " + "13") == Some(ParsedQuery("1 corinthians", 13, 1))
  {
    ShapeCorinthians();
    ParseNameChapter("1 corinthians", 1, 1, " ", 13);
    Numerals();
    TrimCorinthians();
  }

  // ---------------------------------------------------------------------
  // "John chapter 3 verse 16"
  // ---------------------------------------------------------------------

  lemma SplitJohnUpper() ensures "" + ['J'] + "ohn chapter 3 verse 16" == "John chapter 3 verse 16" {}

  lemma SplitJohnLower() ensures "" + [LowerChar('J')] + "ohn chapter 3 verse 16" == "john chapter 3 verse 16" {}

  lemma LowerJohnSpeech() ensures Lower("John chapter 3 verse 16") == "john chapter 3 verse 16" {
    assert IsLowerCase("") && IsLowerCase("ohn chapter 3 verse 16");
    LowerOneCapital("", 'J', "ohn chapter 3 verse 16");
    SplitJohnUpper();
    SplitJohnLower();
  }

  lemma JohnFirstRewrite() ensures ReplaceEither("john chapter 3 verse 16", "1st", "first", "1") == "john chapter 3 verse 16" {
    assert "john chapter 3 verse 16" == "john chapter 3 verse " + "16";
    ReplaceEitherSkips("john chapter 3 verse ", "16", "1st", "first", "1");
    assert ReplaceEither("16", "1st", "first", "1") == "16";
  }

  lemma JohnSecondTail() ensures ReplaceEither("se 16", "2nd", "second", "2") == "se 16" {
    var t := "se 16";
    assert |t| < |"second"|;
    assert t[1..] == "e 16" + [];
    ReplaceEitherSkips("e 16", [], "2nd", "second", "2");
  }

  lemma JohnSecondRewrite() ensures ReplaceEither("john chapter 3 verse 16", "2nd", "second", "2") == "john chapter 3 verse 16" {
    assert "john chapter 3 verse 16" == "john chapter 3 ver" + "se 16";
    ReplaceEitherSkips("john chapter 3 ver", "se 16", "2nd", "second", "2");
    JohnSecondTail();
  }

  lemma JohnThirdAtThree() ensures ReplaceEither("3 verse 16", "3rd", "third", "3") == "3" + (" verse 16" + []) {
    var t := "3 verse 16";
    assert t[1] != "3rd"[1];
    assert t[1..] == " verse 16" + [];
    ReplaceEitherSkips(" verse 16", [], "3rd", "third", "3");
  }

  lemma JohnThirdAtTer() ensures ReplaceEither("ter 3 verse 16", "3rd", "third", "3") == "t" + ("er " + ("3" + (" verse 16" + []))) {
    var t := "ter 3 verse 16";
    assert t[1] != "third"[1];
    assert t[1..] == "er " + "3 verse 16";
    ReplaceEitherSkips("er ", "3 verse 16", "3rd", "third", "3");
    JohnThirdAtThree();
  }

  lemma JohnThirdSplit() ensures "john chapter 3 verse 16" == "john chap" + "ter 3 verse 16" {}

  lemma JohnThirdJoin() ensures "john chap" + ("t" + ("er " + ("3" + (" verse 16" + [])))) == "john chapter 3 verse 16" {}

  lemma JohnThirdRewrite() ensures ReplaceEither("john chapter 3 verse 16", "3rd", "third", "3") == "john chapter 3 verse 16" {
    JohnThirdSplit();
    ReplaceEitherSkips("john chap", "ter 3 verse 16", "3rd", "third", "3");
    JohnThirdAtTer();
    JohnThirdJoin();
  }

  lemma JohnOrdinalSplit() ensures "john chapter 3 verse 16" == "john chapter " + "3 verse 16" {}

  lemma JohnOrdinalSplitAgain() ensures "3 verse 16"[1..] == " verse " + "16" {}

  lemma JohnOrdinalJoin() ensures "john chapter " + ("3" + (" verse " + "16")) == "john chapter 3 verse 16" {}

  lemma JohnOrdinalRewrite() ensures DropOrdinalSuffix("john chapter 3 verse 16") == "john chapter 3 verse 16" {
    JohnOrdinalSplit();
    DropOrdinalSuffixSkips("john chapter ", "3 verse 16");
    assert !OrdinalAt("3 verse 16", 0);
    JohnOrdinalSplitAgain();
    DropOrdinalSuffixSkips(" verse ", "16");
    assert DropOrdinalSuffix("16") == "16";
    JohnOrdinalJoin();
  }

  lemma JoinJohnClause()
    ensures "john" + (" " + "chapter" + " " + ("3" + (" " + "verse" + " " + "16"))) == "john chapter 3 verse 16"
  {
  }

  lemma MatchJohn()
    ensures MatchSpeech("john chapter 3 verse 16") == Some(SpeechCaptures("john", "3", Some("16")))
  {
    MatchSpeechChapterVerse("john", " ", " ", "3", " ", " ", "16");
    JoinJohnClause();
  }

  lemma ParseTypedJohn()
    ensures Parse("john" + " " + "3" + ":" + "16") == Some(ParsedQuery("john", 3, 16))
  {
    Numerals();
    assert Lower("john") == "john";
    TrimUnchanged("john");
    assert BookNameShape("john", 0, 0);
    ParseNameChapterVerse("john", 0, 0, " ", 3, ":", 16);
  }
}
