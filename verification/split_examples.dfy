/**
  Worked inputs for `get_author_names`, each proved from the definitions.
 */
module AuthorSplitExamples {
  import opened Text
  import opened AuthorSplit

  lemma SampleTail()
    ensures SplitFrom("Sandy and Bo, Li", 9, 9).pieces == [" Bo", " Li"]
  {
    var s := "Sandy and Bo, Li";
    SplitFromSkip(s, 13, 13, 16);
    assert SplitFrom(s, 13, 16) == Split([s[13..]], []);
    SplitFromSkip(s, 9, 9, 12);
    assert MatchLen(s, 12) == 1;
    assert SplitFrom(s, 9, 12).pieces == [s[9..12]] + SplitFrom(s, 13, 13).pieces;
    assert s[9..12] == " Bo";
  }

  /** The `and` inside "Sandy" is not a word: no match before position 6. */
  lemma SampleHeadHasNoMatch()
    ensures forall k :: 0 <= k < 6 ==> !IsMatch("Sandy and Bo, Li", k)
    ensures MatchLen("Sandy and Bo, Li", 6) == 3
  {
    var s := "Sandy and Bo, Li";
    assert !AndAt(s, 1);
  }

  /** The word `and` and the comma split; the spaces around them stay in
      the raw pieces. */
  lemma SamplePieces()
    ensures RawSplit("Sandy and Bo, Li").pieces == ["Sandy ", " Bo", " Li"]
  {
    var s := "Sandy and Bo, Li";
    SampleHeadHasNoMatch();
    SplitFromSkip(s, 0, 0, 6);
    SampleTail();
    assert SplitFrom(s, 0, 6).pieces == [s[0..6]] + SplitFrom(s, 9, 9).pieces;
    assert s[0..6] == "Sandy ";
  }

  lemma SampleLower()
    ensures Lower("Sandy") == "sandy" && Lower("Bo") == "bo" && Lower("Li") == "li"
  {
    var l := Lower("Sandy");
    assert l[0] == 's' && l[1] == 'a' && l[2] == 'n' && l[3] == 'd' && l[4] == 'y';
    l := Lower("Bo");
    assert l[0] == 'b' && l[1] == 'o';
    l := Lower("Li");
    assert l[0] == 'l' && l[1] == 'i';
  }

  lemma SampleStrip()
    ensures Strip("Sandy ") == "Sandy" && Strip(" Bo") == "Bo" && Strip(" Li") == "Li"
  {
    var w := "Sandy";
    assert !IsSpace(w[0]) && !IsSpace(w[1]) && !IsSpace(w[2]) && !IsSpace(w[3]) && !IsSpace(w[4]);
    StripTrailingSpace(w);
    assert w + " " == "Sandy ";
    w := "Bo";
    assert !IsSpace(w[0]) && !IsSpace(w[1]);
    StripLeadingSpace(w);
    assert " " + w == " Bo";
    w := "Li";
    assert !IsSpace(w[0]) && !IsSpace(w[1]);
    StripLeadingSpace(w);
    assert " " + w == " Li";
  }

  lemma StripTrailingSpace(w: string)
    requires |w| > 0 && forall k :: 0 <= k < |w| ==> !IsSpace(w[k])
    ensures Strip(w + " ") == w
  {
    var t := w + " ";
    assert StrippedAt(t, 0, |w|);
    StripAt(t, 0, |w|);
    assert t[0..|w|] == w;
  }

  lemma StripLeadingSpace(w: string)
    requires |w| > 0 && forall k :: 0 <= k < |w| ==> !IsSpace(w[k])
    ensures Strip(" " + w) == w
  {
    var t := " " + w;
    assert StrippedAt(t, 1, |t|);
    StripAt(t, 1, |t|);
    assert t[1..|t|] == w;
  }

  /** Names are read off the raw pieces one by one. */
  lemma NamesOfThreePieces(s: string, a: string, b: string, c: string)
    requires RawSplit(s).pieces == [a, b, c]
    ensures GetAuthorNames(s) == [Lower(Strip(a)), Lower(Strip(b)), Lower(Strip(c))]
  {
  }

  /** Three names come out, in input order, stripped and lower-cased. */
  lemma SampleNames()
    ensures GetAuthorNames("Sandy and Bo, Li") == ["sandy", "bo", "li"]
  {
    SamplePieces();
    NamesOfThreePieces("Sandy and Bo, Li", "Sandy ", " Bo", " Li");
    SampleStrip();
    SampleLower();
  }

  lemma UpperCaseSampleNormalized()
    ensures Strip("Bo AND Li") == "Bo AND Li" && Lower("Bo AND Li") == "bo and li"
  {
    var s := "Bo AND Li";
    assert StrippedAt(s, 0, |s|);
    StripAt(s, 0, |s|);
    var l := Lower(s);
    assert l[0] == 'b' && l[1] == 'o' && l[2] == ' ' && l[3] == 'a' && l[4] == 'n';
    assert l[5] == 'd' && l[6] == ' ' && l[7] == 'l' && l[8] == 'i';
  }

  /** Upper-case `AND` is not a separator: it survives into the name and
      reads as `and` only after lower-casing. */
  lemma UpperCaseAndIsNotSeparator()
    ensures GetAuthorNames("Bo AND Li") == ["bo and li"]
  {
    assert NoSeparator("Bo AND Li");
    NoSeparatorGivesOneName("Bo AND Li");
    UpperCaseSampleNormalized();
  }

  /** The comma and the word `and` both split, and only a space lies
      between them. */
  lemma SerialCommaPieces()
    ensures RawSplit("Bo, and Li").pieces == ["Bo", " ", " Li"]
  {
    var s := "Bo, and Li";
    SplitFromSkip(s, 7, 7, 10);
    assert SplitFrom(s, 7, 10) == Split([s[7..]], []);
    assert MatchLen(s, 3) == 0 && MatchLen(s, 4) == 3;
    assert SplitFrom(s, 3, 3).pieces == [s[3..4]] + SplitFrom(s, 7, 7).pieces;
    SplitFromSkip(s, 0, 0, 2);
    assert MatchLen(s, 2) == 1;
    assert SplitFrom(s, 0, 2).pieces == [s[0..2]] + SplitFrom(s, 3, 3).pieces;
    assert s[0..2] == "Bo" && s[3..4] == " " && s[7..] == " Li";
  }

  lemma SerialCommaStrip()
    ensures Strip("Bo") == "Bo" && Strip(" ") == [] && Strip(" Li") == "Li"
  {
    assert StrippedAt("Bo", 0, 2);
    StripAt("Bo", 0, 2);
    StripAt(" ", 0, 0);
    SampleStrip();
  }

  /** A serial comma before `and` leaves the empty name between the two
      real names. */
  lemma SerialCommaGivesEmptyName()
    ensures GetAuthorNames("Bo, and Li") == ["bo", "", "li"]
    ensures "" in GetAuthorNames("Bo, and Li")
  {
    SerialCommaPieces();
    NamesOfThreePieces("Bo, and Li", "Bo", " ", " Li");
    SerialCommaStrip();
    SampleLower();
  }

  /** `",and"` splits into three empty pieces. */
  lemma CommaAndGivesThreeEmptyNames()
    ensures GetAuthorNames(",and") == ["", "", ""]
  {
    var s := ",and";
    assert MatchLen(s, 0) == 1 && MatchLen(s, 1) == 3;
    assert s[4..] == [] && s[1..1] == [] && s[0..0] == [];
    assert SplitFrom(s, 4, 4).pieces == [""];
    assert SplitFrom(s, 1, 1).pieces == [""] + SplitFrom(s, 4, 4).pieces;
    assert RawSplit(s).pieces == [""] + SplitFrom(s, 1, 1).pieces;
    StripAt("", 0, 0);
  }
}
