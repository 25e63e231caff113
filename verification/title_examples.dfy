/**
  Worked instances of title derivation: the example in the docstring of
  `_filename_to_title`, the same name with a hyphen, a name whose digits
  start a word, and a name whose stem is all separators.
 */
module TitleExamples {
  import opened Title
  import PathName

  /** Three separator-free words joined by single separators collapse to three
      words joined by single spaces. */
  lemma ThreeWords(w1: string, s1: char, w2: string, s2: char, w3: string)
    requires NoSeparator(w1) && NoSeparator(w2) && NoSeparator(w3)
    requires |w2| > 0 && |w3| > 0
    requires IsSeparator(s1) && IsSeparator(s2)
    ensures Collapse(w1 + [s1] + (w2 + [s2] + w3)) == w1 + [' '] + (w2 + [' '] + w3)
  {
    CollapseIdentity(w3);
    WordThenRun(w2, [s2], w3);
    WordThenRun(w1, [s1], w2 + [s2] + w3);
  }

  lemma DocstringStem()
    ensures PathName.Stem("my_photo_2024.jpg") == "my_photo_2024"
  {
    PathName.SuffixAt("my_photo_2024.jpg", 13);
  }

  lemma DocstringCollapse()
    ensures Collapse("my_photo_2024") == "my photo 2024"
  {
    ThreeWords("my", '_', "photo", '_', "2024");
    assert "my" + ['_'] + ("photo" + ['_'] + "2024") == "my_photo_2024";
    assert "my" + [' '] + ("photo" + [' '] + "2024") == "my photo 2024";
  }

  lemma DocstringStrip()
    ensures Strip("my photo 2024") == "my photo 2024"
  {
  }

  lemma DocstringTitle()
    ensures TitleCase("my photo 2024") == "My Photo 2024"
  {
    var s, r := "my photo 2024", "My Photo 2024";
    assert SameFold(r, s);
    assert TitleShaped(r);
    TitleCaseIff(s, r);
  }

  /** A digit is not a letter, so the letter after it starts a word. */
  lemma DigitStartsWord()
    ensures TitleCase("2nd") == "2Nd"
  {
    var s, r := "2nd", "2Nd";
    assert SameFold(r, s);
    assert TitleShapedAt(r, 0) && TitleShapedAt(r, 1) && TitleShapedAt(r, 2);
    TitleCaseIff(s, r);
  }

  /** The docstring's own example. */
  lemma DocstringExample()
    ensures FilenameToTitle("my_photo_2024.jpg") == "My Photo 2024"
  {
    DocstringStem();
    DocstringCollapse();
    DocstringStrip();
    DocstringTitle();
  }

  lemma HyphenCollapse()
    ensures Collapse("my_photo-2024") == "my photo 2024"
  {
    ThreeWords("my", '_', "photo", '-', "2024");
    assert "my" + ['_'] + ("photo" + ['-'] + "2024") == "my_photo-2024";
    assert "my" + [' '] + ("photo" + [' '] + "2024") == "my photo 2024";
  }

  /** A hyphen is a separator like the underscore. */
  lemma HyphenExample()
    ensures FilenameToTitle("my_photo-2024.jpg") == "My Photo 2024"
  {
    PathName.SuffixAt("my_photo-2024.jpg", 13);
    assert PathName.Stem("my_photo-2024.jpg") == "my_photo-2024";
    HyphenCollapse();
    DocstringStrip();
    DocstringTitle();
  }

  /** A stem made only of separators leaves nothing, so the raw name is the title. */
  lemma FallbackExample()
    ensures FilenameToTitle("___.png") == "___.png"
  {
    PathName.SuffixAt("___.png", 3);
    assert BlankStem("___.png");
  }
}
