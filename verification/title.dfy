/**
  Deriving a display title from a file name, as `_filename_to_title` does:
  take the pathlib stem, replace every run of '_', '-' and '.' by one
  space, strip surrounding whitespace, title-case, and fall back to the raw
  file name when nothing is left.
 */
module Title {
  import opened Ascii
  import opened Text
  import PathName

  /** The characters of the pattern `[_\-\.]`. */
  predicate IsSeparator(c: char) { c == '_' || c == '-' || c == '.' }

  predicate NoSeparator(s: string)
  {
    forall i :: 0 <= i < |s| ==> !IsSeparator(s[i])
  }

  predicate IsSeparatorOrSpace(c: char) { IsSeparator(c) || IsSpace(c) }


  // ---------------------------------------------------------------------
  // re.sub(r"[_\-\.]+", " ", stem)
  // ---------------------------------------------------------------------

  /** Every maximal run of separators replaced by a single space.  A
      separator followed by another one is dropped, and the last separator
      of each run becomes the space. */
  function Collapse(s: string): (r: string)
    ensures |r| <= |s|
  {
    if |s| == 0 then []
    else if IsSeparator(s[0]) && |s| > 1 && IsSeparator(s[1]) then Collapse(s[1..])
    else if IsSeparator(s[0]) then [' '] + Collapse(s[1..])
    else [s[0]] + Collapse(s[1..])
  }

  /** No separator survives collapsing. */
  lemma {:induction false} CollapseNoSeparator(s: string)
    ensures NoSeparator(Collapse(s))
  {
    if |s| > 0 {
      CollapseNoSeparator(s[1..]);
    }
  }

  /** Text without separators is left alone, and only such text is. */
  lemma {:induction false} CollapseIdentity(s: string)
    ensures Collapse(s) == s <==> NoSeparator(s)
  {
    if NoSeparator(s) && |s| > 0 {
      assert NoSeparator(s[1..]);
      CollapseIdentity(s[1..]);
    }
    CollapseNoSeparator(s);
  }

  /** A leading run of separators becomes exactly one space. */
  lemma {:induction false} CollapseAfterRun(run: string, rest: string)
    requires |run| > 0 && All(IsSeparator, run)
    requires rest == [] || !IsSeparator(rest[0])
    ensures Collapse(run + rest) == [' '] + Collapse(rest)
  {
    var s := run + rest;
    assert s[0] == run[0];
    if |run| > 1 {
      assert s[1] == run[1];
      assert s[1..] == run[1..] + rest;
      CollapseAfterRun(run[1..], rest);
    } else {
      assert s[1..] == rest;
    }
  }

  /** A non-empty run made only of separators becomes exactly one space. */
  lemma CollapseRun(s: string)
    requires |s| > 0 && All(IsSeparator, s)
    ensures Collapse(s) == " "
  {
    CollapseAfterRun(s, []);
    assert s + [] == s;
  }

  lemma Regroup(p: string, x: string, c: char, y: string)
    ensures p + (x + [c] + y) == (p + x) + [c] + y
  {
  }

  /** Collapsing works piecewise around any character that is not a separator. */
  lemma {:induction false} CollapseSplit(a: string, c: char, b: string)
    requires !IsSeparator(c)
    ensures Collapse(a + [c] + b) == Collapse(a) + [c] + Collapse(b)
  {
    var s := a + [c] + b;
    if |a| == 0 {
      assert s == [c] + b;
      assert s[1..] == b;
    } else {
      assert s[0] == a[0];
      assert s[1] == if |a| > 1 then a[1] else c;
      assert s[1..] == a[1..] + [c] + b;
      CollapseSplit(a[1..], c, b);
      if IsSeparator(a[0]) && |a| > 1 && IsSeparator(a[1]) {
      } else if IsSeparator(a[0]) {
        Regroup([' '], Collapse(a[1..]), c, Collapse(b));
      } else {
        Regroup([a[0]], Collapse(a[1..]), c, Collapse(b));
      }
    }
  }

  /** A word followed by a run of separators: the word stays, the run becomes one space. */
  lemma {:induction false} WordThenRun(word: string, run: string, rest: string)
    requires NoSeparator(word)
    requires |run| > 0 && All(IsSeparator, run)
    requires rest == [] || !IsSeparator(rest[0])
    ensures Collapse(word + run + rest) == word + [' '] + Collapse(rest)
  {
    var s := word + run + rest;
    if |word| > 0 {
      assert s[0] == word[0];
      assert s[1..] == word[1..] + run + rest;
      WordThenRun(word[1..], run, rest);
      assert word + [' '] + Collapse(rest) == [word[0]] + (word[1..] + [' '] + Collapse(rest));
    } else {
      assert s == run + rest;
      CollapseAfterRun(run, rest);
    }
  }

  /** Collapsing leaves nothing but spaces exactly when the input held nothing
      but separators and whitespace. */
  lemma {:induction false} CollapseBlank(s: string)
    ensures All(IsSpace, Collapse(s)) <==> All(IsSeparatorOrSpace, s)
  {
    if |s| > 0 {
      CollapseBlank(s[1..]);
      assert s == [s[0]] + s[1..];
      AllConcat(IsSeparatorOrSpace, [s[0]], s[1..]);
      if IsSeparator(s[0]) && |s| > 1 && IsSeparator(s[1]) {
      } else if IsSeparator(s[0]) {
        AllConcat(IsSpace, [' '], Collapse(s[1..]));
      } else {
        AllConcat(IsSpace, [s[0]], Collapse(s[1..]));
      }
    }
  }

  // ---------------------------------------------------------------------
  // str.strip()
  // ---------------------------------------------------------------------

  /** No whitespace at either end. */
  predicate IsTrimmed(s: string)
  {
    |s| == 0 || (!IsSpace(s[0]) && !IsSpace(s[|s| - 1]))
  }

  /** Python's `str.strip()` with no argument, on ASCII whitespace: the
      leading whitespace goes first, then the trailing whitespace of the rest. */
  function Strip(s: string): (r: string)
    ensures IsTrimmed(r)
    ensures LeadingRun(IsSpace, s) + |r| <= |s|
    ensures r == s[LeadingRun(IsSpace, s)..LeadingRun(IsSpace, s) + |r|]
    ensures All(IsSpace, s[LeadingRun(IsSpace, s) + |r|..])
  {
    var i := LeadingRun(IsSpace, s);
    var left := s[i..];
    var j := |left| - TrailingRun(IsSpace, left);
    assert j < |left| ==> left[j] == s[i + j];
    assert s[i + j..] == left[j..];
    left[..j]
  }

  /** Only an all-whitespace string strips to nothing. */
  lemma StripEmptyIff(s: string)
    ensures Strip(s) == "" <==> All(IsSpace, s)
  {
    var i := LeadingRun(IsSpace, s);
    var rest := s[i..];
    assert forall k :: 0 <= k < |rest| ==> rest[k] == s[i + k];
  }

  /** Stripping keeps only characters of its input. */
  lemma StripKeepsNoSeparator(s: string)
    requires NoSeparator(s)
    ensures NoSeparator(Strip(s))
  {
    var i := LeadingRun(IsSpace, s);
    forall k | 0 <= k < |Strip(s)| ensures !IsSeparator(Strip(s)[k]) {
      assert Strip(s)[k] == s[i + k];
    }
  }

  /** `Strip` returns the one trimmed core that whitespace surrounds. */
  lemma StripUnique(pre: string, core: string, post: string)
    requires All(IsSpace, pre) && All(IsSpace, post) && IsTrimmed(core)
    ensures Strip(pre + core + post) == core
  {
    var s := pre + core + post;
    if |core| > 0 {
      assert s == pre + (core + post);
      LeadingRunOf(IsSpace, pre, core + post);
      assert s[|pre|..] == core + post;
      TrailingRunOf(IsSpace, core, post);
      assert (core + post)[..|core|] == core;
    } else {
      assert s == pre + post + [];
      AllConcat(IsSpace, pre, post);
      LeadingRunOf(IsSpace, pre + post, []);
    }
  }

  // ---------------------------------------------------------------------
  // str.title()
  // ---------------------------------------------------------------------

  /** Case-insensitive equality. */
  predicate SameFold(a: string, b: string)
  {
    |a| == |b| && forall i :: 0 <= i < |a| ==> ToLower(a[i]) == ToLower(b[i])
  }

  /** Title shape: a letter is upper case exactly when it starts the string or
      follows a non-letter. */
  predicate TitleShaped(s: string)
  {
    forall i :: 0 <= i < |s| ==> TitleShapedAt(s, i)
  }

  predicate TitleShapedAt(s: string, i: nat)
    requires i < |s|
  {
    IsLetter(s[i]) ==> (IsUpper(s[i]) <==> (i == 0 || !IsLetter(s[i - 1])))
  }

  /** CPython's title loop, with `previousCased` the state carried between characters. */
  function TitleFrom(s: string, previousCased: bool): (r: string)
    ensures SameFold(r, s)
    ensures forall i :: 0 <= i < |s| && IsLetter(s[i]) ==>
              (IsUpper(r[i]) <==> if i == 0 then !previousCased else !IsLetter(s[i - 1]))
  {
    if |s| == 0 then []
    else
      var c := if previousCased then ToLower(s[0]) else ToUpper(s[0]);
      CaseFoldInvariant(s[0]);
      [c] + TitleFrom(s[1..], IsLetter(c))
  }

  /** Python's `str.title()` on ASCII text. */
  function TitleCase(s: string): (r: string)
    ensures SameFold(r, s) && TitleShaped(r)
  {
    TitleFrom(s, false)
  }

  /** Case changes touch letters only. */
  lemma SameFoldKeepsNonLetters(r: string, s: string)
    requires SameFold(r, s)
    ensures forall i :: 0 <= i < |s| && !IsLetter(s[i]) ==> r[i] == s[i]
  {
    forall i | 0 <= i < |s| && !IsLetter(s[i]) ensures r[i] == s[i] {
      assert ToLower(r[i]) == ToLower(s[i]);
    }
  }

  /** `TitleCase` is characterised by its two properties: it changes only the
      case of letters, and leaves the result title-shaped. */
  lemma TitleCaseIff(s: string, r: string)
    ensures r == TitleCase(s) <==> SameFold(r, s) && TitleShaped(r)
  {
    if SameFold(r, s) && TitleShaped(r) {
      var t := TitleCase(s);
      forall i | 0 <= i < |r| ensures r[i] == t[i] {
        assert ToLower(r[i]) == ToLower(s[i]) == ToLower(t[i]);
        if IsLetter(r[i]) {
          assert IsLetter(t[i]);
          var head := i == 0 || !IsLetter(r[i - 1]);
          if i > 0 {
            assert ToLower(r[i - 1]) == ToLower(s[i - 1]) == ToLower(t[i - 1]);
            assert IsLetter(r[i - 1]) == IsLetter(ToLower(r[i - 1])) == IsLetter(t[i - 1]);
          }
          assert TitleShapedAt(r, i) && TitleShapedAt(t, i);
          SameFoldSameCase(r[i], t[i]);
        }
      }
    }
  }

  // ---------------------------------------------------------------------
  // _filename_to_title
  // ---------------------------------------------------------------------

  /** The title before the fallback: possibly empty. */
  function DerivedTitle(filename: string): (r: string)
    ensures |r| <= |PathName.Stem(filename)|
  {
    TitleCase(Strip(Collapse(PathName.Stem(filename))))
  }

  /** The stem holds nothing but separators and whitespace. */
  predicate BlankStem(filename: string)
  {
    All(IsSeparatorOrSpace, PathName.Stem(filename))
  }

  /** The derived title is empty exactly when the stem is blank. */
  lemma DerivedTitleEmptyIff(filename: string)
    ensures DerivedTitle(filename) == "" <==> BlankStem(filename)
  {
    CollapseBlank(PathName.Stem(filename));
    StripEmptyIff(Collapse(PathName.Stem(filename)));
  }

  /** Title-casing changes no separator or whitespace character. */
  lemma TitleCaseKeeps(s: string)
    requires NoSeparator(s) && IsTrimmed(s)
    ensures NoSeparator(TitleCase(s)) && IsTrimmed(TitleCase(s))
  {
    SameFoldKeepsNonLetters(TitleCase(s), s);
  }

  /** A derived title has no separators, no surrounding whitespace, and title shape. */
  lemma DerivedTitleWellFormed(filename: string)
    ensures NoSeparator(DerivedTitle(filename))
    ensures IsTrimmed(DerivedTitle(filename))
    ensures TitleShaped(DerivedTitle(filename))
  {
    var collapsed := Collapse(PathName.Stem(filename));
    CollapseNoSeparator(PathName.Stem(filename));
    StripKeepsNoSeparator(collapsed);
    TitleCaseKeeps(Strip(collapsed));
  }

  /** `_filename_to_title`. */
  function FilenameToTitle(filename: string): (r: string)
    ensures |filename| > 0 ==> |r| > 0
    ensures BlankStem(filename) ==> r == filename
    ensures !BlankStem(filename) ==> |r| > 0 && NoSeparator(r) && IsTrimmed(r) && TitleShaped(r)
  {
    DerivedTitleEmptyIff(filename);
    DerivedTitleWellFormed(filename);
    var title := DerivedTitle(filename);
    if title == "" then filename else title
  }
}
