/**
  The supported-extension filter of `scan_photos_folder`: a directory entry
  is taken as a photo when the lower-cased pathlib suffix of its name is one
  of the lower-cased entries of SUPPORTED_EXTENSIONS.
 */
module Extensions {
  import opened Ascii
  import PathName

  /** SUPPORTED_EXTENSIONS as the source spells it: five lower-case
      extensions and upper-case copies of four of them. */
  const SupportedExtensions: set<string> :=
    {".jpg", ".jpeg", ".png", ".webp", ".gif", ".JPG", ".JPEG", ".PNG", ".WEBP"}

  /** The five extensions the filter recognises, in any case. */
  const ImageExtensions: set<string> := {".jpg", ".jpeg", ".png", ".webp", ".gif"}

  /** The set the filter compares against: every listed extension lower-cased.
      Lower-casing makes the upper-case copies redundant. */
  function LoweredExtensions(): (r: set<string>)
    ensures r == ImageExtensions
  {
    assert Lower(".JPG") == ".jpg" && Lower(".JPEG") == ".jpeg";
    assert Lower(".PNG") == ".png" && Lower(".WEBP") == ".webp";
    assert Lower(".jpg") == ".jpg" && Lower(".jpeg") == ".jpeg";
    assert Lower(".png") == ".png" && Lower(".webp") == ".webp" && Lower(".gif") == ".gif";
    set e | e in SupportedExtensions :: Lower(e)
  }

  /** The filter of `scan_photos_folder`, applied to one entry name. */
  function IsSupported(name: string): (accepted: bool)
    ensures accepted ==> PathName.Suffix(name) != "" && |PathName.Stem(name)| > 0
  {
    Lower(PathName.Suffix(name)) in LoweredExtensions()
  }

  /** `name` ends, ignoring case, with `ext`, and something comes before it. */
  predicate EndsWithExtension(name: string, ext: string)
  {
    |ext| < |name| && Lower(name[|name| - |ext|..]) == ext
  }

  /** A dot followed by at least one character, none of them a dot. */
  predicate IsSingleExtension(ext: string)
  {
    2 <= |ext| && ext[0] == '.' && forall j :: 1 <= j < |ext| ==> ext[j] != '.'
  }

  lemma ImageExtensionsAreSingle()
    ensures forall e :: e in ImageExtensions ==> IsSingleExtension(e)
  {
  }

  /** A name that ends in a single extension has exactly that suffix. */
  lemma SuffixOfEnding(name: string, e: string)
    requires IsSingleExtension(e) && EndsWithExtension(name, e)
    ensures Lower(PathName.Suffix(name)) == e
  {
    var k := |name| - |e|;
    var tail := name[k..];
    assert ToLower(tail[0]) == e[0];
    forall j | k < j < |name| ensures name[j] != '.' {
      assert ToLower(tail[j - k]) == e[j - k];
    }
    PathName.SuffixAt(name, k);
  }

  /** An entry is accepted exactly when its name ends, in any case, with one of
      the five image extensions, with at least one character before the dot. */
  lemma SupportedIff(name: string)
    ensures IsSupported(name) <==> exists e :: e in ImageExtensions && EndsWithExtension(name, e)
  {
    var suffix := PathName.Suffix(name);
    if IsSupported(name) {
      assert EndsWithExtension(name, Lower(suffix));
    }
    if e :| e in ImageExtensions && EndsWithExtension(name, e) {
      ImageExtensionsAreSingle();
      SuffixOfEnding(name, e);
    }
  }

  /** Upper-case ".GIF" is accepted although only ".gif" is listed. */
  lemma UpperCaseGifAccepted()
    ensures IsSupported("sunset.GIF")
  {
    assert EndsWithExtension("sunset.GIF", ".gif");
    SupportedIff("sunset.GIF");
  }

  /** A bare ".jpg" has no pathlib suffix, so it is rejected. */
  lemma BareExtensionRejected()
    ensures !IsSupported(".jpg")
  {
    PathName.SuffixEmptyIff(".jpg");
  }

  /** Only the last extension counts. */
  lemma LastExtensionCounts()
    ensures !IsSupported("photo.jpg.txt")
  {
    var name := "photo.jpg.txt";
    PathName.SuffixAt(name, 9);
    assert PathName.Suffix(name) == ".txt";
    assert Lower(".txt") == ".txt";
  }
}
