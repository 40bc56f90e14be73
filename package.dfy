/** The naming done when the annotated book is packaged: the media type of
    each map image put in the manifest, and the name of the finished book
    next to the original. Paths follow Python's `pathlib` on `/`-separated
    names. */
module Package {
  import opened Wrappers
  import opened Text

  /** The last position holding `c`, as Python's `str.rfind`. */
  function LastIndexOf(s: string, c: char): (r: Option<nat>)
    decreases |s|
    ensures r.Some? ==> r.value < |s| && s[r.value] == c
    ensures r.Some? ==> forall k :: r.value < k < |s| ==> s[k] != c
    ensures r.None? ==> forall k :: 0 <= k < |s| ==> s[k] != c
  {
    if |s| == 0 then None
    else if s[|s| - 1] == c then Some(|s| - 1)
    else LastIndexOf(s[..|s| - 1], c)
  }

  /** `PurePath(p).name`: the part after the last `/`. */
  function Name(p: string): string {
    match LastIndexOf(p, '/')
    case Some(i) => p[i + 1..]
    case None => p
  }

  /** `PurePath(p).suffix` of a name: from its last `.` on, unless that dot
      starts the name or ends it. */
  function Suffix(name: string): string {
    match LastIndexOf(name, '.')
    case Some(i) => if 0 < i < |name| - 1 then name[i..] else ""
    case None => ""
  }

  /** `PurePath(p).stem` of a name: the name without its suffix. */
  function Stem(name: string): string {
    name[..|name| - |Suffix(name)|]
  }

  /** A suffix is empty, or a dot and at least one more character with no
      dot among them, ending a name that has something before it. The stem
      and the suffix make up the name again. */
  lemma SuffixShape(name: string)
    ensures Suffix(name) == "" || (|Suffix(name)| >= 2 && Suffix(name)[0] == '.' && |Suffix(name)| < |name|)
    ensures forall k :: 1 <= k < |Suffix(name)| ==> Suffix(name)[k] != '.'
    ensures EndsWith(name, Suffix(name))
    ensures Stem(name) + Suffix(name) == name
  {
    match LastIndexOf(name, '.')
    case Some(i) =>
      if 0 < i < |name| - 1 {
        assert Suffix(name) == name[i..];
        forall k | 1 <= k < |Suffix(name)| ensures Suffix(name)[k] != '.' {
          assert Suffix(name)[k] == name[i + k];
        }
      }
    case None =>
  }

  // ---------------------------------------------------------------------
  // Media types of images
  // ---------------------------------------------------------------------

  /** The image subtypes recognised by extension, looked up on the lower-case
      name. */
  const KNOWN_IMAGE_TYPES: map<string, string> :=
    map[".svg" := "svg+xml", ".png" := "png", ".jpg" := "jpeg", ".webp" := "webp"]

  /** The subtype after `image/` in an image's manifest entry: chosen by the
      lower-case name's ending for the four known extensions, otherwise the
      name's own suffix without its dot. */
  function MediaType(filename: string): string {
    var lower := AsciiLower(filename);
    if EndsWith(lower, ".svg") then "svg+xml"
    else if EndsWith(lower, ".png") then "png"
    else if EndsWith(lower, ".jpg") then "jpeg"
    else if EndsWith(lower, ".webp") then "webp"
    else SuffixType(filename)
  }

  /** The fallback subtype: `Path(filename).suffix.replace(".", "")`. */
  function SuffixType(filename: string): string {
    ReplaceAll(Suffix(Name(filename)), ".", "")
  }

  /** The whole media type written in the manifest. */
  function ManifestMediaType(filename: string): string {
    "image/" + MediaType(filename)
  }

  /** The manifest names one of the four known image types, or `image/`
      followed by the file's own suffix with its dots dropped; the part
      after `image/` never holds a dot. */
  lemma ManifestMediaTypeChoice(filename: string)
    ensures StartsWith(ManifestMediaType(filename), "image/")
    ensures '.' !in ManifestMediaType(filename)[|"image/"|..]
    ensures ManifestMediaType(filename) in {"image/svg+xml", "image/png", "image/jpeg", "image/webp"} ||
            ManifestMediaType(filename) == "image/" + SuffixType(filename)
  {
    var m := MediaType(filename);
    MediaTypeHasNoDot(filename);
    assert ManifestMediaType(filename) == "image/" + m;
    assert ("image/" + m)[|"image/"|..] == m;
    var lower := AsciiLower(filename);
    if EndsWith(lower, ".svg") {
      assert m == "svg+xml";
      assert "image/" + m == "image/svg+xml";
    } else if EndsWith(lower, ".png") {
      assert m == "png";
      assert "image/" + m == "image/png";
    } else if EndsWith(lower, ".jpg") {
      assert m == "jpeg";
      assert "image/" + m == "image/jpeg";
    } else if EndsWith(lower, ".webp") {
      assert m == "webp";
      assert "image/" + m == "image/webp";
    } else {
      assert m == SuffixType(filename);
    }
  }

  /** Removing every `x` from `x` followed by a run without `x` leaves the
      run. */
  lemma DropLeading<T>(x: T, rest: seq<T>)
    requires x !in rest
    ensures ReplaceAll([x] + rest, [x], []) == rest
  {
    var s := [x] + rest;
    assert s[..1] == [x] && s[1..] == rest;
    forall i | 0 <= i <= |rest| - 1 ensures !OccursAt(rest, [x], i) {
      assert rest[i..i + 1] == [rest[i]];
    }
    ReplaceAllAbsent(rest, [x], []);
  }

  /** Removing the dots of a suffix leaves what follows its one dot. */
  lemma DropSuffixDot(sfx: string)
    requires sfx == "" || (|sfx| >= 2 && sfx[0] == '.')
    requires forall k :: 1 <= k < |sfx| ==> sfx[k] != '.'
    ensures ReplaceAll(sfx, ".", "") == if sfx == "" then "" else sfx[1..]
  {
    if sfx != "" {
      var rest := sfx[1..];
      assert '.' !in rest by {
        forall i | 0 <= i < |rest| ensures rest[i] != '.' {
          assert rest[i] == sfx[i + 1];
        }
      }
      assert sfx == ['.'] + rest;
      DropLeading('.', rest);
    }
  }

  /** Folding case commutes with taking the end of a string. */
  lemma LowerTail(s: string, n: nat)
    requires n <= |s|
    ensures AsciiLower(s)[|s| - n..] == AsciiLower(s[|s| - n..])
  {
  }

  /** A path ends with its name. */
  lemma NameEndsPath(p: string)
    ensures EndsWith(p, Name(p))
  {
    match LastIndexOf(p, '/')
    case Some(i) =>
    case None =>
  }

  /** An ending of an ending is an ending. */
  lemma EndsWithTrans(s: string, t: string, u: string)
    requires EndsWith(s, t) && EndsWith(t, u)
    ensures EndsWith(s, u)
  {
    assert s[|s| - |u|..] == t[|t| - |u|..];
  }

  /** The lower-case name ends with the lower-case suffix of its name. */
  lemma LowerEndsWithSuffix(filename: string)
    ensures EndsWith(AsciiLower(filename), AsciiLower(Suffix(Name(filename))))
  {
    var sfx := Suffix(Name(filename));
    SuffixShape(Name(filename));
    NameEndsPath(filename);
    EndsWithTrans(filename, Name(filename), sfx);
    LowerEndsWith(filename, sfx);
  }

  /** Folding case keeps an ending. */
  lemma LowerEndsWith(s: string, t: string)
    requires EndsWith(s, t)
    ensures EndsWith(AsciiLower(s), AsciiLower(t))
  {
    LowerTail(s, |t|);
  }

  /** The ending a lower-case name is known by decides its subtype: the
      four extensions differ in their last two characters. */
  lemma KnownEnding(lower: string, key: string)
    requires key in KNOWN_IMAGE_TYPES && EndsWith(lower, key)
    ensures EndsWith(lower, ".svg") <==> key == ".svg"
    ensures EndsWith(lower, ".png") <==> key == ".png"
    ensures EndsWith(lower, ".jpg") <==> key == ".jpg"
    ensures EndsWith(lower, ".webp") <==> key == ".webp"
  {
    var n := |lower|;
    assert lower[n - 1] == key[|key| - 1] && lower[n - 2] == key[|key| - 2];
    assert lower[n - |key|..] == key;
  }

  /** A name whose suffix is, in lower case, one of the four known
      extensions gets that extension's subtype. */
  lemma MediaTypeKnown(filename: string)
    requires AsciiLower(Suffix(Name(filename))) in KNOWN_IMAGE_TYPES
    ensures MediaType(filename) == KNOWN_IMAGE_TYPES[AsciiLower(Suffix(Name(filename)))]
  {
    var key := AsciiLower(Suffix(Name(filename)));
    LowerEndsWithSuffix(filename);
    MediaTypeOfEnding(filename, key);
  }

  /** A name whose lower-case form ends with a known extension gets that
      extension's subtype. */
  lemma MediaTypeOfEnding(filename: string, key: string)
    requires key in KNOWN_IMAGE_TYPES && EndsWith(AsciiLower(filename), key)
    ensures MediaType(filename) == KNOWN_IMAGE_TYPES[key]
  {
    var lower := AsciiLower(filename);
    KnownEnding(lower, key);
    if key == ".svg" {
      assert MediaType(filename) == "svg+xml" == KNOWN_IMAGE_TYPES[".svg"];
    } else if key == ".png" {
      assert MediaType(filename) == "png" == KNOWN_IMAGE_TYPES[".png"];
    } else if key == ".jpg" {
      assert MediaType(filename) == "jpeg" == KNOWN_IMAGE_TYPES[".jpg"];
    } else {
      assert key == ".webp";
      assert MediaType(filename) == "webp" == KNOWN_IMAGE_TYPES[".webp"];
    }
  }

  /** A name whose lower-case form ends in none of the known extensions gets
      its suffix without the dot. */
  lemma MediaTypeFallback(filename: string)
    requires forall ext :: ext in KNOWN_IMAGE_TYPES ==> !EndsWith(AsciiLower(filename), ext)
    ensures MediaType(filename) == if Suffix(Name(filename)) == "" then "" else Suffix(Name(filename))[1..]
  {
    assert ".svg" in KNOWN_IMAGE_TYPES && ".png" in KNOWN_IMAGE_TYPES;
    assert ".jpg" in KNOWN_IMAGE_TYPES && ".webp" in KNOWN_IMAGE_TYPES;
    SuffixShape(Name(filename));
    DropSuffixDot(Suffix(Name(filename)));
  }

  /** The fallback subtype holds no dot. */
  lemma SuffixTypeHasNoDot(filename: string)
    ensures '.' !in SuffixType(filename)
  {
    ReplaceAllDropsElement(Suffix(Name(filename)), '.');
  }

  /** No media type written for an image holds a dot. */
  lemma MediaTypeHasNoDot(filename: string)
    ensures '.' !in MediaType(filename)
  {
    var lower := AsciiLower(filename);
    if EndsWith(lower, ".svg") {
      assert MediaType(filename) == "svg+xml";
    } else if EndsWith(lower, ".png") {
      assert MediaType(filename) == "png";
    } else if EndsWith(lower, ".jpg") {
      assert MediaType(filename) == "jpeg";
    } else if EndsWith(lower, ".webp") {
      assert MediaType(filename) == "webp";
    } else {
      SuffixTypeHasNoDot(filename);
      assert MediaType(filename) == SuffixType(filename);
    }
  }

  /** Only the case of the name's letters does not matter to the subtype of
      a known extension. */
  lemma MediaTypeIgnoresCase(f: string, g: string)
    requires AsciiLower(f) == AsciiLower(g)
    requires exists ext :: ext in KNOWN_IMAGE_TYPES && EndsWith(AsciiLower(f), ext)
    ensures MediaType(f) == MediaType(g)
  {
  }

  // ---------------------------------------------------------------------
  // The finished book's name
  // ---------------------------------------------------------------------

  const X_RAY_TAG: string := "_x_ray"
  const WORD_WISE_TAG: string := "_word_wise"
  const EPUB_EXTENSION: string := ".epub"

  /** The finished book's file name: the stem of the original's last path
      component (`Path(book_path).stem`), tagged for each kind of annotation
      the book received, with the EPUB extension. */
  function OutputName(bookPath: string, hasEntities: bool, hasLemmas: bool): string {
    Stem(Name(bookPath)) + (if hasEntities then X_RAY_TAG else "") + (if hasLemmas then WORD_WISE_TAG else "") + EPUB_EXTENSION
  }

  /** The name keeps the stem in front and ends in `.epub`, and which tags
      it carries can be read back from it. */
  lemma OutputNameShape(bookPath: string, hasEntities: bool, hasLemmas: bool)
    ensures StartsWith(OutputName(bookPath, hasEntities, hasLemmas), Stem(Name(bookPath)))
    ensures EndsWith(OutputName(bookPath, hasEntities, hasLemmas), EPUB_EXTENSION)
    ensures |OutputName(bookPath, hasEntities, hasLemmas)| ==
            |Stem(Name(bookPath))| + (if hasEntities then 6 else 0) + (if hasLemmas then 10 else 0) + 5
  {
    var tags := (if hasEntities then X_RAY_TAG else "") + (if hasLemmas then WORD_WISE_TAG else "");
    assert OutputName(bookPath, hasEntities, hasLemmas) == Stem(Name(bookPath)) + tags + EPUB_EXTENSION;
    assert (Stem(Name(bookPath)) + tags + EPUB_EXTENSION)[..|Stem(Name(bookPath))|] == Stem(Name(bookPath));
  }

  /** Books with the same stem get different names for different kinds of
      annotation. */
  lemma OutputNameInjective(bookPath: string, e1: bool, l1: bool, e2: bool, l2: bool)
    requires OutputName(bookPath, e1, l1) == OutputName(bookPath, e2, l2)
    ensures e1 == e2 && l1 == l2
  {
    OutputNameShape(bookPath, e1, l1);
    OutputNameShape(bookPath, e2, l2);
  }
}
