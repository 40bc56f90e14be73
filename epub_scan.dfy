/** How the text of an EPUB part is cut into fragments for the parsers:
    soft hyphens are removed from the part, then every `<body…</body>`
    match is scanned for runs of text between a `>` and the next `<`. Each
    fragment carries its character offset in the hyphen-free part, which is
    where its links are spliced in later. */
module EpubScan {
  import opened Wrappers
  import opened Text

  // ---------------------------------------------------------------------
  // Soft hyphens
  // ---------------------------------------------------------------------

  const SOFT_HYPHEN: char := '\U{00AD}'

  /** The length of the soft-hyphen form starting at `i`: the character
      itself or one of its four entity spellings; 0 when none starts there.
      The alternatives are tried in the order of the pattern. */
  function HyphenAt(s: string, i: nat): (h: nat)
    requires i < |s|
    ensures i + h <= |s|
    ensures h == 0 || h == 1 || h == 5 || h == 6
    ensures s[i] == SOFT_HYPHEN ==> h == 1
  {
    if s[i] == SOFT_HYPHEN then 1
    else if OccursAt(s, "&shy;", i) then 5
    else if OccursAt(s, "&#xAD;", i) then 6
    else if OccursAt(s, "&#xad;", i) then 6
    else if OccursAt(s, "&#173;", i) then 6
    else 0
  }

  /** The text from `i` on with every soft-hyphen form removed, scanning left
      to right without overlap as `re.sub` does. */
  function DropHyphensFrom(s: string, i: nat): string
    decreases |s| - i
  {
    if i >= |s| then []
    else if HyphenAt(s, i) > 0 then DropHyphensFrom(s, i + HyphenAt(s, i))
    else [s[i]] + DropHyphensFrom(s, i + 1)
  }

  function DropHyphens(s: string): string {
    DropHyphensFrom(s, 0)
  }

  /** No soft-hyphen character is left, and the text only gets shorter. */
  lemma {:induction false} DropHyphensFromClean(s: string, i: nat)
    requires i <= |s|
    decreases |s| - i
    ensures forall k :: 0 <= k < |DropHyphensFrom(s, i)| ==> DropHyphensFrom(s, i)[k] != SOFT_HYPHEN
    ensures |DropHyphensFrom(s, i)| <= |s| - i
  {
    if i < |s| {
      if HyphenAt(s, i) > 0 {
        DropHyphensFromClean(s, i + HyphenAt(s, i));
      } else {
        DropHyphensFromClean(s, i + 1);
        var r := DropHyphensFrom(s, i + 1);
        assert DropHyphensFrom(s, i) == [s[i]] + r;
      }
    }
  }

  /** A text with no soft-hyphen form in it is left as it is. */
  lemma {:induction false} DropHyphensFromNone(s: string, i: nat)
    requires i <= |s|
    requires forall k :: i <= k < |s| ==> HyphenAt(s, k) == 0
    decreases |s| - i
    ensures DropHyphensFrom(s, i) == s[i..]
  {
    if i < |s| {
      DropHyphensFromNone(s, i + 1);
      assert s[i..] == [s[i]] + s[i + 1..];
    }
  }

  lemma DropHyphensProperties(s: string)
    ensures forall k :: 0 <= k < |DropHyphens(s)| ==> DropHyphens(s)[k] != SOFT_HYPHEN
    ensures |DropHyphens(s)| <= |s|
    ensures (forall k :: 0 <= k < |s| ==> HyphenAt(s, k) == 0) ==> DropHyphens(s) == s
  {
    DropHyphensFromClean(s, 0);
    if forall k :: 0 <= k < |s| ==> HyphenAt(s, k) == 0 {
      DropHyphensFromNone(s, 0);
    }
  }

  // ---------------------------------------------------------------------
  // Newlines
  // ---------------------------------------------------------------------

  /** `s.replace("\n", " ")`. */
  function NewlinesToSpaces(s: string): (r: string)
    ensures |r| == |s|
    ensures forall k :: 0 <= k < |s| ==> r[k] == if s[k] == '\n' then ' ' else s[k]
  {
    seq(|s|, k requires 0 <= k < |s| => if s[k] == '\n' then ' ' else s[k])
  }

  /** It is Python's `str.replace` for the one-character pattern. */
  lemma {:induction false} NewlinesToSpacesIsReplace(s: string)
    decreases |s|
    ensures ReplaceAll(s, "\n", " ") == NewlinesToSpaces(s)
  {
    if |s| > 0 {
      NewlinesToSpacesIsReplace(s[1..]);
      if s[..1] == "\n" {
        assert s[0] == '\n';
        assert NewlinesToSpaces(s) == " " + NewlinesToSpaces(s[1..]);
      } else {
        assert s[0] != '\n';
        assert NewlinesToSpaces(s) == [s[0]] + NewlinesToSpaces(s[1..]);
      }
    }
  }

  // ---------------------------------------------------------------------
  // Body matches: <body.{3,}?</body> with DOTALL
  // ---------------------------------------------------------------------

  const BODY_OPEN: string := "<body"
  const BODY_CLOSE: string := "</body>"

  /** Where a body match tried at `p` ends: just past the first `</body>`
      that leaves at least three characters after `<body`. */
  function BodyEnd(s: string, p: nat): (r: Option<nat>)
    ensures r.Some? ==> p + |BODY_OPEN| + 3 + |BODY_CLOSE| <= r.value <= |s|
  {
    if OccursAt(s, BODY_OPEN, p) then
      match FindFrom(s, BODY_CLOSE, p + |BODY_OPEN| + 3)
      case Some(q) => Some(q + |BODY_CLOSE|)
      case None => None
    else None
  }

  /** A body match tried at `p` spans `[p, e)`: it opens with `<body`, closes
      with the first `</body>` after three characters, and holds no earlier
      one. */
  lemma BodyEndShape(s: string, p: nat, e: nat)
    requires BodyEnd(s, p) == Some(e)
    ensures OccursAt(s, BODY_OPEN, p) && OccursAt(s, BODY_CLOSE, e - |BODY_CLOSE|)
    ensures forall k :: p + |BODY_OPEN| + 3 <= k < e - |BODY_CLOSE| ==> !OccursAt(s, BODY_CLOSE, k)
  {
  }

  // ---------------------------------------------------------------------
  // Text fragments: >[^<]{2,}< within one body match
  // ---------------------------------------------------------------------

  /** The first `<` at or after `from`. */
  function NextLt(t: string, from: nat): (r: Option<nat>)
    decreases |t| - from
    ensures r.Some? ==> from <= r.value < |t| && t[r.value] == '<'
    ensures r.Some? ==> forall k :: from <= k < r.value ==> t[k] != '<'
    ensures r.None? ==> forall k :: from <= k < |t| ==> t[k] != '<'
  {
    if from >= |t| then None
    else if t[from] == '<' then Some(from)
    else NextLt(t, from + 1)
  }

  /** Where `>[^<]{2,}<` matches when tried at `i`: the position of its
      closing `<`. The greedy run may hold `>` and stops at the first `<`;
      the match fails unless that leaves at least two characters. */
  function FragmentClose(t: string, i: nat): (r: Option<nat>)
    ensures r.Some? ==> i + 3 <= r.value < |t|
  {
    if i < |t| && t[i] == '>' then
      match NextLt(t, i + 1)
      case Some(j) => if j >= i + 3 then Some(j) else None
      case None => None
    else None
  }

  /** A fragment: its text with newlines made spaces, and its offset. */
  datatype TextFragment = TextFragment(text: string, offset: nat)

  /** The fragments of the body match `t` found from `from` on, left to
      right without overlap; `base` is the match's start in the part, so a
      fragment's offset is the body start, plus the start of its `>`, plus
      one. */
  function FragmentsFrom(t: string, base: nat, from: nat): seq<TextFragment>
    decreases |t| - from
  {
    if from >= |t| then []
    else match FragmentClose(t, from)
      case Some(j) => [TextFragment(NewlinesToSpaces(t[from + 1..j]), base + from + 1)] + FragmentsFrom(t, base, j + 1)
      case None => FragmentsFrom(t, base, from + 1)
  }

  /** The fragments of the part text `s` found from `from` on: every body
      match in turn, and the fragments of each. */
  function ScanFrom(s: string, from: nat): seq<TextFragment>
    decreases |s| - from
  {
    if from >= |s| then []
    else match BodyEnd(s, from)
      case Some(e) => FragmentsFrom(s[from..e], from, 0) + ScanFrom(s, e)
      case None => ScanFrom(s, from + 1)
  }

  /** The fragments of a part as read from disk: soft hyphens go first, and
      the offsets are in the hyphen-free text that is written back. */
  function PartFragments(raw: string): seq<TextFragment> {
    ScanFrom(DropHyphens(raw), 0)
  }

  /** What a fragment is in the part text `s`: a run of at least two
      characters without `<`, just after a `>` and just before a `<`, whose
      text is that run with newlines made spaces. */
  predicate InPart(s: string, f: TextFragment) {
    && 1 <= f.offset
    && |f.text| >= 2
    && f.offset + |f.text| < |s|
    && s[f.offset - 1] == '>'
    && s[f.offset + |f.text|] == '<'
    && (forall k :: f.offset <= k < f.offset + |f.text| ==> s[k] != '<')
    && NewlinesToSpaces(s[f.offset..f.offset + |f.text|]) == f.text
  }

  /** Every fragment found in the body match `t` sits in `s` at its offset,
      where `t` is `s` from `base` on. */
  lemma {:induction false} FragmentsFromInPart(s: string, base: nat, t: string, from: nat)
    requires base + |t| <= |s| && s[base..base + |t|] == t
    decreases |t| - from
    ensures forall f :: f in FragmentsFrom(t, base, from) ==> InPart(s, f) && base + from < f.offset
    ensures forall f :: f in FragmentsFrom(t, base, from) ==> f.offset + |f.text| < base + |t|
  {
    if from < |t| {
      match FragmentClose(t, from)
      case Some(j) =>
        FragmentsFromInPart(s, base, t, j + 1);
        InPartAfterFragment(s, base, t, from, j);
      case None =>
        FragmentsFromInPart(s, base, t, from + 1);
    }
  }

  /** The step of the scan where a fragment is found at `from`. */
  lemma InPartAfterFragment(s: string, base: nat, t: string, from: nat, j: nat)
    requires base + |t| <= |s| && s[base..base + |t|] == t
    requires from < |t| && FragmentClose(t, from) == Some(j)
    requires forall f :: f in FragmentsFrom(t, base, j + 1) ==> InPart(s, f) && base + j + 1 < f.offset
    requires forall f :: f in FragmentsFrom(t, base, j + 1) ==> f.offset + |f.text| < base + |t|
    ensures forall f :: f in FragmentsFrom(t, base, from) ==> InPart(s, f) && base + from < f.offset
    ensures forall f :: f in FragmentsFrom(t, base, from) ==> f.offset + |f.text| < base + |t|
  {
    var g := TextFragment(NewlinesToSpaces(t[from + 1..j]), base + from + 1);
    var rest := FragmentsFrom(t, base, j + 1);
    assert FragmentsFrom(t, base, from) == [g] + rest;
    FragmentInPart(s, base, t, from, j);
    forall f | f in [g] + rest ensures InPart(s, f) && base + from < f.offset && f.offset + |f.text| < base + |t| {
      if f != g {
        assert f in rest;
      }
    }
  }

  /** The fragment a match at `i` closing at `j` yields sits in `s`. */
  lemma FragmentInPart(s: string, base: nat, t: string, i: nat, j: nat)
    requires base + |t| <= |s| && s[base..base + |t|] == t
    requires FragmentClose(t, i) == Some(j)
    ensures InPart(s, TextFragment(NewlinesToSpaces(t[i + 1..j]), base + i + 1))
  {
    SubSlice(s, base, t, i + 1, j - i - 1);
    assert s[base + i] == t[i] && s[base + j] == t[j];
    forall k | base + i + 1 <= k < base + j ensures s[k] != '<' {
      assert s[k] == t[k - base];
    }
  }

  /** Every fragment of a part sits in the hyphen-free text at its offset,
      inside one body match. */
  lemma {:induction false} ScanFromInPart(s: string, from: nat)
    decreases |s| - from
    ensures forall f :: f in ScanFrom(s, from) ==> InPart(s, f) && from < f.offset
  {
    if from < |s| {
      match BodyEnd(s, from)
      case Some(e) =>
        ScanFromInPart(s, e);
        FragmentsFromInPart(s, from, s[from..e], 0);
      case None =>
        ScanFromInPart(s, from + 1);
    }
  }

  lemma PartFragmentsInPart(raw: string, f: TextFragment)
    requires f in PartFragments(raw)
    ensures InPart(DropHyphens(raw), f)
  {
    ScanFromInPart(DropHyphens(raw), 0);
  }

  // ---------------------------------------------------------------------
  // Order
  // ---------------------------------------------------------------------

  /** Fragments in increasing offset order, each past the end of the one
      before. */
  predicate Ordered(fs: seq<TextFragment>) {
    forall i, k :: 0 <= i < k < |fs| ==> fs[i].offset + |fs[i].text| < fs[k].offset
  }

  /** The fragments of one body match come in order, and all lie in it. */
  lemma {:induction false} FragmentsFromOrdered(t: string, base: nat, from: nat)
    decreases |t| - from
    ensures Ordered(FragmentsFrom(t, base, from))
    ensures forall f :: f in FragmentsFrom(t, base, from) ==> base + from < f.offset && f.offset + |f.text| < base + |t|
  {
    if from < |t| {
      match FragmentClose(t, from)
      case Some(j) =>
        FragmentsFromOrdered(t, base, j + 1);
        OrderedAfterFragment(t, base, from, j);
      case None =>
        FragmentsFromOrdered(t, base, from + 1);
    }
  }

  /** The step of the scan where a fragment is found at `from`. */
  lemma OrderedAfterFragment(t: string, base: nat, from: nat, j: nat)
    requires from < |t| && FragmentClose(t, from) == Some(j)
    requires Ordered(FragmentsFrom(t, base, j + 1))
    requires forall f :: f in FragmentsFrom(t, base, j + 1) ==> base + j + 1 < f.offset && f.offset + |f.text| < base + |t|
    ensures Ordered(FragmentsFrom(t, base, from))
    ensures forall f :: f in FragmentsFrom(t, base, from) ==> base + from < f.offset && f.offset + |f.text| < base + |t|
  {
    var g := TextFragment(NewlinesToSpaces(t[from + 1..j]), base + from + 1);
    var rest := FragmentsFrom(t, base, j + 1);
    assert FragmentsFrom(t, base, from) == [g] + rest;
    OrderedCons(g, rest, base + j + 1, base + |t|);
  }

  /** A fragment that ends before `lo` can go in front of ordered fragments
      that all start after `lo`. */
  lemma OrderedCons(g: TextFragment, rest: seq<TextFragment>, lo: nat, hi: nat)
    requires Ordered(rest)
    requires forall f :: f in rest ==> lo < f.offset && f.offset + |f.text| < hi
    requires g.offset + |g.text| < lo
    ensures Ordered([g] + rest)
    ensures forall f :: f in [g] + rest ==> f == g || (lo < f.offset && f.offset + |f.text| < hi)
  {
    var fs := [g] + rest;
    forall i, k | 0 <= i < k < |fs| ensures fs[i].offset + |fs[i].text| < fs[k].offset {
      assert fs[k] == rest[k - 1] && fs[k] in rest;
      if i > 0 {
        assert fs[i] == rest[i - 1];
      }
    }
  }

  /** Ordered fragments before `mid` followed by ordered fragments after it
      stay ordered. */
  lemma OrderedConcat(xs: seq<TextFragment>, ys: seq<TextFragment>, mid: nat)
    requires Ordered(xs) && Ordered(ys)
    requires forall f :: f in xs ==> f.offset + |f.text| < mid
    requires forall f :: f in ys ==> mid < f.offset
    ensures Ordered(xs + ys)
  {
    var fs := xs + ys;
    forall i, k | 0 <= i < k < |fs| ensures fs[i].offset + |fs[i].text| < fs[k].offset {
      if k < |xs| {
        assert fs[i] == xs[i] && fs[k] == xs[k];
      } else if i < |xs| {
        assert fs[i] == xs[i] && fs[i] in xs;
        assert fs[k] == ys[k - |xs|] && fs[k] in ys;
      } else {
        assert fs[i] == ys[i - |xs|] && fs[k] == ys[k - |xs|];
      }
    }
  }

  /** The fragments of a part come in offset order without overlap, so
      splicing them in order is well-formed. */
  lemma {:induction false} ScanFromOrdered(s: string, from: nat)
    decreases |s| - from
    ensures Ordered(ScanFrom(s, from))
    ensures forall f :: f in ScanFrom(s, from) ==> from < f.offset
  {
    if from < |s| {
      match BodyEnd(s, from)
      case Some(e) =>
        ScanFromOrdered(s, e);
        FragmentsFromOrdered(s[from..e], from, 0);
        OrderedConcat(FragmentsFrom(s[from..e], from, 0), ScanFrom(s, e), e);
      case None =>
        ScanFromOrdered(s, from + 1);
    }
  }

  lemma PartFragmentsOrdered(raw: string)
    ensures Ordered(PartFragments(raw))
  {
    ScanFromOrdered(DropHyphens(raw), 0);
  }
}
