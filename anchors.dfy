/** Splicing the annotation markup into the text of one book part: the
    recorded occurrences are walked with a cursor, the text between them is
    copied, each kept occurrence is replaced by its markup, and the epub
    namespace and the Word Wise style are injected afterwards. */
module Anchors {
  import opened Wrappers
  import opened Text

  /** What an occurrence points at: an X-Ray entity by id, or a Word Wise
      lemma by name (told apart by `isinstance(entity_id, int)`). */
  datatype Ref = EntityRef(id: nat) | LemmaRef(word: string)

  /** One recorded occurrence: where its span starts in the part, where it
      ends when the caller gave an end (`None` stands for Python's `None`),
      its original text and what it refers to. */
  datatype Occurrence = Occurrence(start: nat, end: Option<nat>, text: string, ref: Ref)

  /** Where the next copy starts once `last_end = end` has run: a slice
      `xhtml_str[None:k]` starts at the beginning, so an occurrence without
      an end sends the cursor back to 0. */
  function Resume(o: Occurrence): nat {
    if o.end.Some? then o.end.value else 0
  }

  /** Occurrences of removed entities are skipped. A lemma reference is never
      in the set of removed ids. */
  predicate Skipped(o: Occurrence, removed: set<nat>) {
    o.ref.EntityRef? && o.ref.id in removed
  }

  /** The loop state: the text produced so far and the cursor `last_end`. */
  datatype Cursor = Cursor(out: string, lastEnd: nat)

  /** One iteration of the splice loop. */
  function Step(xhtml: string, c: Cursor, o: Occurrence, removed: set<nat>, render: Occurrence -> Option<string>): Option<Cursor> {
    if Skipped(o, removed) then Some(c)
    else match render(o)
      case None => None
      case Some(markup) => Some(Cursor(c.out + PySlice(xhtml, c.lastEnd, o.start) + markup, Resume(o)))
  }

  /** The loop state after the given occurrences, None once a markup cannot
      be built. */
  function Run(xhtml: string, occs: seq<Occurrence>, removed: set<nat>, render: Occurrence -> Option<string>): Option<Cursor> {
    if occs == [] then Some(Cursor([], 0))
    else match Run(xhtml, occs[..|occs| - 1], removed, render)
      case None => None
      case Some(c) => Step(xhtml, c, occs[|occs| - 1], removed, render)
  }

  /** The spliced part: the loop's output followed by the rest of the text
      after the last cursor. */
  function Splice(xhtml: string, occs: seq<Occurrence>, removed: set<nat>, render: Occurrence -> Option<string>): Option<string> {
    match Run(xhtml, occs, removed, render)
    case None => None
    case Some(c) => Some(c.out + PySlice(xhtml, c.lastEnd, |xhtml|))
  }

  /** The splice loop of one part, as the annotator runs it. */
  method SplicePart(xhtml: string, occs: seq<Occurrence>, removed: set<nat>, render: Occurrence -> Option<string>)
    returns (r: Option<string>)
    ensures r == Splice(xhtml, occs, removed, render)
  {
    var newXhtml: string := [];
    var lastEnd: nat := 0;
    for i := 0 to |occs|
      invariant Run(xhtml, occs[..i], removed, render) == Some(Cursor(newXhtml, lastEnd))
    {
      assert occs[..i + 1][..i] == occs[..i];
      var o := occs[i];
      if o.ref.EntityRef? && o.ref.id in removed {
        continue;
      }
      newXhtml := newXhtml + PySlice(xhtml, lastEnd, o.start);
      var markup := render(o);
      if markup.None? {
        RunStaysFailed(xhtml, occs, removed, render, i + 1);
        return None;
      }
      newXhtml := newXhtml + markup.value;
      lastEnd := Resume(o);
    }
    assert occs[..|occs|] == occs;
    newXhtml := newXhtml + PySlice(xhtml, lastEnd, |xhtml|);
    r := Some(newXhtml);
  }

  /** Once the loop fails, it stays failed. */
  lemma {:induction false} RunStaysFailed(xhtml: string, occs: seq<Occurrence>, removed: set<nat>, render: Occurrence -> Option<string>, i: nat)
    requires i <= |occs| && Run(xhtml, occs[..i], removed, render).None?
    ensures Run(xhtml, occs, removed, render).None?
    decreases |occs| - i
  {
    if i < |occs| {
      assert occs[..i + 1][..i] == occs[..i];
      RunStaysFailed(xhtml, occs, removed, render, i + 1);
    } else {
      assert occs[..i] == occs;
    }
  }

  /** The occurrences that are not skipped, in order. */
  function Kept(occs: seq<Occurrence>, removed: set<nat>): (k: seq<Occurrence>)
    ensures |k| <= |occs|
    ensures forall i :: 0 <= i < |k| ==> !Skipped(k[i], removed)
  {
    if occs == [] then []
    else
      var o := occs[|occs| - 1];
      Kept(occs[..|occs| - 1], removed) + (if Skipped(o, removed) then [] else [o])
  }

  /** With no occurrences the part is unchanged. */
  lemma SpliceEmpty(xhtml: string, removed: set<nat>, render: Occurrence -> Option<string>)
    ensures Splice(xhtml, [], removed, render) == Some(xhtml)
  {
    assert Run(xhtml, [], removed, render) == Some(Cursor([], 0));
    var e: string := [];
    assert PySlice(xhtml, 0, |xhtml|) == xhtml;
    assert e + xhtml == xhtml;
  }

  /** Skipped occurrences leave no trace: splicing gives the same result as
      splicing only the kept ones. */
  lemma {:induction false} RunIgnoresSkipped(xhtml: string, occs: seq<Occurrence>, removed: set<nat>, render: Occurrence -> Option<string>)
    ensures Run(xhtml, occs, removed, render) == Run(xhtml, Kept(occs, removed), removed, render)
  {
    if occs != [] {
      var init := occs[..|occs| - 1];
      var o := occs[|occs| - 1];
      RunIgnoresSkipped(xhtml, init, removed, render);
      var k := Kept(init, removed);
      assert occs[..|occs| - 1] == init;
      if !Skipped(o, removed) {
        assert Kept(occs, removed) == k + [o];
        assert (k + [o])[..|k + [o]| - 1] == k;
      } else {
        assert Kept(occs, removed) == k + [] == k;
      }
    }
  }

  lemma SpliceIgnoresSkipped(xhtml: string, occs: seq<Occurrence>, removed: set<nat>, render: Occurrence -> Option<string>)
    ensures Splice(xhtml, occs, removed, render) == Splice(xhtml, Kept(occs, removed), removed, render)
  {
    RunIgnoresSkipped(xhtml, occs, removed, render);
  }

  /** When every occurrence belongs to a removed entity the part is unchanged. */
  lemma SpliceAllSkipped(xhtml: string, occs: seq<Occurrence>, removed: set<nat>, render: Occurrence -> Option<string>)
    requires forall i :: 0 <= i < |occs| ==> Skipped(occs[i], removed)
    ensures Splice(xhtml, occs, removed, render) == Some(xhtml)
  {
    KeptNoneSkipped(occs, removed);
    SpliceIgnoresSkipped(xhtml, occs, removed, render);
    SpliceEmpty(xhtml, removed, render);
  }

  lemma {:induction false} KeptNoneSkipped(occs: seq<Occurrence>, removed: set<nat>)
    requires forall i :: 0 <= i < |occs| ==> Skipped(occs[i], removed)
    ensures Kept(occs, removed) == []
  {
    if occs != [] {
      KeptNoneSkipped(occs[..|occs| - 1], removed);
    }
  }

  /** The spans of the kept occurrences lie inside the text, in order and
      without overlap. */
  predicate Ordered(xhtml: string, occs: seq<Occurrence>, removed: set<nat>) {
    && (forall i :: 0 <= i < |occs| && !Skipped(occs[i], removed) ==>
          occs[i].start <= Resume(occs[i]) <= |xhtml|)
    && (forall i, j :: 0 <= i < j < |occs| && !Skipped(occs[i], removed) && !Skipped(occs[j], removed) ==>
          Resume(occs[i]) <= occs[j].start)
  }

  /** The cursor after the given occurrences: the end of the last kept one. */
  function LastEnd(occs: seq<Occurrence>, removed: set<nat>): nat {
    if occs == [] then 0
    else if Skipped(occs[|occs| - 1], removed) then LastEnd(occs[..|occs| - 1], removed)
    else Resume(occs[|occs| - 1])
  }

  /** The cursor never passes the start of a later kept occurrence. */
  lemma {:induction false} LastEndBefore(xhtml: string, occs: seq<Occurrence>, removed: set<nat>, o: Occurrence)
    requires Ordered(xhtml, occs + [o], removed) && !Skipped(o, removed)
    ensures LastEnd(occs, removed) <= o.start
  {
    if occs != [] {
      var init := occs[..|occs| - 1];
      var last := occs[|occs| - 1];
      assert occs + [o] == init + [last] + [o];
      if Skipped(last, removed) {
        OrderedDropLast(xhtml, init, last, o, removed);
        LastEndBefore(xhtml, init, removed, o);
      } else {
        assert (occs + [o])[|occs| - 1] == last && (occs + [o])[|occs|] == o;
      }
    }
  }

  lemma OrderedDropLast(xhtml: string, init: seq<Occurrence>, last: Occurrence, o: Occurrence, removed: set<nat>)
    requires Ordered(xhtml, init + [last] + [o], removed)
    ensures Ordered(xhtml, init + [o], removed)
  {
    var big := init + [last] + [o];
    var small := init + [o];
    assert forall i :: 0 <= i < |init| ==> small[i] == big[i];
    assert small[|init|] == big[|init| + 1];
  }

  lemma OrderedPrefix(xhtml: string, occs: seq<Occurrence>, o: Occurrence, removed: set<nat>)
    requires Ordered(xhtml, occs + [o], removed)
    ensures Ordered(xhtml, occs, removed)
  {
    assert forall i :: 0 <= i < |occs| ==> (occs + [o])[i] == occs[i];
  }

  /** Markup that reproduces each kept span's original text gives back the
      part: everything outside the spans is copied verbatim. */
  lemma {:induction false} RunCopiesGaps(xhtml: string, occs: seq<Occurrence>, removed: set<nat>, render: Occurrence -> Option<string>)
    requires Ordered(xhtml, occs, removed)
    requires forall i :: 0 <= i < |occs| && !Skipped(occs[i], removed) ==>
               render(occs[i]) == Some(xhtml[occs[i].start..Resume(occs[i])])
    ensures LastEnd(occs, removed) <= |xhtml|
    ensures Run(xhtml, occs, removed, render) ==
            Some(Cursor(xhtml[..LastEnd(occs, removed)], LastEnd(occs, removed)))
  {
    if occs != [] {
      var init := occs[..|occs| - 1];
      var o := occs[|occs| - 1];
      assert occs == init + [o];
      OrderedPrefix(xhtml, init, o, removed);
      RunCopiesGaps(xhtml, init, removed, render);
      if !Skipped(o, removed) {
        LastEndBefore(xhtml, init, removed, o);
        var e := LastEnd(init, removed);
        GapAndSpan(xhtml, e, o.start, Resume(o));
      }
    }
  }

  lemma GapAndSpan(xhtml: string, e: nat, s: nat, t: nat)
    requires e <= s <= t <= |xhtml|
    ensures xhtml[..e] + PySlice(xhtml, e, s) + xhtml[s..t] == xhtml[..t]
  {
  }

  lemma SpliceRoundTrip(xhtml: string, occs: seq<Occurrence>, removed: set<nat>, render: Occurrence -> Option<string>)
    requires Ordered(xhtml, occs, removed)
    requires forall i :: 0 <= i < |occs| && !Skipped(occs[i], removed) ==>
               render(occs[i]) == Some(xhtml[occs[i].start..Resume(occs[i])])
    ensures Splice(xhtml, occs, removed, render) == Some(xhtml)
  {
    RunCopiesGaps(xhtml, occs, removed, render);
    var e := LastEnd(occs, removed);
    assert xhtml[..e] + PySlice(xhtml, e, |xhtml|) == xhtml;
  }

  /** An occurrence recorded without an end sends the cursor back to the
      beginning: after its markup the whole part is copied again, so the
      text before the occurrence appears twice. */
  lemma MissingEndRepeatsPart(xhtml: string, o: Occurrence, removed: set<nat>, render: Occurrence -> Option<string>, m: string)
    requires o.end.None? && !Skipped(o, removed) && render(o) == Some(m)
    ensures Splice(xhtml, [o], removed, render) == Some(PySlice(xhtml, 0, o.start) + m + xhtml)
  {
    assert [o][..0] == [];
    assert Run(xhtml, [o], removed, render) == Some(Cursor([] + PySlice(xhtml, 0, o.start) + m, 0));
    assert PySlice(xhtml, 0, |xhtml|) == xhtml;
    assert [] + PySlice(xhtml, 0, o.start) + m == PySlice(xhtml, 0, o.start) + m;
  }

  /** The splice fails exactly when some kept occurrence has no markup. */
  lemma {:induction false} RunFailsOnlyOnMarkup(xhtml: string, occs: seq<Occurrence>, removed: set<nat>, render: Occurrence -> Option<string>)
    ensures Run(xhtml, occs, removed, render).None? <==>
            exists i :: 0 <= i < |occs| && !Skipped(occs[i], removed) && render(occs[i]).None?
  {
    if occs != [] {
      var init := occs[..|occs| - 1];
      var o := occs[|occs| - 1];
      RunFailsOnlyOnMarkup(xhtml, init, removed, render);
      assert forall i :: 0 <= i < |init| ==> occs[i] == init[i];
    }
  }

  // ---------------------------------------------------------------------
  // Ordering the occurrences by start
  // ---------------------------------------------------------------------

  predicate SortedByStart(occs: seq<Occurrence>) {
    forall i, j :: 0 <= i < j < |occs| ==> occs[i].start <= occs[j].start
  }

  /** Places `o` after every leading occurrence that starts no later. */
  function InsertByStart(o: Occurrence, sorted: seq<Occurrence>): (r: seq<Occurrence>)
    ensures multiset(r) == multiset(sorted) + multiset{o}
    ensures |r| == |sorted| + 1
  {
    if sorted == [] then [o]
    else if sorted[0].start <= o.start then
      assert sorted == [sorted[0]] + sorted[1..];
      [sorted[0]] + InsertByStart(o, sorted[1..])
    else [o] + sorted
  }

  /** `sorted(entity_list, key=lambda x: x[0])`. */
  function SortByStart(occs: seq<Occurrence>): seq<Occurrence> {
    if occs == [] then [] else InsertByStart(occs[|occs| - 1], SortByStart(occs[..|occs| - 1]))
  }

  lemma {:induction false} InsertByStartBound(o: Occurrence, sorted: seq<Occurrence>, b: nat)
    requires b <= o.start && forall k :: 0 <= k < |sorted| ==> b <= sorted[k].start
    ensures forall k :: 0 <= k < |InsertByStart(o, sorted)| ==> b <= InsertByStart(o, sorted)[k].start
  {
    if sorted != [] && sorted[0].start <= o.start {
      InsertByStartBound(o, sorted[1..], b);
    }
  }

  lemma {:induction false} InsertByStartSorted(o: Occurrence, sorted: seq<Occurrence>)
    requires SortedByStart(sorted)
    ensures SortedByStart(InsertByStart(o, sorted))
  {
    if sorted != [] && sorted[0].start <= o.start {
      var x := sorted[0];
      var tail := sorted[1..];
      assert SortedByStart(tail);
      InsertByStartSorted(o, tail);
      InsertByStartBound(o, tail, x.start);
      ConsSorted(x, InsertByStart(o, tail));
    } else if sorted != [] {
      ConsSorted(o, sorted);
    }
  }

  lemma ConsSorted(x: Occurrence, s: seq<Occurrence>)
    requires SortedByStart(s) && forall k :: 0 <= k < |s| ==> x.start <= s[k].start
    ensures SortedByStart([x] + s)
  {
    var r := [x] + s;
    forall i, j | 0 <= i < j < |r| ensures r[i].start <= r[j].start {
      if i > 0 {
        assert r[i] == s[i - 1] && r[j] == s[j - 1];
      } else {
        assert r[j] == s[j - 1];
      }
    }
  }

  /** Sorting yields the same occurrences, ordered by start. */
  lemma {:induction false} SortByStartCorrect(occs: seq<Occurrence>)
    ensures SortedByStart(SortByStart(occs))
    ensures multiset(SortByStart(occs)) == multiset(occs)
  {
    if occs != [] {
      var init := occs[..|occs| - 1];
      var last := occs[|occs| - 1];
      var sortedInit := SortByStart(init);
      SortByStartCorrect(init);
      InsertByStartSorted(last, sortedInit);
      assert SortByStart(occs) == InsertByStart(last, sortedInit);
      assert occs == init + [last];
      assert multiset(occs) == multiset(init) + multiset{last};
    }
  }

  /** A list already in start order is left as it is. */
  lemma {:induction false} SortByStartKeepsSorted(occs: seq<Occurrence>)
    requires SortedByStart(occs)
    ensures SortByStart(occs) == occs
  {
    if occs != [] {
      var init := occs[..|occs| - 1];
      var last := occs[|occs| - 1];
      assert forall i :: 0 <= i < |init| ==> init[i] == occs[i];
      assert SortedByStart(init);
      SortByStartKeepsSorted(init);
      assert forall k :: 0 <= k < |init| ==> init[k].start <= last.start;
      AppendLargest(last, init);
      assert SortByStart(occs) == InsertByStart(last, SortByStart(init));
      SplitLast(occs);
    }
  }

  /** A nonempty sequence is its front followed by its last element. */
  lemma SplitLast<T>(s: seq<T>)
    requires s != []
    ensures s[..|s| - 1] + [s[|s| - 1]] == s
  {
  }

  lemma {:induction false} AppendLargest(o: Occurrence, sorted: seq<Occurrence>)
    requires forall k :: 0 <= k < |sorted| ==> sorted[k].start <= o.start
    ensures InsertByStart(o, sorted) == sorted + [o]
  {
    if sorted != [] {
      AppendLargest(o, sorted[1..]);
      assert sorted == [sorted[0]] + sorted[1..];
    }
  }

  // ---------------------------------------------------------------------
  // Namespace and style injection
  // ---------------------------------------------------------------------

  const XHTML_NS: string := "http://www.w3.org/1999/xhtml"
  const OPS_NS: string := "http://www.idpf.org/2007/ops"
  const XMLNS_ATTR: string := "xmlns=\"" + XHTML_NS + "\""
  const EPUB_ATTR_OPEN: string := " xmlns:epub=\""
  const XMLNS_WITH_EPUB: string := XMLNS_ATTR + EPUB_ATTR_OPEN + OPS_NS + "\""
  const HEAD_CLOSE: string := "</head>"
  const WORD_WISE_STYLE: string := "<style>body {line-height: 2.5;} ruby {text-decoration:overline;} ruby a {text-decoration:none;}</style>"

  /** Declares the epub namespace on the root element unless the part
      already mentions it. */
  function InjectNamespace(s: string): string {
    if Contains(s, OPS_NS) then s else ReplaceAll(s, XMLNS_ATTR, XMLNS_WITH_EPUB)
  }

  /** Adds the Word Wise style before `</head>` when the book has lemmas. */
  function InjectStyle(s: string, hasLemmas: bool): string {
    if hasLemmas then ReplaceAll(s, HEAD_CLOSE, WORD_WISE_STYLE + HEAD_CLOSE) else s
  }

  lemma OpsInDeclaration()
    ensures OccursAt(XMLNS_WITH_EPUB, OPS_NS, |XMLNS_ATTR + EPUB_ATTR_OPEN|)
  {
    var a := XMLNS_ATTR + EPUB_ATTR_OPEN;
    assert XMLNS_WITH_EPUB == a + OPS_NS + "\"";
    assert (a + OPS_NS + "\"")[|a|..|a| + |OPS_NS|] == OPS_NS;
  }

  /** After injection the part mentions the epub namespace whenever it
      declared the XHTML namespace; a part that already mentions it, or
      that has no XHTML declaration, is unchanged. */
  lemma InjectNamespaceDeclares(s: string)
    ensures Contains(s, XMLNS_ATTR) || Contains(s, OPS_NS) ==> Contains(InjectNamespace(s), OPS_NS)
    ensures Contains(s, OPS_NS) || !Contains(s, XMLNS_ATTR) ==> InjectNamespace(s) == s
  {
    if !Contains(s, OPS_NS) {
      if Contains(s, XMLNS_ATTR) {
        ReplaceAllPresent(s, XMLNS_ATTR, XMLNS_WITH_EPUB);
        ContainsThrough(ReplaceAll(s, XMLNS_ATTR, XMLNS_WITH_EPUB));
      } else {
        ReplaceAllAbsent(s, XMLNS_ATTR, XMLNS_WITH_EPUB);
      }
    }
  }

  lemma ContainsThrough(r: string)
    requires Contains(r, XMLNS_WITH_EPUB)
    ensures Contains(r, OPS_NS)
  {
    var i :| 0 <= i <= |r| - |XMLNS_WITH_EPUB| && OccursAt(r, XMLNS_WITH_EPUB, i);
    OpsInDeclaration();
    OccursAtTrans(r, XMLNS_WITH_EPUB, OPS_NS, i, |XMLNS_ATTR + EPUB_ATTR_OPEN|);
  }

  /** Injecting the namespace twice is the same as injecting it once. */
  lemma InjectNamespaceIdempotent(s: string)
    ensures InjectNamespace(InjectNamespace(s)) == InjectNamespace(s)
  {
    InjectNamespaceDeclares(s);
    if !Contains(s, OPS_NS) && !Contains(s, XMLNS_ATTR) {
      assert InjectNamespace(s) == s;
    }
  }

  /** With lemmas, every part that closes its head gets the style; without,
      the part is unchanged. */
  lemma InjectStyleAdds(s: string, hasLemmas: bool)
    ensures !hasLemmas ==> InjectStyle(s, hasLemmas) == s
    ensures hasLemmas && Contains(s, HEAD_CLOSE) ==> Contains(InjectStyle(s, hasLemmas), WORD_WISE_STYLE + HEAD_CLOSE)
    ensures !Contains(s, HEAD_CLOSE) ==> InjectStyle(s, hasLemmas) == s
  {
    if hasLemmas {
      if Contains(s, HEAD_CLOSE) {
        ReplaceAllPresent(s, HEAD_CLOSE, WORD_WISE_STYLE + HEAD_CLOSE);
      } else {
        ReplaceAllAbsent(s, HEAD_CLOSE, WORD_WISE_STYLE + HEAD_CLOSE);
      }
    }
  }

  /** What is written back for one part: sorted when both kinds of
      annotation exist, spliced, then the namespace and the style. */
  function AnchoredPart(xhtml: string, occs: seq<Occurrence>, sortFirst: bool, removed: set<nat>,
                        render: Occurrence -> Option<string>, hasLemmas: bool): Option<string> {
    var list := if sortFirst then SortByStart(occs) else occs;
    match Splice(xhtml, list, removed, render)
    case None => None
    case Some(s) => Some(InjectStyle(InjectNamespace(s), hasLemmas))
  }
}
