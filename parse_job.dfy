/** The offset arithmetic of the book parser: where a dictionary keyword or a
    named entity found in a text fragment sits in the whole book, measured in
    characters for KFX books and in UTF-8 bytes for MOBI books, how an
    entity's surface text is trimmed before it is looked up, and how the text
    fragments between tags of a MOBI book are found. */
module ParseJob {
  import opened Wrappers
  import opened Text
  import opened Utf8

  /** Length in the offset unit of the book format: characters for KFX,
      `len(s.encode('utf-8'))` for MOBI. */
  function UnitLen(s: string, isKfx: bool): nat {
    if isKfx then |s| else |Utf8Encode(s)|
  }

  // ---------------------------------------------------------------------
  // Word Wise lemmas (find_lemma)
  // ---------------------------------------------------------------------

  /** One hit of the keyword matcher: its payload and the character span
      [tokenStart, tokenEnd) it covers within the fragment. */
  datatype KeywordSpan<D> = KeywordSpan(data: D, tokenStart: nat, tokenEnd: nat)

  /** The row handed to the lemma store: absolute start, the end for a
      multi-word lemma, and the keyword payload. */
  datatype LemmaRow<D> = LemmaRow(index: nat, end: Option<nat>, data: D)

  /** The row for one keyword hit of a fragment that starts at book offset
      `start`. */
  function LemmaRowFor<D>(start: nat, text: string, span: KeywordSpan<D>, isKfx: bool): LemmaRow<D> {
    var keyword := PySlice(text, span.tokenStart, span.tokenEnd);
    var index := if isKfx then start + span.tokenStart else start + |Utf8Encode(PySlice(text, 0, span.tokenStart))|;
    var end := if ' ' in keyword then Some(index + UnitLen(keyword, isKfx)) else None;
    LemmaRow(index, end, span.data)
  }

  /** The body of the keyword loop: the row for one hit, computed as the
      parser does. */
  method LemmaRowOf<D>(start: nat, text: string, span: KeywordSpan<D>, isKfx: bool) returns (row: LemmaRow<D>)
    ensures row == LemmaRowFor(start, text, span, isKfx)
  {
    var end: Option<nat> := None;
    var keyword := PySlice(text, span.tokenStart, span.tokenEnd);
    var index: nat;
    if isKfx {
      index := start + span.tokenStart;
    } else {
      index := start + |Utf8Encode(PySlice(text, 0, span.tokenStart))|;
    }
    if ' ' in keyword {
      end := if isKfx then Some(index + |keyword|) else Some(index + |Utf8Encode(keyword)|);
    }
    row := LemmaRow(index, end, span.data);
  }

  /** Every keyword hit of a fragment becomes one row, in the matcher's order. */
  method FindLemma<D>(start: nat, text: string, spans: seq<KeywordSpan<D>>, isKfx: bool)
    returns (rows: seq<LemmaRow<D>>)
    ensures |rows| == |spans|
    ensures forall i :: 0 <= i < |spans| ==> rows[i] == LemmaRowFor(start, text, spans[i], isKfx)
  {
    rows := [];
    for i := 0 to |spans|
      invariant |rows| == i
      invariant forall k :: 0 <= k < i ==> rows[k] == LemmaRowFor(start, text, spans[k], isKfx)
    {
      var row := LemmaRowOf(start, text, spans[i], isKfx);
      rows := rows + [row];
    }
  }

  /** A row carries an end exactly when the matched keyword has a space in it,
      and that end lies past the start by the keyword's length in the book's
      unit. */
  lemma LemmaEndOnlyForPhrases<D>(start: nat, text: string, span: KeywordSpan<D>, isKfx: bool, r: LemmaRow<D>)
    requires r == LemmaRowFor(start, text, span, isKfx)
    ensures r.end.Some? <==> ' ' in PySlice(text, span.tokenStart, span.tokenEnd)
    ensures r.end.Some? ==> r.end.value == r.index + UnitLen(PySlice(text, span.tokenStart, span.tokenEnd), isKfx)
    ensures r.end.Some? ==> r.end.value > r.index
    ensures r.data == span.data
  {
    var keyword := PySlice(text, span.tokenStart, span.tokenEnd);
    EncodeLengthBounds(keyword);
  }

  /** KFX: when the fragment is the book text at `start`, the row's start is
      where the keyword's characters are in the book. */
  lemma KfxLemmaOffset<D>(book: string, start: nat, text: string, span: KeywordSpan<D>, r: LemmaRow<D>)
    requires span.tokenStart <= span.tokenEnd <= |text|
    requires start + |text| <= |book| && book[start..start + |text|] == text
    requires r == LemmaRowFor(start, text, span, true)
    ensures r.index + |text[span.tokenStart..span.tokenEnd]| <= |book|
    ensures book[r.index..r.index + |text[span.tokenStart..span.tokenEnd]|] == text[span.tokenStart..span.tokenEnd]
  {
    var keyword := text[span.tokenStart..span.tokenEnd];
    SliceTransfer(book, start, text, |text|, span.tokenStart, |keyword|, keyword);
  }

  /** MOBI: when the fragment's UTF-8 encoding is the book's bytes at
      `start`, the row's start is where the keyword's bytes are in the book. */
  lemma MobiLemmaOffset<D>(html: seq<byte>, start: nat, text: string, span: KeywordSpan<D>, r: LemmaRow<D>)
    requires span.tokenStart <= span.tokenEnd <= |text|
    requires start + |Utf8Encode(text)| <= |html| && html[start..start + |Utf8Encode(text)|] == Utf8Encode(text)
    requires r == LemmaRowFor(start, text, span, false)
    ensures r.index + |Utf8Encode(text[span.tokenStart..span.tokenEnd])| <= |html|
    ensures html[r.index..r.index + |Utf8Encode(text[span.tokenStart..span.tokenEnd])|] == Utf8Encode(text[span.tokenStart..span.tokenEnd])
  {
    var bytes := Utf8Encode(text[span.tokenStart..span.tokenEnd]);
    EncodedPieceAt(html, start, text, span.tokenStart, text[span.tokenStart..span.tokenEnd], r.index, |bytes|);
  }

  /** A piece found in a fragment whose encoding sits in the book has its own
      encoding in the book at `lo`, the fragment's offset plus the bytes of
      the fragment text before the piece. */
  lemma EncodedPieceAt(html: seq<byte>, start: nat, text: string, ns: nat, t: string, lo: nat, len: nat)
    requires start + |Utf8Encode(text)| <= |html| && html[start..start + |Utf8Encode(text)|] == Utf8Encode(text)
    requires ns + |t| <= |text| && text[ns..ns + |t|] == t
    requires lo == start + |Utf8Encode(PySlice(text, 0, ns))| && len == |Utf8Encode(t)|
    ensures lo + len <= |html| && html[lo..lo + len] == Utf8Encode(t)
  {
    assert PySlice(text, 0, ns) == text[..ns];
    EncodedSliceAt(html, start, text, ns, ns + |t|);
  }

  // ---------------------------------------------------------------------
  // X-Ray entities (find_named_entity)
  // ---------------------------------------------------------------------

  /** The entity labels of the NER models that are kept. */
  const NER_LABELS: set<string> := {
    "EVENT", "FAC", "GPE", "LANGUAGE", "LAW", "LOC", "NORP", "ORG",
    "PERSON", "PRODUCT", "WORK_OF_ART", "MISC", "PER", "FACILITY",
    "ORGANIZATION", "NAT_REL_POL",
    "geogName", "orgName", "persName", "placeName"
  }

  /** The labels that mark a person. */
  const PERSON_NER_LABELS: set<string> := {"PERSON", "PER", "persName"}

  /** The regular-expression classes `\w` and `\d` of the host language, left
      abstract. */
  datatype CharClasses = CharClasses(isWord: char -> bool, isDigit: char -> bool)

  /** One entity of the NER pipeline: surface text, label, character offset in
      the fragment, and the sentence it occurs in. */
  datatype Entity = Entity(text: string, nerLabel: string, startChar: nat, sentence: string)

  /** What is handed to the X-Ray search: trimmed text, person flag, book
      offset, sentence and length in the book's unit. */
  datatype Mention = Mention(text: string, isPerson: bool, start: nat, sentence: string, length: nat)

  /** Length of the leading run of non-word characters (`^\W+`). */
  function LeadingNonWordLen(s: string, cc: CharClasses): (k: nat)
    ensures k <= |s|
    ensures forall i :: 0 <= i < k ==> !cc.isWord(s[i])
    ensures k < |s| ==> cc.isWord(s[k])
  {
    if s == [] || cc.isWord(s[0]) then 0 else 1 + LeadingNonWordLen(s[1..], cc)
  }

  /** Length of the trailing run of non-word characters (`\W+$`). */
  function TrailingNonWordLen(s: string, cc: CharClasses): (k: nat)
    ensures k <= |s|
    ensures forall i :: |s| - k <= i < |s| ==> !cc.isWord(s[i])
    ensures k < |s| ==> cc.isWord(s[|s| - k - 1])
  {
    if s == [] || cc.isWord(s[|s| - 1]) then 0 else 1 + TrailingNonWordLen(s[..|s| - 1], cc)
  }

  /** Removes the non-word runs at both ends; what is left is the piece of
      `s` that follows its leading run. */
  function StripNonWordEdges(s: string, cc: CharClasses): (r: string)
    ensures OccursAt(s, r, LeadingNonWordLen(s, cc))
  {
    var a := s[LeadingNonWordLen(s, cc)..];
    a[..|a| - TrailingNonWordLen(a, cc)]
  }

  /** `re.match(r'c?hapter', s, re.IGNORECASE)`. */
  predicate IsChapterHeading(s: string) {
    StartsWithIgnoreCase(s, "chapter") || StartsWithIgnoreCase(s, "hapter")
  }

  /** Removes one English possessive ending, `'s` or `’s`. */
  function DropPossessive(s: string): (r: string)
    ensures |r| <= |s| && r == s[..|r|]
  {
    if EndsWith(s, "'s") || EndsWith(s, "’s") then s[..|s| - 2] else s
  }

  /** Removes one leading English article, ignoring case. */
  function DropArticle(s: string): (r: string)
    ensures |r| <= |s| && r == s[|s| - |r|..]
  {
    if StartsWithIgnoreCase(s, "the ") then s[4..]
    else if StartsWithIgnoreCase(s, "an ") then s[3..]
    else if StartsWithIgnoreCase(s, "a ") then s[2..]
    else s
  }

  /** The trimmed surface text, or None when an English entity is a chapter
      heading. */
  function Normalize(raw: string, english: bool, cc: CharClasses): Option<string> {
    var t := StripNonWordEdges(raw, cc);
    if !english then Some(t)
    else if IsChapterHeading(t) then None
    else Some(DropArticle(DropPossessive(t)))
  }

  /** `re.fullmatch(r'[\W\d]+', t)`. */
  predicate OnlyNonWordOrDigits(t: string, cc: CharClasses) {
    |t| > 0 && forall i :: 0 <= i < |t| ==> !cc.isWord(t[i]) || cc.isDigit(t[i])
  }

  function MinLength(english: bool): nat { if english then 3 else 2 }

  /** The trimmed text is long enough and is not made of punctuation and
      digits alone. */
  predicate Acceptable(t: string, english: bool, cc: CharClasses) {
    |t| >= MinLength(english) && !OnlyNonWordOrDigits(t, cc)
  }

  /** The trimmed text is a piece of the entity's text, so `str.index` finds
      it. This is why the ValueError branch of `ent.text.index` never fires. */
  lemma {:induction false} NormalizeIsSubstring(raw: string, english: bool, cc: CharClasses)
    requires Normalize(raw, english, cc).Some?
    ensures Contains(raw, Normalize(raw, english, cc).value)
  {
    var l := LeadingNonWordLen(raw, cc);
    var t := StripNonWordEdges(raw, cc);
    if english {
      var p := DropPossessive(t);
      var d := DropArticle(p);
      assert OccursAt(t, p, 0);
      OccursAtTrans(raw, t, p, l, 0);
      assert OccursAt(p, d, |p| - |d|);
      OccursAtTrans(raw, p, d, l, |p| - |d|);
    }
  }

  /** `ent.text.index(t)`: the first position of `t` in the entity's text. */
  function IndexInEntity(ent: Entity, t: string): (k: nat)
    requires Contains(ent.text, t)
    ensures OccursAt(ent.text, t, k)
    ensures forall j :: 0 <= j < k ==> !OccursAt(ent.text, t, j)
  {
    IndexOfContains(ent.text, t);
    IndexOf(ent.text, t).value
  }

  /** The mention for an entity whose trimmed text `t` is kept: `t` is
      located in the entity by `str.index` and the offsets are converted to
      the book's unit. */
  function MentionOf(start: nat, docText: string, ent: Entity, t: string, isKfx: bool): Mention
    requires Contains(ent.text, t)
  {
    var newStartChar := ent.startChar + IndexInEntity(ent, t);
    Mention(t, ent.nerLabel in PERSON_NER_LABELS,
            start + UnitLen(PySlice(docText, 0, newStartChar), isKfx),
            ent.sentence, UnitLen(t, isKfx))
  }

  /** The mention for one entity of a fragment at book offset `start`, or
      None when the entity is skipped. */
  function MentionFor(start: nat, docText: string, ent: Entity, isKfx: bool, english: bool, cc: CharClasses): Option<Mention> {
    if ent.nerLabel !in NER_LABELS then None
    else match Normalize(ent.text, english, cc)
      case None => None
      case Some(t) =>
        if !Acceptable(t, english, cc) then None
        else
          NormalizeIsSubstring(ent.text, english, cc);
          Some(MentionOf(start, docText, ent, t, isKfx))
  }

  /** The mentions of a sequence of entities, in order, skipped ones left out. */
  function Mentions(start: nat, docText: string, ents: seq<Entity>, isKfx: bool, english: bool, cc: CharClasses): seq<Mention> {
    if ents == [] then []
    else
      var m := MentionFor(start, docText, ents[|ents| - 1], isKfx, english, cc);
      Mentions(start, docText, ents[..|ents| - 1], isKfx, english, cc) + (if m.Some? then [m.value] else [])
  }

  /** The trimming of an entity's text, None for an English chapter
      heading. */
  method TrimEntityText(raw: string, english: bool, cc: CharClasses) returns (r: Option<string>)
    ensures r == Normalize(raw, english, cc)
  {
    var text := StripNonWordEdges(raw, cc);
    if english {
      if IsChapterHeading(text) {
        return None;
      }
      text := DropPossessive(text);
      text := DropArticle(text);
    }
    r := Some(text);
  }

  /** The body of the entity loop: the checks in the order the parser makes
      them, each skip an early None. */
  method EntityMention(start: nat, docText: string, ent: Entity, isKfx: bool, english: bool, cc: CharClasses)
    returns (m: Option<Mention>)
    ensures m == MentionFor(start, docText, ent, isKfx, english, cc)
  {
    var lenLimit := if english then 3 else 2;
    if ent.nerLabel !in NER_LABELS {
      return None;
    }
    var trimmed := TrimEntityText(ent.text, english, cc);
    if trimmed.None? {
      return None;
    }
    var text := trimmed.value;
    if |text| < lenLimit || OnlyNonWordOrDigits(text, cc) {
      return None;
    }
    NormalizeIsSubstring(ent.text, english, cc);
    m := Some(MentionOf(start, docText, ent, text, isKfx));
  }

  /** Every kept entity of a fragment is passed to the X-Ray search, in order. */
  method FindNamedEntity(start: nat, docText: string, ents: seq<Entity>, isKfx: bool, lang: string, cc: CharClasses)
    returns (mentions: seq<Mention>)
    ensures mentions == Mentions(start, docText, ents, isKfx, lang == "en", cc)
  {
    var english := lang == "en";
    mentions := [];
    for i := 0 to |ents|
      invariant mentions == Mentions(start, docText, ents[..i], isKfx, english, cc)
    {
      assert ents[..i + 1][..i] == ents[..i];
      var m := EntityMention(start, docText, ents[i], isKfx, english, cc);
      if m.Some? {
        mentions := mentions + [m.value];
      }
    }
    assert ents[..|ents|] == ents;
  }

  /** An entity yields a mention exactly when its label is kept, it is not an
      English chapter heading, and its trimmed text is acceptable; the person
      flag is set exactly for the person labels. */
  lemma MentionExactly(start: nat, docText: string, ent: Entity, isKfx: bool, english: bool, cc: CharClasses, m: Option<Mention>)
    requires m == MentionFor(start, docText, ent, isKfx, english, cc)
    ensures m.Some? <==> ent.nerLabel in NER_LABELS && Normalize(ent.text, english, cc).Some? &&
                         Acceptable(Normalize(ent.text, english, cc).value, english, cc)
    ensures m.Some? ==> m.value.text == Normalize(ent.text, english, cc).value && m.value.sentence == ent.sentence
    ensures m.Some? ==> (m.value.isPerson <==> ent.nerLabel in {"PERSON", "PER", "persName"})
    ensures m.Some? ==> |m.value.text| >= MinLength(english)
    ensures m.Some? ==> exists i :: 0 <= i < |m.value.text| && cc.isWord(m.value.text[i]) && !cc.isDigit(m.value.text[i])
  {
  }

  /** Trimming removes exactly the non-word runs at both ends: what is left is
      empty or starts and ends with a word character, and what was removed
      holds no word character. */
  lemma StripNonWordEdgesExact(s: string, cc: CharClasses, t: string)
    requires t == StripNonWordEdges(s, cc)
    ensures exists lo, hi ::
              && 0 <= lo <= hi <= |s| && t == s[lo..hi]
              && (forall i :: 0 <= i < lo ==> !cc.isWord(s[i]))
              && (forall i :: hi <= i < |s| ==> !cc.isWord(s[i]))
              && (t != [] ==> cc.isWord(t[0]) && cc.isWord(t[|t| - 1]))
  {
    var l := LeadingNonWordLen(s, cc);
    var a := s[l..];
    var tr := TrailingNonWordLen(a, cc);
    assert t == s[l..|s| - tr];
    if t != [] {
      assert t[0] == s[l];
    }
    assert forall i :: |s| - tr <= i < |s| ==> s[i] == a[i - l];
  }

  /** English chapter headings, whatever their case, never become mentions. */
  lemma ChapterHeadingsSkipped(start: nat, docText: string, ent: Entity, isKfx: bool, cc: CharClasses)
    requires IsChapterHeading(StripNonWordEdges(ent.text, cc))
    ensures MentionFor(start, docText, ent, isKfx, true, cc).None?
  {
  }

  /** A mention is the one its own text gives, and that text is a piece of
      the entity's text. */
  lemma MentionFields(start: nat, docText: string, ent: Entity, isKfx: bool, english: bool, cc: CharClasses, m: Mention)
    requires MentionFor(start, docText, ent, isKfx, english, cc) == Some(m)
    ensures Contains(ent.text, m.text)
    ensures m == MentionOf(start, docText, ent, m.text, isKfx)
  {
    NormalizeIsSubstring(ent.text, english, cc);
  }

  /** A piece of the entity's text is found in the fragment at the entity's
      offset plus the piece's index in the entity. */
  lemma PieceInFragment(docText: string, ent: Entity, t: string, ns: nat)
    requires ent.startChar + |ent.text| <= |docText| && docText[ent.startChar..ent.startChar + |ent.text|] == ent.text
    requires Contains(ent.text, t) && ns == ent.startChar + IndexInEntity(ent, t)
    ensures ns + |t| <= |docText| && docText[ns..ns + |t|] == t
  {
    SliceTransfer(docText, ent.startChar, ent.text, |ent.text|, IndexInEntity(ent, t), |t|, t);
  }

  /** The offset and length of a mention, in the book's unit. */
  lemma MentionOfUnits(start: nat, docText: string, ent: Entity, t: string, isKfx: bool, ns: nat, m: Mention)
    requires Contains(ent.text, t) && ns == ent.startChar + IndexInEntity(ent, t)
    requires m == MentionOf(start, docText, ent, t, isKfx)
    ensures m.start == start + UnitLen(PySlice(docText, 0, ns), isKfx)
    ensures m.length == UnitLen(t, isKfx)
  {
  }

  /** KFX: the offset and length computed for a piece of an entity's text
      select exactly that piece in the book. */
  lemma KfxPieceOffset(book: string, start: nat, docText: string, ent: Entity, t: string, m: Mention)
    requires ent.startChar + |ent.text| <= |docText| && docText[ent.startChar..ent.startChar + |ent.text|] == ent.text
    requires start + |docText| <= |book| && book[start..start + |docText|] == docText
    requires Contains(ent.text, t) && m == MentionOf(start, docText, ent, t, true)
    ensures m.start + m.length <= |book| && book[m.start..m.start + m.length] == t
  {
    var ns := ent.startChar + IndexInEntity(ent, t);
    MentionOfUnits(start, docText, ent, t, true, ns, m);
    PieceInFragment(docText, ent, t, ns);
    assert |PySlice(docText, 0, ns)| == ns;
    SliceTransfer(book, start, docText, |docText|, ns, m.length, t);
  }

  /** MOBI: the byte offset and byte length computed for a piece of an
      entity's text select exactly that piece's UTF-8 bytes in the book. */
  lemma MobiPieceOffset(html: seq<byte>, start: nat, docText: string, ent: Entity, t: string, m: Mention)
    requires ent.startChar + |ent.text| <= |docText| && docText[ent.startChar..ent.startChar + |ent.text|] == ent.text
    requires start + |Utf8Encode(docText)| <= |html| && html[start..start + |Utf8Encode(docText)|] == Utf8Encode(docText)
    requires Contains(ent.text, t) && m == MentionOf(start, docText, ent, t, false)
    ensures m.start + m.length <= |html| && html[m.start..m.start + m.length] == Utf8Encode(t)
  {
    var ns := ent.startChar + IndexInEntity(ent, t);
    MentionOfUnits(start, docText, ent, t, false, ns, m);
    PieceInFragment(docText, ent, t, ns);
    EncodedPieceAt(html, start, docText, ns, t, m.start, m.length);
  }

  /** KFX: the mention's offset and length select exactly its text in the
      book, given that the fragment is the book text at `start` and the
      entity's text is in the fragment at its offset. */
  lemma KfxMentionOffset(book: string, start: nat, docText: string, ent: Entity, cc: CharClasses, english: bool, m: Mention)
    requires ent.startChar + |ent.text| <= |docText| && docText[ent.startChar..ent.startChar + |ent.text|] == ent.text
    requires start + |docText| <= |book| && book[start..start + |docText|] == docText
    requires MentionFor(start, docText, ent, true, english, cc) == Some(m)
    ensures m.start + m.length <= |book| && book[m.start..m.start + m.length] == m.text
  {
    MentionFields(start, docText, ent, true, english, cc, m);
    KfxPieceOffset(book, start, docText, ent, m.text, m);
  }

  /** MOBI: the mention's byte offset and byte length select exactly the
      UTF-8 bytes of its text in the book. */
  lemma MobiMentionOffset(html: seq<byte>, start: nat, docText: string, ent: Entity, cc: CharClasses, english: bool, m: Mention)
    requires ent.startChar + |ent.text| <= |docText| && docText[ent.startChar..ent.startChar + |ent.text|] == ent.text
    requires start + |Utf8Encode(docText)| <= |html| && html[start..start + |Utf8Encode(docText)|] == Utf8Encode(docText)
    requires MentionFor(start, docText, ent, false, english, cc) == Some(m)
    ensures m.start + m.length <= |html| && html[m.start..m.start + m.length] == Utf8Encode(m.text)
  {
    MentionFields(start, docText, ent, false, english, cc, m);
    MobiPieceOffset(html, start, docText, ent, m.text, m);
  }

  // ---------------------------------------------------------------------
  // MOBI text fragments (the last loop of parse_mobi)
  // ---------------------------------------------------------------------

  const LT: byte := 0x3C
  const GT: byte := 0x3E

  predicate IsAngle(b: byte) { b == LT || b == GT }

  /** The first `<` or `>` at or after `from`. */
  function NextAngle(html: seq<byte>, from: nat): (r: Option<nat>)
    decreases |html| - from
    ensures r.Some? ==> from <= r.value < |html| && IsAngle(html[r.value])
    ensures r.Some? ==> forall k :: from <= k < r.value ==> !IsAngle(html[k])
    ensures r.None? ==> forall k :: from <= k < |html| ==> !IsAngle(html[k])
  {
    if from >= |html| then None
    else if IsAngle(html[from]) then Some(from)
    else NextAngle(html, from + 1)
  }

  /** An angle with none before it from `from` on is the one found. */
  lemma {:induction false} NextAngleFirst(html: seq<byte>, from: nat, e: nat)
    requires from <= e < |html| && IsAngle(html[e])
    requires forall k :: from <= k < e ==> !IsAngle(html[k])
    decreases e - from
    ensures NextAngle(html, from) == Some(e)
  {
    if from < e {
      NextAngleFirst(html, from + 1, e);
    }
  }

  /** Where `>[^<>]+<` matches when tried at position `p`: the position of
      its closing `<`. The greedy run stops at the first angle, and the
      match fails unless that angle is a `<` after at least one byte. */
  function MatchEnd(html: seq<byte>, p: nat): (r: Option<nat>)
    ensures r.Some? ==> p + 1 < r.value < |html|
  {
    if p < |html| && html[p] == GT then
      match NextAngle(html, p + 1)
      case Some(j) => if html[j] == LT && j > p + 1 then Some(j) else None
      case None => None
    else None
  }

  /** The bytes of one match of `>[^<>]+<` without its delimiters, and the
      offset of its first byte. */
  datatype MobiFragment = MobiFragment(bytes: seq<byte>, offset: nat)

  /** The matches found by scanning from position `from`, left to right and
      without overlap, as `re.finditer` does: after a match the scan goes on
      past its closing `<`. */
  function MobiFragmentsFrom(html: seq<byte>, from: nat): seq<MobiFragment>
    decreases |html| - from
  {
    if from >= |html| then []
    else match MatchEnd(html, from)
      case Some(j) => [MobiFragment(html[from + 1..j], from + 1)] + MobiFragmentsFrom(html, j + 1)
      case None => MobiFragmentsFrom(html, from + 1)
  }

  function MobiFragments(html: seq<byte>): seq<MobiFragment> {
    MobiFragmentsFrom(html, 0)
  }

  /** A non-empty run of bytes without `<` or `>`, found in the book at its
      offset, just after a `>` and just before a `<`. */
  predicate IsMobiFragment(html: seq<byte>, f: MobiFragment) {
    && 1 <= f.offset
    && |f.bytes| >= 1
    && f.offset + |f.bytes| < |html|
    && html[f.offset - 1] == GT
    && html[f.offset + |f.bytes|] == LT
    && html[f.offset..f.offset + |f.bytes|] == f.bytes
    && (forall k :: 0 <= k < |f.bytes| ==> !IsAngle(f.bytes[k]))
  }

  /** A fragment ends at the first angle after its start. */
  lemma FragmentEnd(html: seq<byte>, f: MobiFragment)
    requires IsMobiFragment(html, f)
    ensures NextAngle(html, f.offset) == Some(f.offset + |f.bytes|)
  {
    forall k | f.offset <= k < f.offset + |f.bytes| ensures !IsAngle(html[k]) {
      assert html[k] == f.bytes[k - f.offset];
    }
    NextAngleFirst(html, f.offset, f.offset + |f.bytes|);
  }

  /** A fragment is exactly what a match tried one byte before it yields. */
  lemma FragmentIsMatch(html: seq<byte>, f: MobiFragment)
    requires IsMobiFragment(html, f)
    ensures MatchEnd(html, f.offset - 1) == Some(f.offset + |f.bytes|)
    ensures f == MobiFragment(html[f.offset..f.offset + |f.bytes|], f.offset)
  {
    FragmentEnd(html, f);
  }

  /** What a match yields is a fragment. */
  lemma MatchIsFragment(html: seq<byte>, p: nat, j: nat)
    requires MatchEnd(html, p) == Some(j)
    ensures IsMobiFragment(html, MobiFragment(html[p + 1..j], p + 1))
  {
  }

  /** No fragment starts inside a match or just past its closing `<`, so the
      positions the scan skips hold no fragment. */
  lemma NoFragmentInsideMatch(html: seq<byte>, p: nat, j: nat, f: MobiFragment)
    requires MatchEnd(html, p) == Some(j)
    requires IsMobiFragment(html, f)
    ensures f.offset <= p + 1 || j + 2 <= f.offset
  {
    assert html[f.offset - 1] == GT;
  }

  lemma {:induction false} MobiFragmentsFromExact(html: seq<byte>, from: nat, f: MobiFragment)
    decreases |html| - from
    ensures f in MobiFragmentsFrom(html, from) <==> IsMobiFragment(html, f) && from + 1 <= f.offset
  {
    if from < |html| {
      match MatchEnd(html, from)
      case Some(j) =>
        MobiFragmentsFromExact(html, j + 1, f);
        ExactAfterMatch(html, from, j, f);
      case None =>
        MobiFragmentsFromExact(html, from + 1, f);
        ExactAfterMiss(html, from, f);
    }
  }

  /** The step of the scan where a match is found at `from`. */
  lemma ExactAfterMatch(html: seq<byte>, from: nat, j: nat, f: MobiFragment)
    requires MatchEnd(html, from) == Some(j)
    requires f in MobiFragmentsFrom(html, j + 1) <==> IsMobiFragment(html, f) && j + 2 <= f.offset
    ensures f in MobiFragmentsFrom(html, from) <==> IsMobiFragment(html, f) && from + 1 <= f.offset
  {
    var g := MobiFragment(html[from + 1..j], from + 1);
    assert MobiFragmentsFrom(html, from) == [g] + MobiFragmentsFrom(html, j + 1);
    MatchIsFragment(html, from, j);
    if IsMobiFragment(html, f) && from + 1 <= f.offset {
      if f.offset == from + 1 {
        FragmentIsMatch(html, f);
      } else {
        NoFragmentInsideMatch(html, from, j, f);
      }
    }
  }

  /** The step of the scan where nothing matches at `from`. */
  lemma ExactAfterMiss(html: seq<byte>, from: nat, f: MobiFragment)
    requires from < |html| && MatchEnd(html, from).None?
    requires f in MobiFragmentsFrom(html, from + 1) <==> IsMobiFragment(html, f) && from + 2 <= f.offset
    ensures f in MobiFragmentsFrom(html, from) <==> IsMobiFragment(html, f) && from + 1 <= f.offset
  {
    assert MobiFragmentsFrom(html, from) == MobiFragmentsFrom(html, from + 1);
    if IsMobiFragment(html, f) && f.offset == from + 1 {
      FragmentIsMatch(html, f);
    }
  }

  /** The scan yields exactly the MOBI text fragments of the book: every
      yielded run is found in the book at its offset between `>` and `<`, and
      every such run is yielded. */
  lemma MobiFragmentsExact(html: seq<byte>, f: MobiFragment)
    ensures f in MobiFragments(html) <==> IsMobiFragment(html, f)
  {
    MobiFragmentsFromExact(html, 0, f);
  }

  /** The fragments come in increasing offset order and do not overlap:
      each starts past the end of the one before. */
  lemma {:induction false} MobiFragmentsOrdered(html: seq<byte>, from: nat)
    decreases |html| - from
    ensures forall i :: 0 <= i < |MobiFragmentsFrom(html, from)| ==> from < MobiFragmentsFrom(html, from)[i].offset
    ensures forall i, k :: 0 <= i < k < |MobiFragmentsFrom(html, from)| ==>
              MobiFragmentsFrom(html, from)[i].offset + |MobiFragmentsFrom(html, from)[i].bytes| < MobiFragmentsFrom(html, from)[k].offset
  {
    if from < |html| {
      match MatchEnd(html, from)
      case Some(j) =>
        MobiFragmentsOrdered(html, j + 1);
        OrderedAfterMatch(html, from, j, MobiFragmentsFrom(html, j + 1), MobiFragmentsFrom(html, from));
      case None =>
        MobiFragmentsOrdered(html, from + 1);
        assert MobiFragmentsFrom(html, from) == MobiFragmentsFrom(html, from + 1);
    }
  }

  /** Putting a match in front of the fragments found after it keeps them
      ordered. */
  lemma OrderedAfterMatch(html: seq<byte>, from: nat, j: nat, rest: seq<MobiFragment>, fs: seq<MobiFragment>)
    requires MatchEnd(html, from) == Some(j)
    requires rest == MobiFragmentsFrom(html, j + 1) && fs == MobiFragmentsFrom(html, from)
    requires forall i :: 0 <= i < |rest| ==> j + 1 < rest[i].offset
    requires forall i, k :: 0 <= i < k < |rest| ==> rest[i].offset + |rest[i].bytes| < rest[k].offset
    ensures forall i :: 0 <= i < |fs| ==> from < fs[i].offset
    ensures forall i, k :: 0 <= i < k < |fs| ==> fs[i].offset + |fs[i].bytes| < fs[k].offset
  {
    var g := MobiFragment(html[from + 1..j], from + 1);
    assert fs == [g] + rest;
    assert fs[0] == g && g.offset + |g.bytes| == j;
    forall i | 1 <= i < |fs| ensures j + 1 < fs[i].offset {
      assert fs[i] == rest[i - 1];
    }
    forall i, k | 0 <= i < k < |fs| ensures fs[i].offset + |fs[i].bytes| < fs[k].offset {
      if i > 0 {
        assert fs[i] == rest[i - 1] && fs[k] == rest[k - 1];
      }
    }
  }

  /** A fragment that decodes to `text` holds the encoding of `text` at its
      offset. */
  lemma FragmentPlacement(html: seq<byte>, f: MobiFragment, text: string)
    requires f in MobiFragments(html)
    requires Utf8Encode(text) == f.bytes
    ensures f.offset + |Utf8Encode(text)| <= |html| && html[f.offset..f.offset + |Utf8Encode(text)|] == Utf8Encode(text)
  {
    MobiFragmentsExact(html, f);
  }

  /** The Word Wise rows of a MOBI fragment point at the keyword bytes in the
      book: the fragment decodes to `text`, and the fragment's own offset
      from the scan is the `start` of its rows. */
  lemma MobiFragmentLemmaOffset<D>(html: seq<byte>, f: MobiFragment, text: string, span: KeywordSpan<D>, r: LemmaRow<D>)
    requires f in MobiFragments(html)
    requires Utf8Encode(text) == f.bytes
    requires span.tokenStart <= span.tokenEnd <= |text|
    requires r == LemmaRowFor(f.offset, text, span, false)
    ensures r.index + |Utf8Encode(text[span.tokenStart..span.tokenEnd])| <= |html|
    ensures html[r.index..r.index + |Utf8Encode(text[span.tokenStart..span.tokenEnd])|] == Utf8Encode(text[span.tokenStart..span.tokenEnd])
  {
    FragmentPlacement(html, f, text);
    MobiLemmaOffset(html, f.offset, text, span, r);
  }

}
