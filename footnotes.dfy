/** The markup that links an occurrence to its footnote, and the choice of
    what each footnote of the X-Ray and Word Wise pages says. */
module Footnotes {
  import opened Wrappers
  import opened Text
  import opened Anchors

  const X_RAY_FILE: string := "x_ray.xhtml"
  const WORD_WISE_FILE: string := "word_wise.xhtml"

  /** A dictionary entry for a lemma: short definition, full gloss and an
      example sentence (empty when there is none). */
  datatype Gloss = Gloss(shortDef: string, gloss: string, example: string)

  /** A named entity's record: its id, its NER label, the quote it was first
      seen in and how often it was seen. */
  datatype EntityData = EntityData(id: nat, nerLabel: string, quote: string, count: nat)

  /** A link to the footnote with the given id in the given page, showing
      `text`. */
  function NoteRef(file: string, id: nat, text: string): string {
    "<a epub:type=\"noteref\" href=\"" + file + "#" + NatToDecimal(id) + "\">" + text + "</a>"
  }

  const NOTE_REF_OPEN: string := "<a epub:type=\"noteref\" href=\""

  /** Decimal forms followed by the same non-digit text are equal. */
  lemma DecimalPrefix(a: string, b: string, q: string)
    requires IsDecimal(a) && IsDecimal(b) && |q| > 0 && q[0] == '"'
    requires a + q == b + q
    ensures a == b
  {
    assert |a| == |b|;
    assert a == (a + q)[..|a|];
    assert b == (b + q)[..|b|];
  }

  /** Distinct ids give distinct links: the id can be read back from the
      link. */
  lemma NoteRefInjective(file: string, a: nat, b: nat, text: string)
    requires NoteRef(file, a, text) == NoteRef(file, b, text)
    ensures a == b
  {
    var p := NOTE_REF_OPEN + file + "#";
    var q := "\">" + text + "</a>";
    assert NoteRef(file, a, text) == p + (NatToDecimal(a) + q);
    assert NoteRef(file, b, text) == p + (NatToDecimal(b) + q);
    assert NatToDecimal(a) + q == (p + (NatToDecimal(a) + q))[|p|..];
    assert NatToDecimal(b) + q == (p + (NatToDecimal(b) + q))[|p|..];
    DecimalPrefix(NatToDecimal(a), NatToDecimal(b), q);
    DecimalInjective(a, b);
  }

  /** The definition is too long to show above the word: more than five
      characters per character of the lemma for CJK languages, more than
      two and a half otherwise. */
  predicate PlainTag(shortDef: string, word: string, cjk: bool) {
    if cjk then |shortDef| > 5 * |word| else 2 * |shortDef| > 5 * |word|
  }

  /** The integer test is the source's ratio test `len(short_def) / len(word)
      > len_ratio`, read in exact arithmetic. */
  lemma PlainTagIsRatio(shortDef: string, word: string, cjk: bool)
    requires |word| > 0
    ensures PlainTag(shortDef, word, cjk) <==>
            (|shortDef| as real) / (|word| as real) > (if cjk then 5.0 else 2.5)
  {
    var d := |shortDef| as real;
    var w := |word| as real;
    assert (d / w) * w == d;
    RatioAbove(d, w, if cjk then 5.0 else 2.5);
  }

  lemma RatioAbove(d: real, w: real, k: real)
    requires w > 0.0 && (d / w) * w == d
    ensures d / w > k <==> d > k * w
  {
    if d / w > k {
      assert (d / w) * w > k * w;
    } else {
      assert (d / w) * w <= k * w;
    }
  }

  /** The Word Wise markup for one occurrence of a lemma: a bare link when the
      definition is too long, otherwise the link as ruby base with the short
      definition above it. None where the source raises: the lemma has no
      gloss or no id, or is empty (the ratio divides by its length). */
  function BuildWordWiseTag(word: string, originWord: string, lemmas: map<string, nat>,
                            glosses: map<string, Gloss>, cjk: bool): Option<string> {
    if word !in glosses || word !in lemmas || |word| == 0 then None
    else
      var shortDef := glosses[word].shortDef;
      var link := NoteRef(WORD_WISE_FILE, lemmas[word], originWord);
      if PlainTag(shortDef, word, cjk) then Some(link)
      else Some(Ruby(link, shortDef))
  }

  /** The link as ruby base with the short definition as annotation. */
  function Ruby(link: string, shortDef: string): string {
    "<ruby>" + link + "<rp>(</rp>" + ("<rt>" + shortDef + "</rt>") + "<rp>)</rp></ruby>"
  }

  lemma RubyShape(link: string, shortDef: string)
    ensures StartsWith(Ruby(link, shortDef), "<ruby>")
    ensures OccursAt(Ruby(link, shortDef), link, 6)
    ensures OccursAt(Ruby(link, shortDef), "<rt>" + shortDef + "</rt>", 6 + |link| + 10)
  {
    var open := "<ruby>";
    var rp := "<rp>(</rp>";
    var rt := "<rt>" + shortDef + "</rt>";
    var close := "<rp>)</rp></ruby>";
    var r := Ruby(link, shortDef);
    assert r == open + link + rp + rt + close;
    assert r[..6] == open;
    assert r[6..6 + |link|] == link;
    assert r[6 + |link| + 10..6 + |link| + 10 + |rt|] == rt;
  }

  lemma PlainShape(link: string)
    requires |link| >= 2 && link[1] == 'a'
    ensures !StartsWith(link, "<ruby>") && OccursAt(link, link, 0)
  {
    assert "<ruby>"[1] == 'r';
  }

  /** The tag exists exactly when the lemma has a gloss, an id and a length;
      it always links to the lemma's footnote, is ruby exactly when the
      definition is short enough, and then shows the definition. */
  lemma WordWiseTagShape(word: string, originWord: string, lemmas: map<string, nat>,
                         glosses: map<string, Gloss>, cjk: bool, r: Option<string>)
    requires r == BuildWordWiseTag(word, originWord, lemmas, glosses, cjk)
    ensures r.Some? <==> word in glosses && word in lemmas && |word| > 0
    ensures r.Some? ==> Contains(r.value, NoteRef(WORD_WISE_FILE, lemmas[word], originWord))
    ensures r.Some? ==> (StartsWith(r.value, "<ruby>") <==> !PlainTag(glosses[word].shortDef, word, cjk))
    ensures r.Some? && !PlainTag(glosses[word].shortDef, word, cjk) ==>
              Contains(r.value, "<rt>" + glosses[word].shortDef + "</rt>")
  {
    if r.Some? {
      var shortDef := glosses[word].shortDef;
      var link := NoteRef(WORD_WISE_FILE, lemmas[word], originWord);
      assert link[1] == 'a';
      if PlainTag(shortDef, word, cjk) {
        PlainShape(link);
      } else {
        RubyShape(link, shortDef);
      }
    }
  }

  /** The markup for one occurrence: an X-Ray link by entity id, or the
      Word Wise tag of the lemma. */
  function Markup(o: Occurrence, lemmas: map<string, nat>, glosses: map<string, Gloss>, cjk: bool): Option<string> {
    match o.ref
    case EntityRef(id) => Some(NoteRef(X_RAY_FILE, id, o.text))
    case LemmaRef(w) => BuildWordWiseTag(w, o.text, lemmas, glosses, cjk)
  }

  /** Entity links never fail and show the occurrence's text; only a lemma
      tag can fail. */
  lemma MarkupLinks(o: Occurrence, lemmas: map<string, nat>, glosses: map<string, Gloss>, cjk: bool, r: Option<string>)
    requires r == Markup(o, lemmas, glosses, cjk)
    ensures o.ref.EntityRef? ==> r.Some? && Contains(r.value, o.text)
    ensures o.ref.LemmaRef? ==> (r.Some? <==> o.ref.word in glosses && o.ref.word in lemmas && |o.ref.word| > 0)
    ensures r.Some? ==> Contains(r.value, o.text)
  {
    if o.ref.EntityRef? {
      var p := NOTE_REF_OPEN + X_RAY_FILE + "#" + NatToDecimal(o.ref.id) + "\">";
      assert r.value == p + o.text + "</a>";
      assert (p + o.text + "</a>")[|p|..|p| + |o.text|] == o.text;
      assert OccursAt(r.value, o.text, |p|);
    } else {
      WordWiseTagShape(o.ref.word, o.text, lemmas, glosses, cjk, r);
      if r.Some? {
        TagShowsWord(o.ref.word, o.text, lemmas, glosses, cjk, r.value);
      }
    }
  }

  lemma TagShowsWord(word: string, originWord: string, lemmas: map<string, nat>,
                     glosses: map<string, Gloss>, cjk: bool, tag: string)
    requires BuildWordWiseTag(word, originWord, lemmas, glosses, cjk) == Some(tag)
    ensures Contains(tag, originWord)
  {
    var link := NoteRef(WORD_WISE_FILE, lemmas[word], originWord);
    var p := NOTE_REF_OPEN + WORD_WISE_FILE + "#" + NatToDecimal(lemmas[word]) + "\">";
    assert link == p + originWord + "</a>";
    assert (p + originWord + "</a>")[|p|..|p| + |originWord|] == originWord;
    assert OccursAt(link, originWord, |p|);
    WordWiseTagShape(word, originWord, lemmas, glosses, cjk, Some(tag));
    var i :| 0 <= i <= |tag| - |link| && OccursAt(tag, link, i);
    OccursAtTrans(tag, link, originWord, i, |p|);
  }

  // ---------------------------------------------------------------------
  // X-Ray footnotes
  // ---------------------------------------------------------------------

  /** A custom X-Ray entry: description and source key. */
  datatype CustomEntry = CustomEntry(desc: string, source: string)
  /** A cached Wikipedia summary and the Wikidata item it belongs to. */
  datatype IntroEntry = IntroEntry(intro: string, itemId: string)
  /** A cached Wikidata record: the dict `get_cache` returns, key to value,
      with the empty string for a falsy value. An empty record is falsy. */
  type WikidataEntry = map<string, string>

  /** `dict.get(key)` read for its truthiness: the empty string when the key
      is missing or its value is falsy. */
  function Get(w: WikidataEntry, key: string): (v: string)
    ensures v != "" <==> key in w && w[key] != ""
    ensures v != "" ==> v == w[key]
  {
    if key in w then w[key] else ""
  }

  /** Where footnote text can come from: whether people are looked up, the
      person labels, the Wikipedia and Wikidata caches (None when Wikidata is
      not used) and whether Wikimedia Commons maps are fetched. */
  datatype Sources = Sources(searchPeople: bool, personLabels: set<string>, intros: map<string, IntroEntry>,
                             wikidata: Option<map<string, WikidataEntry>>, wikiCommons: bool)

  /** The Wikidata paragraphs of a Wikipedia footnote. */
  datatype WikidataPart = WikidataPart(itemId: string, democracyIndex: Option<string>, inception: Option<string>,
                                       mapFilename: Option<string>)

  datatype XRayNote =
    | CustomNote(id: nat, desc: string, source: string)
    | WikiNote(id: nat, name: string, intro: string, wikidata: Option<WikidataPart>)
    | QuoteNote(id: nat, quote: string)

  function NonEmpty(s: string): Option<string> {
    if s == "" then None else Some(s)
  }

  function WikidataFor(intro: IntroEntry, src: Sources): Option<WikidataPart> {
    if src.wikidata.Some? && intro.itemId in src.wikidata.value && src.wikidata.value[intro.itemId] != map[] then
      var w := src.wikidata.value[intro.itemId];
      Some(WikidataPart(intro.itemId, NonEmpty(Get(w, "democracy_index")), NonEmpty(Get(w, "inception")),
                        if src.wikiCommons then NonEmpty(Get(w, "map_filename")) else None))
    else None
  }

  /** The footnote of one entity: its custom description when it has a
      non-empty one, else its Wikipedia summary when there is one and the
      entity may be looked up, else the quote it was first seen in. */
  function XRayNoteFor(name: string, d: EntityData, custom: map<string, CustomEntry>, src: Sources): XRayNote {
    if name in custom && custom[name].desc != "" then CustomNote(d.id, custom[name].desc, custom[name].source)
    else if (src.searchPeople || d.nerLabel !in src.personLabels) && name in src.intros then
      WikiNote(d.id, name, src.intros[name].intro, WikidataFor(src.intros[name], src))
    else QuoteNote(d.id, d.quote)
  }

  /** Every footnote carries its entity's id, and exactly one source of text
      is chosen, each under its own condition. */
  lemma XRayNoteChoice(name: string, d: EntityData, custom: map<string, CustomEntry>, src: Sources, n: XRayNote)
    requires n == XRayNoteFor(name, d, custom, src)
    ensures n.id == d.id
    ensures n.CustomNote? <==> name in custom && custom[name].desc != ""
    ensures n.WikiNote? <==> !(name in custom && custom[name].desc != "") &&
                             (src.searchPeople || d.nerLabel !in src.personLabels) && name in src.intros
    ensures n.QuoteNote? ==> n.quote == d.quote
    ensures n.WikiNote? ==>
              (n.wikidata.Some? <==> src.wikidata.Some? && src.intros[name].itemId in src.wikidata.value &&
                                     src.wikidata.value[src.intros[name].itemId] != map[])
    ensures n.WikiNote? && n.wikidata.Some? ==> n.wikidata.value.itemId == src.intros[name].itemId
    ensures n.WikiNote? && n.wikidata.Some? && n.wikidata.value.mapFilename.Some? ==>
              src.wikiCommons && n.wikidata.value.mapFilename.value != "" &&
              n.wikidata.value.mapFilename.value == src.wikidata.value[src.intros[name].itemId]["map_filename"]
  {
  }

  /** The footnotes in the order of the entity table. */
  function XRayNotes(names: seq<string>, entities: map<string, EntityData>, custom: map<string, CustomEntry>, src: Sources): (notes: seq<XRayNote>)
    requires forall x :: x in names ==> x in entities
    ensures |notes| == |names|
  {
    if names == [] then []
    else
      var last := names[|names| - 1];
      XRayNotes(names[..|names| - 1], entities, custom, src) + [XRayNoteFor(last, entities[last], custom, src)]
  }

  /** One footnote per entity, in table order. */
  lemma {:induction false} XRayNotesExact(names: seq<string>, entities: map<string, EntityData>, custom: map<string, CustomEntry>, src: Sources)
    requires forall x :: x in names ==> x in entities
    ensures |XRayNotes(names, entities, custom, src)| == |names|
    ensures forall i :: 0 <= i < |names| ==>
              XRayNotes(names, entities, custom, src)[i] == XRayNoteFor(names[i], entities[names[i]], custom, src)
  {
    if names != [] {
      XRayNotesExact(names[..|names| - 1], entities, custom, src);
    }
  }

  /** With distinct names and distinct ids, the footnote ids are distinct
      and every entity's id has a footnote, so every X-Ray link has exactly
      one target. */
  lemma XRayNoteTargets(names: seq<string>, entities: map<string, EntityData>, custom: map<string, CustomEntry>, src: Sources)
    requires forall x :: x in names ==> x in entities
    requires forall i, j :: 0 <= i < j < |names| ==> names[i] != names[j]
    requires forall a, b :: a in entities && b in entities && a != b ==> entities[a].id != entities[b].id
    ensures forall i, j :: 0 <= i < j < |names| ==>
              XRayNotes(names, entities, custom, src)[i].id != XRayNotes(names, entities, custom, src)[j].id
    ensures forall i :: 0 <= i < |names| ==> XRayNotes(names, entities, custom, src)[i].id == entities[names[i]].id
  {
    XRayNotesExact(names, entities, custom, src);
  }

  /** The map image a footnote embeds, if any. */
  function NoteImage(n: XRayNote): Option<string> {
    if n.WikiNote? && n.wikidata.Some? then n.wikidata.value.mapFilename else None
  }

  /** The images the footnotes embed. */
  function Images(notes: seq<XRayNote>): set<string> {
    set i | 0 <= i < |notes| && NoteImage(notes[i]).Some? :: NoteImage(notes[i]).value
  }

  lemma ImagesAppend(notes: seq<XRayNote>, n: XRayNote)
    ensures Images(notes + [n]) == Images(notes) + (if NoteImage(n).Some? then {NoteImage(n).value} else {})
  {
    var all := notes + [n];
    assert forall i :: 0 <= i < |notes| ==> all[i] == notes[i];
    assert all[|notes|] == n;
  }

  // ---------------------------------------------------------------------
  // Word Wise footnotes
  // ---------------------------------------------------------------------

  datatype WordWiseNote = WordWiseNote(id: nat, word: string, gloss: string, example: Option<string>)

  /** The footnote of one lemma; None where the lemma has no gloss. */
  function WordWiseNoteFor(word: string, id: nat, glosses: map<string, Gloss>): Option<WordWiseNote> {
    if word !in glosses then None
    else Some(WordWiseNote(id, word, glosses[word].gloss, NonEmpty(glosses[word].example)))
  }

  /** The footnotes in the order of the lemma table. */
  function WordWiseNotes(names: seq<string>, lemmas: map<string, nat>, glosses: map<string, Gloss>): (notes: Option<seq<WordWiseNote>>)
    requires forall x :: x in names ==> x in lemmas
    ensures notes.Some? ==> |notes.value| == |names|
  {
    if names == [] then Some([])
    else
      var last := names[|names| - 1];
      match WordWiseNotes(names[..|names| - 1], lemmas, glosses)
      case None => None
      case Some(init) =>
        match WordWiseNoteFor(last, lemmas[last], glosses)
        case None => None
        case Some(n) => Some(init + [n])
  }

  /** The page is built exactly when every lemma has a gloss; footnote i
      then belongs to lemma i, carries its id and gloss, and shows the
      example exactly when there is one. */
  lemma {:induction false} WordWiseNotesExact(names: seq<string>, lemmas: map<string, nat>, glosses: map<string, Gloss>)
    requires forall x :: x in names ==> x in lemmas
    ensures WordWiseNotes(names, lemmas, glosses).Some? <==> forall i :: 0 <= i < |names| ==> names[i] in glosses
    ensures WordWiseNotes(names, lemmas, glosses).Some? ==>
              |WordWiseNotes(names, lemmas, glosses).value| == |names| &&
              forall i :: 0 <= i < |names| ==>
                WordWiseNotes(names, lemmas, glosses).value[i] ==
                WordWiseNote(lemmas[names[i]], names[i], glosses[names[i]].gloss, NonEmpty(glosses[names[i]].example))
  {
    if names != [] {
      var init := names[..|names| - 1];
      WordWiseNotesExact(init, lemmas, glosses);
      assert forall i :: 0 <= i < |init| ==> init[i] == names[i];
    }
  }

  /** Once a lemma has no gloss, the page cannot be built. */
  lemma {:induction false} WordWiseNotesStayFailed(names: seq<string>, lemmas: map<string, nat>, glosses: map<string, Gloss>, i: nat)
    requires forall x :: x in names ==> x in lemmas
    requires i <= |names| && WordWiseNotes(names[..i], lemmas, glosses).None?
    ensures WordWiseNotes(names, lemmas, glosses).None?
    decreases |names| - i
  {
    if i < |names| {
      assert names[..i + 1][..i] == names[..i];
      WordWiseNotesStayFailed(names, lemmas, glosses, i + 1);
    } else {
      assert names[..i] == names;
    }
  }

  /** A Word Wise link to a lemma of the table has exactly one footnote. */
  lemma WordWiseNoteTarget(names: seq<string>, lemmas: map<string, nat>, glosses: map<string, Gloss>, w: string)
    requires forall x :: x in names ==> x in lemmas
    requires forall a, b :: a in lemmas && b in lemmas && a != b ==> lemmas[a] != lemmas[b]
    requires w in names && WordWiseNotes(names, lemmas, glosses).Some?
    ensures exists i :: 0 <= i < |names| && WordWiseNotes(names, lemmas, glosses).value[i].id == lemmas[w]
    ensures forall i :: 0 <= i < |names| && WordWiseNotes(names, lemmas, glosses).value[i].id == lemmas[w] ==> names[i] == w
  {
    WordWiseNotesExact(names, lemmas, glosses);
    var k :| 0 <= k < |names| && names[k] == w;
    assert WordWiseNotes(names, lemmas, glosses).value[k].id == lemmas[w];
  }
}
