/** The EPUB annotator's state: the entity table, the lemma table and the
    occurrences recorded per book part, with the operations that fill them,
    prune them and turn them into links and footnotes. */
module Epub {
  import opened Wrappers
  import opened Text
  import opened Anchors
  import opened Footnotes
  import opened Tables

  /** The markup of an occurrence, with the lemma table, the glosses and
      the language kind fixed. */
  function Render(lemmas: map<string, nat>, glosses: map<string, Gloss>, cjk: bool): Occurrence -> Option<string> {
    o => Markup(o, lemmas, glosses, cjk)
  }

  /** What one anchoring pass needs beside the parts' texts. */
  datatype Anchoring = Anchoring(occurrences: map<Path, seq<Occurrence>>, sortFirst: bool, removed: set<nat>,
                                 render: Occurrence -> Option<string>, hasLemmas: bool)

  /** The text written back for one part; None when it cannot be read or a
      markup of it cannot be built. */
  function PartText(files: map<Path, string>, p: Path, a: Anchoring): Option<string> {
    if p !in files then None
    else AnchoredPart(files[p], OccurrencesOf(a.occurrences, p), a.sortFirst, a.removed, a.render, a.hasLemmas)
  }

  /** The text written back for each part, as one function of the path. */
  function PartTexts(files: map<Path, string>, a: Anchoring): Path -> Option<string> {
    p => PartText(files, p, a)
  }

  /** One step of the pass: the part's text joins what was written so far. */
  function AnchorStep(written: Option<map<Path, string>>, p: Path, text: Option<string>): Option<map<Path, string>> {
    if written.Some? && text.Some? then Some(written.value[p := text.value]) else None
  }

  /** The texts written back for the first `k` parts, by path, where `text`
      gives the text of one part (PartTexts). */
  function AnchorAll(parts: seq<Path>, k: nat, text: Path -> Option<string>): Option<map<Path, string>>
    requires k <= |parts|
  {
    if k == 0 then Some(map[])
    else AnchorStep(AnchorAll(parts, k - 1, text), parts[k - 1], text(parts[k - 1]))
  }

  /** Once a part fails, the whole pass fails. */
  lemma {:induction false} AnchorAllStaysFailed(parts: seq<Path>, k: nat, i: nat, text: Path -> Option<string>)
    requires i <= k <= |parts|
    requires AnchorAll(parts, i, text).None?
    ensures AnchorAll(parts, k, text).None?
  {
    if i < k {
      AnchorAllStaysFailed(parts, k - 1, i, text);
    }
  }

  /** The pass succeeds exactly when every part can be read and anchored. */
  lemma {:induction false} AnchorAllSucceeds(parts: seq<Path>, k: nat, text: Path -> Option<string>)
    requires k <= |parts|
    ensures AnchorAll(parts, k, text).Some? <==> forall j :: 0 <= j < k ==> text(parts[j]).Some?
  {
    if k > 0 {
      AnchorAllSucceeds(parts, k - 1, text);
    }
  }

  /** A successful pass writes each part of the order, and nothing else. */
  lemma {:induction false} AnchorAllKeys(parts: seq<Path>, k: nat, text: Path -> Option<string>, w: map<Path, string>)
    requires k <= |parts| && AnchorAll(parts, k, text) == Some(w)
    ensures forall p :: p in w <==> p in parts[..k]
  {
    if k > 0 {
      var w' := AnchorAll(parts, k - 1, text).value;
      AnchorAllKeys(parts, k - 1, text, w');
      assert parts[..k] == parts[..k - 1] + [parts[k - 1]];
    }
  }

  /** Each part a successful pass writes holds its own text. */
  lemma {:induction false} AnchorAllValues(parts: seq<Path>, k: nat, text: Path -> Option<string>, w: map<Path, string>)
    requires k <= |parts| && AnchorAll(parts, k, text) == Some(w)
    ensures forall p :: p in w ==> text(p) == Some(w[p])
  {
    if k > 0 {
      var w' := AnchorAll(parts, k - 1, text).value;
      AnchorAllValues(parts, k - 1, text, w');
    }
  }

  /** In a successful pass every part's file was read and its texts were
      anchored: each written text is the anchored form of the part. */
  lemma AnchorAllWritesAnchored(parts: seq<Path>, files: map<Path, string>, a: Anchoring, w: map<Path, string>, p: Path)
    requires AnchorAll(parts, |parts|, PartTexts(files, a)) == Some(w) && p in w
    ensures p in parts && p in files
    ensures AnchoredPart(files[p], OccurrencesOf(a.occurrences, p), a.sortFirst, a.removed, a.render, a.hasLemmas) == Some(w[p])
  {
    AnchorAllKeys(parts, |parts|, PartTexts(files, a), w);
    AnchorAllValues(parts, |parts|, PartTexts(files, a), w);
    assert parts[..|parts|] == parts;
    assert PartTexts(files, a)(p) == PartText(files, p, a);
  }

  /** Every X-Ray link left in the book, that is every occurrence of an
      entity that was not pruned, has a footnote in the X-Ray page. */
  lemma XRayLinkHasNote(t: EntityTable, lemmaNames: seq<string>, lemmas: map<string, nat>, lemmaId: nat,
                        parts: seq<Path>, occurrences: map<Path, seq<Occurrence>>,
                        custom: map<string, CustomEntry>, src: Sources, p: Path, k: nat)
    requires StateOk(t, lemmaNames, lemmas, lemmaId, parts, occurrences)
    requires p in occurrences && k < |occurrences[p]|
    requires occurrences[p][k].ref.EntityRef? && !Skipped(occurrences[p][k], t.removed)
    ensures forall x :: x in t.names ==> x in t.entities
    ensures exists i :: 0 <= i < |t.names| && XRayNotes(t.names, t.entities, custom, src)[i].id == occurrences[p][k].ref.id
  {
    var id := occurrences[p][k].ref.id;
    assert RefOk(occurrences[p][k].ref, t.nextId, lemmas);
    var n :| n in t.entities && t.entities[n].id == id;
    var i :| 0 <= i < |t.names| && t.names[i] == n;
    XRayNoteTargets(t.names, t.entities, custom, src);
  }

  /** Every Word Wise link has a footnote in the Word Wise page, when that
      page can be built. */
  lemma WordWiseLinkHasNote(t: EntityTable, lemmaNames: seq<string>, lemmas: map<string, nat>, lemmaId: nat,
                            parts: seq<Path>, occurrences: map<Path, seq<Occurrence>>,
                            glosses: map<string, Gloss>, p: Path, k: nat)
    requires StateOk(t, lemmaNames, lemmas, lemmaId, parts, occurrences)
    requires p in occurrences && k < |occurrences[p]| && occurrences[p][k].ref.LemmaRef?
    requires WordWiseNotes(lemmaNames, lemmas, glosses).Some?
    ensures occurrences[p][k].ref.word in lemmas
    ensures exists i :: 0 <= i < |lemmaNames| && WordWiseNotes(lemmaNames, lemmas, glosses).value[i].id == lemmas[occurrences[p][k].ref.word]
  {
    assert RefOk(occurrences[p][k].ref, t.nextId, lemmas);
    LemmaIdsDistinct(lemmaNames, lemmas, lemmaId);
    WordWiseNoteTarget(lemmaNames, lemmas, glosses, occurrences[p][k].ref.word);
  }

  class EPUB {
    var entityId: nat
    var names: seq<string>
    var entities: map<string, EntityData>
    var parts: seq<Path>
    var occurrences: map<Path, seq<Occurrence>>
    var removedEntityIds: set<nat>
    var imageFilenames: set<string>
    var lemmaNames: seq<string>
    var lemmas: map<string, nat>
    var lemmaId: nat
    const customXRay: map<string, CustomEntry>
    const lemmaGlosses: map<string, Gloss>

    ghost predicate Valid()
      reads this
    {
      StateOk(EntityTable(names, entities, entityId, removedEntityIds), lemmaNames, lemmas, lemmaId, parts, occurrences)
    }

    constructor (customXRay: map<string, CustomEntry>, lemmaGlosses: map<string, Gloss>)
      ensures Valid()
      ensures this.customXRay == customXRay && this.lemmaGlosses == lemmaGlosses
      ensures entityId == 0 && names == [] && entities == map[] && parts == [] && occurrences == map[]
      ensures removedEntityIds == {} && imageFilenames == {}
      ensures lemmaNames == [] && lemmas == map[] && lemmaId == 0
    {
      this.customXRay := customXRay;
      this.lemmaGlosses := lemmaGlosses;
      entityId := 0;
      names := [];
      entities := map[];
      parts := [];
      occurrences := map[];
      removedEntityIds := {};
      imageFilenames := {};
      lemmaNames := [];
      lemmas := map[];
      lemmaId := 0;
    }

    /** The entity table, as one value. */
    function Table(): EntityTable
      reads this
    {
      EntityTable(names, entities, entityId, removedEntityIds)
    }

    /** Records a named entity seen in the book (see AddSighting: a known
        name is counted again, a name the fuzzy matcher `extractOne` relates
        to a table entry counts as that one and takes it over when
        `isFullName` says so, any other name gets a fresh record), and
        records the occurrence under the id used. */
    method AddEntity(entity: string, nerLabel: string, bookQuote: string, start: nat, end: Option<nat>, xhtmlPath: Path,
                     originEntity: string, extractOne: (string, seq<string>) -> Option<string>,
                     isFullName: (string, string, string, string) -> bool)
      requires Valid()
      requires FuzzyMatch(Table(), entity, customXRay, extractOne).Some? ==>
                 FuzzyMatch(Table(), entity, customXRay, extractOne).value in entities
      modifies this`entities, this`names, this`entityId, this`removedEntityIds, this`parts, this`occurrences
      ensures Valid()
      ensures Table() == AddSighting(old(Table()), entity, nerLabel, bookQuote, customXRay, extractOne, isFullName).table
      ensures occurrences == old(occurrences)[xhtmlPath := OccurrencesOf(old(occurrences), xhtmlPath) +
                               [Occurrence(start, end, originEntity,
                                           EntityRef(AddSighting(old(Table()), entity, nerLabel, bookQuote, customXRay, extractOne, isFullName).id))]]
      ensures parts == if xhtmlPath in old(occurrences) then old(parts) else old(parts) + [xhtmlPath]
    {
      var t := Table();
      var ps, os, lem, ln, lid := parts, occurrences, lemmas, lemmaNames, lemmaId;
      var s := AddSighting(t, entity, nerLabel, bookQuote, customXRay, extractOne, isFullName);
      var o := Occurrence(start, end, originEntity, EntityRef(s.id));
      SightingKeepsState(t, ln, lem, lid, ps, os, entity, nerLabel, bookQuote, customXRay, extractOne, isFullName, s, xhtmlPath, o);
      Commit(s.table, PartsAfter(ps, os, xhtmlPath), Appended(os, xhtmlPath, o));
    }

    /** Installs a new entity table and new occurrence lists. */
    method Commit(t: EntityTable, ps: seq<Path>, os: map<Path, seq<Occurrence>>)
      requires StateOk(t, lemmaNames, lemmas, lemmaId, ps, os)
      modifies this`entities, this`names, this`entityId, this`removedEntityIds, this`parts, this`occurrences
      ensures Valid()
      ensures Table() == t && parts == ps && occurrences == os
    {
      names, entities, entityId, removedEntityIds := t.names, t.entities, t.nextId, t.removed;
      parts, occurrences := ps, os;
    }

    /** Records an occurrence of a Word Wise lemma; a lemma seen for the
        first time gets the next lemma id. */
    method AddLemma(word: string, start: nat, end: Option<nat>, xhtmlPath: Path, originText: string)
      requires Valid()
      modifies this
      ensures Valid()
      ensures occurrences == old(occurrences[xhtmlPath := OccurrencesOf(occurrences, xhtmlPath) +
                                             [Occurrence(start, end, originText, LemmaRef(word))]])
      ensures parts == if old(xhtmlPath in occurrences) then old(parts) else old(parts) + [xhtmlPath]
      ensures old(word in lemmas) ==> lemmas == old(lemmas) && lemmaNames == old(lemmaNames) && lemmaId == old(lemmaId)
      ensures old(word !in lemmas) ==>
                lemmas == old(lemmas[word := lemmaId]) && lemmaNames == old(lemmaNames) + [word] && lemmaId == old(lemmaId) + 1
      ensures entityId == old(entityId) && names == old(names) && entities == old(entities)
      ensures removedEntityIds == old(removedEntityIds) && imageFilenames == old(imageFilenames)
    {
      var t := Table();
      var ps, os, lem, ln, lid := parts, occurrences, lemmas, lemmaNames, lemmaId;
      var o := Occurrence(start, end, originText, LemmaRef(word));
      LemmaKeepsState(t, ln, lem, lid, ps, os, word, xhtmlPath, o);
      parts, occurrences := PartsAfter(ps, os, xhtmlPath), Appended(os, xhtmlPath, o);
      if word !in lem {
        lemmas, lemmaNames, lemmaId := lem[word := lid], ln + [word], lid + 1;
      }
    }

    /** Drops every entity seen fewer than `minimalCount` times that has no
        Wikipedia summary (`intros`) and no custom entry, walking over a copy
        of the table in its order, and remembers the dropped ids so that their
        occurrences are skipped (see PruneFoldExact). */
    method RemoveEntities(minimalCount: int, intros: map<string, IntroEntry>)
      requires Valid()
      modifies this`names, this`entities, this`removedEntityIds
      ensures Valid()
      ensures Table() == PruneFold(old(Table()), |old(names)|, minimalCount, intros, customXRay)
    {
      var t0 := Table();
      PruneKeepsState(t0, lemmaNames, lemmas, lemmaId, parts, occurrences, minimalCount, intros, customXRay);
      Prune(t0, minimalCount, intros);
    }

    /** The pruning walk itself, over the copy `t0` of the table. */
    method Prune(t0: EntityTable, minimalCount: int, intros: map<string, IntroEntry>)
      requires Table() == t0 && forall x :: x in t0.names ==> x in t0.entities
      modifies this`names, this`entities, this`removedEntityIds
      ensures Table() == PruneFold(t0, |t0.names|, minimalCount, intros, customXRay)
    {
      for i := 0 to |t0.names|
        invariant Table() == PruneFold(t0, i, minimalCount, intros, customXRay)
      {
        var n := t0.names[i];
        var d := t0.entities[n];
        ghost var before := Table();
        if d.count < minimalCount && n !in intros && n !in customXRay {
          entities := entities - {n};
          names := Without(names, n);
          removedEntityIds := removedEntityIds + {d.id};
        }
        assert Table() == PruneStep(before, n, d, minimalCount, intros, customXRay);
        assert PruneFold(t0, i + 1, minimalCount, intros, customXRay) ==
               PruneStep(PruneFold(t0, i, minimalCount, intros, customXRay), n, d, minimalCount, intros, customXRay);
      }
    }

    /** Splices the links into every part that has occurrences, in the order
        the parts were first seen; each list is sorted by start when there
        are both entities and lemmas. `files` holds the parts' texts as read;
        the result holds the texts written back. */
    method InsertAnchorElements(files: map<Path, string>, cjk: bool) returns (written: Option<map<Path, string>>)
      ensures written == AnchorAll(parts, |parts|, PartTexts(files, Anchoring(occurrences, |entities| > 0 && |lemmas| > 0,
                                   removedEntityIds, Render(lemmas, lemmaGlosses, cjk), |lemmas| > 0)))
    {
      var ps := parts;
      var a := Anchoring(occurrences, |entities| > 0 && |lemmas| > 0, removedEntityIds,
                         Render(lemmas, lemmaGlosses, cjk), |lemmas| > 0);
      written := AnchorParts(ps, files, a);
    }

    /** The X-Ray footnotes, one per entity in table order; every map image
        a footnote embeds is remembered for the package manifest. */
    method CreateXRayFootnotes(src: Sources) returns (notes: seq<XRayNote>)
      requires Valid()
      modifies this`imageFilenames
      ensures forall x :: x in names ==> x in entities
      ensures notes == XRayNotes(names, entities, customXRay, src)
      ensures imageFilenames == old(imageFilenames) + Images(notes)
    {
      StateNamesKeyed(Table(), lemmaNames, lemmas, lemmaId, parts, occurrences);
      notes := CollectXRayNotes(names, entities, src);
    }

    /** The loop of the X-Ray page over a snapshot of the table. */
    method CollectXRayNotes(ns: seq<string>, es: map<string, EntityData>, src: Sources) returns (notes: seq<XRayNote>)
      requires forall x :: x in ns ==> x in es
      modifies this`imageFilenames
      ensures notes == XRayNotes(ns, es, customXRay, src)
      ensures imageFilenames == old(imageFilenames) + Images(notes)
    {
      notes := [];
      for i := 0 to |ns|
        invariant notes == XRayNotes(ns[..i], es, customXRay, src)
        invariant imageFilenames == old(imageFilenames) + Images(notes)
      {
        assert ns[..i + 1][..i] == ns[..i];
        var n := ns[i];
        var note := XRayNote(n, es[n], src);
        ImagesAppend(notes, note);
        notes := notes + [note];
      }
      assert ns[..|ns|] == ns;
    }

    /** The footnote of one entity; its map image, if any, is remembered. */
    method XRayNote(n: string, d: EntityData, src: Sources) returns (note: XRayNote)
      modifies this`imageFilenames
      ensures note == XRayNoteFor(n, d, customXRay, src)
      ensures imageFilenames == old(imageFilenames) + (if NoteImage(note).Some? then {NoteImage(note).value} else {})
    {
      if n in customXRay && customXRay[n].desc != "" {
        note := CustomNote(d.id, customXRay[n].desc, customXRay[n].source);
      } else if (src.searchPeople || d.nerLabel !in src.personLabels) && n in src.intros {
        var intro := src.intros[n];
        var wikidata: Option<WikidataPart> := None;
        if src.wikidata.Some? && intro.itemId in src.wikidata.value && src.wikidata.value[intro.itemId] != map[] {
          var w := src.wikidata.value[intro.itemId];
          var mapFilename: Option<string> := None;
          var filename := Get(w, "map_filename");
          if src.wikiCommons && filename != "" {
            mapFilename := Some(filename);
            imageFilenames := imageFilenames + {filename};
          }
          wikidata := Some(WikidataPart(intro.itemId, NonEmpty(Get(w, "democracy_index")), NonEmpty(Get(w, "inception")), mapFilename));
        }
        note := WikiNote(d.id, n, intro.intro, wikidata);
      } else {
        note := QuoteNote(d.id, d.quote);
      }
    }

    /** The Word Wise footnotes, one per lemma in table order; None when a
        lemma has no gloss. */
    method CreateWordWiseFootnotes() returns (notes: Option<seq<WordWiseNote>>)
      requires Valid()
      ensures forall x :: x in lemmaNames ==> x in lemmas
      ensures notes == WordWiseNotes(lemmaNames, lemmas, lemmaGlosses)
    {
      StateNamesKeyed(Table(), lemmaNames, lemmas, lemmaId, parts, occurrences);
      notes := CollectWordWiseNotes(lemmaNames, lemmas, lemmaGlosses);
    }
  }

  /** The loop of the anchoring pass: the parts in order, stopping at the
      first one that cannot be read or anchored. */
  method AnchorParts(parts: seq<Path>, files: map<Path, string>, a: Anchoring) returns (written: Option<map<Path, string>>)
    ensures written == AnchorAll(parts, |parts|, PartTexts(files, a))
  {
    var f := PartTexts(files, a);
    var out: map<Path, string> := map[];
    for i := 0 to |parts|
      invariant AnchorAll(parts, i, f) == Some(out)
    {
      var p := parts[i];
      var text := AnchorPart(files, p, a);
      assert f(p) == text;
      if text.None? {
        AnchorAllStaysFailed(parts, |parts|, i + 1, f);
        return None;
      }
      out := out[p := text.value];
    }
    written := Some(out);
  }

  /** One part: sorted first when asked, spliced, then given the namespace
      and the style. */
  method AnchorPart(files: map<Path, string>, p: Path, a: Anchoring) returns (text: Option<string>)
    ensures text == PartText(files, p, a)
  {
    if p !in files {
      return None;
    }
    var list := OccurrencesOf(a.occurrences, p);
    if a.sortFirst {
      list := SortByStart(list);
    }
    var spliced := SplicePart(files[p], list, a.removed, a.render);
    if spliced.None? {
      return None;
    }
    text := Some(InjectStyle(InjectNamespace(spliced.value), a.hasLemmas));
  }

  /** The loop of the Word Wise page over a snapshot of the lemma table. */
  method CollectWordWiseNotes(ws: seq<string>, lemmas: map<string, nat>, glosses: map<string, Gloss>)
    returns (notes: Option<seq<WordWiseNote>>)
    requires forall x :: x in ws ==> x in lemmas
    ensures notes == WordWiseNotes(ws, lemmas, glosses)
  {
    var acc: seq<WordWiseNote> := [];
    for i := 0 to |ws|
      invariant WordWiseNotes(ws[..i], lemmas, glosses) == Some(acc)
    {
      assert ws[..i + 1][..i] == ws[..i];
      var w := ws[i];
      if w !in glosses {
        WordWiseNotesStayFailed(ws, lemmas, glosses, i + 1);
        return None;
      }
      acc := acc + [WordWiseNote(lemmas[w], w, glosses[w].gloss, NonEmpty(glosses[w].example))];
    }
    assert ws[..|ws|] == ws;
    notes := Some(acc);
  }
}
