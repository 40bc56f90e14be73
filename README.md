# WordDumb EPUB X-Ray and Word Wise core, modelled in Dafny

WordDumb is a calibre plugin. It adds two features to e-books:

- **X-Ray** lists the people, places and other named entities of a book, with a footnote for each.
- **Word Wise** adds a short gloss above hard words.

This project models the core of that work:

1. **Scanning.** It models how an EPUB part is read to find its text fragments, with soft hyphens removed and offsets counted in the rewritten text. It also models how a MOBI book's HTML bytes are scanned for text between tags.
2. **Recording.** It models how keyword hits (`find_lemma`) and spaCy named entities (`find_named_entity`) become rows that carry positions.
   - For a KFX book, positions count code points.
   - For a MOBI book, positions count UTF-8 bytes.
3. **The book state.** The `EPUB` object is a class whose methods update its fields in place. It holds:
   - the entity table (`add_entity` with its fuzzy merging, `remove_entities`);
   - the lemma table (`add_lemma`);
   - the occurrences recorded for each XHTML part.
4. **Rewriting.** It models how every part is rewritten with `<a epub:type="noteref">` links, or with Word Wise `<ruby>` tags. It models the injection of the `epub:` namespace and of the Word Wise style.
5. **Footnotes.** It models which footnote each entity and each lemma receives in `x_ray.xhtml` and `word_wise.xhtml`.
6. **Packaging.** It models the manifest media type of each copied image and the file name of the output book.

## Layout

| file | module | models |
|---|---|---|
| `wrappers.dfy` | `Wrappers` | `Option` |
| `text.dfy` | `Text` | Python string helpers: clamped slices, `find`, `str.replace`, `startswith`/`endswith`, ASCII `lower()`, decimal rendering of ids |
| `utf8.dfy` | `Utf8` | `str.encode('utf-8')` and its length, which is how MOBI offsets are counted |
| `parse_job.dfy` | `ParseJob` | `find_lemma`, `NER_LABELS`, `find_named_entity`, and the MOBI text scan |
| `epub_scan.dfy` | `EpubScan` | the text scan of `extract_epub`: soft hyphens, `<body>` matches, `>[^<]{2,}<` fragments |
| `tables.dfy` | `Tables` | the entity and lemma tables as values, with their invariants, and the pruning fold of `remove_entities` |
| `anchors.dfy` | `Anchors` | the splice of one part in `insert_anchor_elements`, the sort by start offset, and the namespace and style injection |
| `footnotes.dfy` | `Footnotes` | `build_word_wise_tag`, and the choice of footnote for each entity and each lemma |
| `package.dfy` | `Package` | the media type chosen in `modify_opf`, and the output name built in `zip_extract_folder` |
| `epub.dfy` | `Epub` | class `EPUB` and its methods, plus the loop over parts in `insert_anchor_elements` |

## How the source is represented

- **Oracles.** The following are function-valued parameters:
  - rapidfuzz `extractOne` with `token_set_ratio` and `FUZZ_THRESHOLD`, as `(string, seq<string>) -> Option<string>`. It is required to answer with one of the candidates it was given.
  - `is_full_name`.
  - the regular-expression classes `\W` and `\d`, bundled as `ParseJob.CharClasses`.
- **Unseen values.** `CJK_LANGS` becomes a `cjk: bool` parameter. `PERSON_LABELS` becomes a set held in `Footnotes.Sources`.
- **Errors.** An exception the source would raise becomes `None` of an `Option`. Examples:
  - `KeyError` or `TypeError` when a lemma has no gloss;
  - `ZeroDivisionError` on an empty word;
  - a part file that is missing.
- **Caches.** The MediaWiki, Wikidata and custom X-Ray lookups are maps passed in (`Footnotes.Sources`).
- **Missing ends.** An occurrence's end is `Option<nat>`, since callers may pass `None`. `insert_anchor_elements` stores `last_end = end` unchanged (epub.py:212), and the next slice `xhtml_str[None:start]`, like the tail slice, starts at 0. The model follows the code (`Anchors.Resume`), so an occurrence without an end makes the part's beginning be copied again (`Anchors.MissingEndRepeatsPart`).
- **Strings.** Python strings are Dafny strings: sequences of Unicode scalar values, as Python's `len` counts them.
- **Bytes.** MOBI HTML is a `seq<byte>`.
- **Footnotes.** Each footnote is a structured value that records which branch produced it and which fields it shows. The HTML text of the footnote is not built.

## Model

| member | source | states |
|---|---|---|
| `ParseJob.FindLemma` | parse_job.py:100-112 | one row per keyword span, in span order; each row is the row that the span's lemma, index and end give |
| `ParseJob.LemmaRowOf` | parse_job.py:103-111 | follows the source's statements for one span and computes `LemmaRowFor`: index `start + token_start` for KFX, or start plus the UTF-8 length of the text before the token for MOBI; an end only for a phrase |
| `ParseJob.LemmaEndOnlyForPhrases` | parse_job.py:103-111 | a row has an end exactly when the keyword contains a space; the end is the index plus the keyword's length in code points for KFX or in UTF-8 bytes for MOBI; the keyword data is passed through |
| `ParseJob.KfxLemmaOffset` | parse_job.py:105-106 | for KFX, the book text at the row's index is the keyword |
| `ParseJob.MobiLemmaOffset` | parse_job.py:107-108 | for MOBI, the HTML bytes at the row's index are the UTF-8 encoding of the keyword |
| `ParseJob.MobiFragmentLemmaOffset` | parse_job.py:94-112 | a keyword found in a scanned MOBI fragment lies at the row's index in the whole HTML |
| `ParseJob.FindNamedEntity` | parse_job.py:124-151 | produces the mentions of the entities in order; English rules apply exactly when `lang == "en"` |
| `ParseJob.EntityMention` | parse_job.py:127-150 | follows the source's early exits for one entity and computes `MentionFor`: the label filter, the trimming, the length reject, and the offsets |
| `ParseJob.TrimEntityText` | parse_job.py:131-137 | follows the source's `re.sub` steps and computes `Normalize`: the entity text with non-word edges stripped; for English, a chapter heading gives no mention, and a possessive and a leading article are dropped |
| `ParseJob.MentionExactly` | parse_job.py:116-151 | an entity gives a mention if and only if its label is in `NER_LABELS`, its normalised text exists, and that text is acceptable; the mention's text is the normalised text and its sentence is the entity's; it is a person if and only if the label is `PERSON`, `PER` or `persName`; its text is at least 3 characters long in English and 2 otherwise; the text holds a word character that is not a digit |
| `ParseJob.ChapterHeadingsSkipped` | parse_job.py:133-135 | in English, text that starts with `chapter` or `hapter` in any case produces no mention |
| `ParseJob.StripNonWordEdgesExact` | parse_job.py:131-132 | the stripped text is a slice of the original whose cut-off edges are all non-word characters, and which begins and ends with a word character |
| `ParseJob.NormalizeIsSubstring` | parse_job.py:131-137 | the normalised text occurs inside the entity text, so `ent.text.index(text)` is defined |
| `ParseJob.MentionFields` | parse_job.py:139-150 | an accepted mention's text occurs in the entity text, and its offsets are those of that text |
| `ParseJob.MentionOfUnits` | parse_job.py:142-148 | unfolds `MentionOf` into the separate facts that `KfxPieceOffset` and `MobiPieceOffset` build on: the start is `start` plus the length of the document text before the piece, and the length is the piece's length; both count code points for KFX and UTF-8 bytes for MOBI |
| `ParseJob.PieceInFragment` | parse_job.py:142 | `ent.start_char + ent.text.index(text)` addresses the piece in the document text |
| `ParseJob.KfxPieceOffset` | parse_job.py:142-145 | for KFX, the book text at `[ent_start, ent_start + ent_len)` is the piece |
| `ParseJob.MobiPieceOffset` | parse_job.py:142-148 | for MOBI, the HTML bytes at `[ent_start, ent_start + ent_len)` are the UTF-8 encoding of the piece |
| `ParseJob.KfxMentionOffset` | parse_job.py:124-151 | for KFX, the book text at every reported mention's position is the mention's text |
| `ParseJob.MobiMentionOffset` | parse_job.py:124-151 | for MOBI, the HTML bytes at every reported mention's position are the UTF-8 encoding of the mention's text |
| `ParseJob.MobiFragmentsExact` | parse_job.py:94-97 | a fragment is reported if and only if it is a nonempty run without `<` or `>`, preceded by `>` and followed by `<`, at that offset |
| `ParseJob.MobiFragmentsFromExact` | parse_job.py:95-97 | the same, for a scan that starts part-way through the HTML: exactly the fragments that start after that point |
| `ParseJob.MobiFragmentsOrdered` | parse_job.py:95-97 | the fragments come left to right, and each ends before the next one starts |
| `ParseJob.FragmentPlacement` | parse_job.py:95-97 | the decoded text of a fragment, encoded again, sits at the fragment's offset in the HTML |
| `ParseJob.NextAngleFirst` | parse_job.py:95 | a match's run of bytes ends at the first `<` or `>` |
| `EpubScan.HyphenAt` | epub.py:110-113 | the soft-hyphen form matched at a position (U+00AD, `&shy;`, `&#xAD;`, `&#xad;` or `&#173;`) has length 0, 1, 5 or 6 and stays inside the text; U+00AD itself is one character |
| `EpubScan.DropHyphensProperties` | epub.py:110-113 | after removal, no U+00AD is left and the text is no longer than before; a text with none of the five forms is unchanged |
| `EpubScan.NewlinesToSpacesIsReplace` | epub.py:120 | replacing each newline with a space equals `str.replace("\n", " ")` |
| `EpubScan.BodyEndShape` | epub.py:116-118 | a body match opens with `<body`, and closes with the first `</body>` that leaves at least three characters between them |
| `EpubScan.FragmentInPart` | epub.py:119-124 | a fragment found in a body match is in the part at offset `body start + match start + 1` |
| `EpubScan.ScanFromInPart` | epub.py:116-125 | every fragment of the scan is in the part text |
| `EpubScan.PartFragmentsInPart` | epub.py:110-125 | every fragment sits, at its offset in the hyphen-free text that is written back, between a `>` and the next `<`; it has at least two characters, no `<`, and its text is that slice with newlines made spaces |
| `EpubScan.PartFragmentsOrdered` | epub.py:116-125 | the fragments of a part come left to right and do not overlap |
| `Epub.EPUB.constructor` | epub.py:44-66 | a fresh book has empty tables, no occurrences, no removed ids and no images, and its ids start at 0 |
| `Epub.EPUB.AddEntity` | epub.py:127-163 | the entity table becomes the sighting's table, and the occurrence carrying the sighting's id is appended to the part's list; the part is registered the first time it is seen; the book invariant is kept |
| `Tables.AddSighting` | epub.py:133-159 | an exact hit is counted again; otherwise, if the name is not a custom entry and the fuzzy match succeeds, the matched record is counted and renamed when `is_full_name` holds; otherwise a new record gets the next id; a sighting never changes the removed ids |
| `Tables.AddSightingKeepsTable` | epub.py:133-159 | a sighting keeps the table well formed: names without duplicates that key the records, ids distinct and below the counter, counts at least 1 |
| `Tables.AddSightingKeepsIds` | epub.py:133-159 | the ids of existing records never change; a new id is issued if and only if there is no exact hit and no fuzzy match, and it is the old counter; otherwise the id belongs to an existing record |
| `Tables.AddSightingCountsOnce` | epub.py:133-159 | every sighting raises the sum of the counts by exactly 1, and its id is held by some record |
| `Tables.SeenAgainKeepsTable` | epub.py:133-135 | counting an exact hit again keeps the table well formed |
| `Tables.RenameKeepsTable` | epub.py:144-150 | moving the matched record to the new name keeps the table well formed, and the new name goes last |
| `Tables.NewEntityKeepsTable` | epub.py:151-159 | a new record with the next id and count 1 keeps the table well formed |
| `Tables.TotalRename` | epub.py:146-150 | a rename keeps every name keyed and raises the total count by 1 |
| `Tables.SightingKeepsState` | epub.py:127-163 | adding an entity keeps the whole book invariant: both tables and the occurrence references |
| `Tables.AppendKeepsOccurrences` | epub.py:161-166 | appending an occurrence whose reference is valid keeps every recorded occurrence valid, and registers the part once |
| `Epub.EPUB.AddLemma` | epub.py:165-169 | the occurrence is appended to the part; a new lemma gets the next lemma id and goes last; a known lemma changes nothing else; the entity fields are untouched |
| `Tables.NewLemmaKeepsTable` | epub.py:167-169 | a new lemma with the next id keeps the lemma ids dense: the i-th lemma has id i |
| `Tables.LemmaIdsDistinct` | epub.py:165-169 | lemmas never repeat, and no two lemmas share an id |
| `Tables.LemmaKeepsState` | epub.py:165-169 | adding a lemma keeps the whole book invariant, both for a known lemma and for a new one |
| `Epub.EPUB.RemoveEntities` | epub.py:171-179 | the table becomes the pruning fold over the names in their old order; the book invariant is kept |
| `Epub.EPUB.Prune` | epub.py:172-179 | the loop computes exactly the pruning fold of its starting table |
| `Tables.PruneFoldExact` | epub.py:171-179 | after pruning, the table is well formed and keeps its id counter; the names are the survivors, in order; a name is still present if and only if it was not doomed; surviving records are unchanged; the removed ids gain exactly the ids of the doomed records; doomed means a count below the minimum, no cached intro, and no custom entry |
| `Tables.SurvivorsMembers` | epub.py:172-178 | a name survives if and only if it was in the table and was not doomed |
| `Tables.DoomedIdsMembers` | epub.py:172-179 | the ids added to `removed_entity_ids` are exactly those of the doomed names |
| `Tables.PruneFoldNames` | epub.py:172-178 | after pruning the first `i` names, the names are the survivors among them, followed by the untouched rest |
| `Tables.PruneFoldRecords` | epub.py:172-178 | pruning deletes records and never alters one |
| `Tables.PruneFoldRemoved` | epub.py:172-179 | pruning adds the doomed ids to the removed set and leaves the id counter alone |
| `Tables.DropKeepsTable` | epub.py:178-179 | deleting a record and marking its id removed keeps the table well formed |
| `Tables.PruneKeepsState` | epub.py:171-179 | pruning keeps the whole book invariant, including the occurrences that point at ids now removed |
| `Tables.PruningBelowTwoKeepsAll` | epub.py:173-177 | with a minimum of 1 or less no record is doomed |
| `Epub.EPUB.InsertAnchorElements` | epub.py:195-228 | the parts are rewritten in registration order. Each part's list is sorted first exactly when the book has both entities and lemmas. The rewrite fails if a part file is missing or a Word Wise tag cannot be built |
| `Epub.AnchorParts` | epub.py:196-228 | the loop over parts produces the map from each part to its rewritten text; one failing part makes the whole result fail |
| `Epub.AnchorPart` | epub.py:197-227 | one part: read it, sort when asked, splice, inject namespace and style |
| `Epub.AnchorAllSucceeds` | epub.py:196-228 | rewriting succeeds if and only if every registered part can be rewritten |
| `Epub.AnchorAllStaysFailed` | epub.py:196-228 | once a part fails, the rewrite as a whole fails |
| `Epub.AnchorAllKeys` | epub.py:196 | the parts written are exactly the registered parts |
| `Epub.AnchorAllValues` | epub.py:196-228 | every written part holds that part's rewritten text |
| `Epub.AnchorAllWritesAnchored` | epub.py:196-228 | a written part is a registered part that exists on disk, and its text is the anchored form of the file |
| `Epub.XRayLinkHasNote` | epub.py:204-209 | every X-Ray link left in the text, that is one whose id was not removed, points at an id that has an `x_ray.xhtml` footnote |
| `Epub.WordWiseLinkHasNote` | epub.py:211 | every Word Wise link points at a lemma that has a `word_wise.xhtml` footnote |
| `Anchors.SplicePart` | epub.py:202-213 | the splice loop computes exactly the splice of the part |
| `Anchors.MissingEndRepeatsPart` | epub.py:204-213 | after a kept occurrence without an end, the whole part is copied again, so the output is the text before the occurrence, its markup, then the entire part |
| `Anchors.SpliceRoundTrip` | epub.py:202-213 | when the occurrences are in order and each one renders as the text it covers, splicing gives back the original part |
| `Anchors.RunFailsOnlyOnMarkup` | epub.py:204-212 | the splice fails if and only if some occurrence that is not skipped cannot be rendered |
| `Anchors.RunStaysFailed` | epub.py:204-212 | once one occurrence fails to render, the splice fails |
| `Anchors.RunIgnoresSkipped` | epub.py:205-206 | the splice ignores occurrences of removed entity ids |
| `Anchors.SpliceIgnoresSkipped` | epub.py:205-206 | the splice of a part equals the splice of its kept occurrences alone |
| `Anchors.SpliceAllSkipped` | epub.py:205-213 | a part whose occurrences are all removed comes out unchanged |
| `Anchors.SpliceEmpty` | epub.py:202-213 | a part without occurrences comes out unchanged |
| `Anchors.RunCopiesGaps` | epub.py:207-212 | with well-ordered, self-rendering occurrences, the text built so far is the part's prefix up to the last end |
| `Anchors.LastEndBefore` | epub.py:207-212 | with ordered occurrences, the last end so far never passes the next start |
| `Anchors.SortByStartCorrect` | epub.py:197-198 | the sorted list is ordered by start offset and is a permutation of the list |
| `Anchors.SortByStartKeepsSorted` | epub.py:197-198 | a list already ordered by start is left as it is |
| `Anchors.InsertByStartSorted` | epub.py:198 | inserting into an ordered list keeps it ordered |
| `Anchors.AppendLargest` | epub.py:198 | an occurrence that starts no earlier than all the others goes last |
| `Anchors.InjectNamespaceDeclares` | epub.py:217-222 | after injection the ops namespace is present whenever the XHTML namespace declaration or the ops namespace was there before; a part that already has it, or has no declaration, is unchanged |
| `Anchors.InjectNamespaceIdempotent` | epub.py:217-222 | injecting the namespace twice is the same as injecting it once |
| `Anchors.InjectStyleAdds` | epub.py:223-227 | the Word Wise style goes in before `</head>` exactly when the book has lemmas and the part has a `</head>`; otherwise the part is unchanged |
| `Anchors.OpsInDeclaration` | epub.py:219-221 | the replacement declaration contains the ops namespace |
| `Footnotes.MarkupLinks` | epub.py:208-211 | an entity occurrence always renders and shows its text; a lemma occurrence renders if and only if its word has a gloss, has an id and is nonempty |
| `Footnotes.NoteRefInjective` | epub.py:209 | distinct ids give distinct links |
| `Footnotes.WordWiseTagShape` | epub.py:230-237 | a tag exists if and only if the word has a gloss, has an id and is nonempty; it links `word_wise.xhtml#<lemma id>`; it is a `<ruby>` tag exactly when the ratio of short definition to word length is not above the limit, and then it shows the short definition in `<rt>` |
| `Footnotes.PlainTagIsRatio` | epub.py:232-234 | the integer test equals `len(short_def) / len(word) > len_ratio`, with the ratio 5 for CJK and 2.5 otherwise |
| `Footnotes.TagShowsWord` | epub.py:235-237 | either tag shows the word as it appears in the book |
| `Footnotes.RubyShape` | epub.py:237 | the ruby tag opens with `<ruby>`, then the link, then the short definition inside `<rt>` |
| `Epub.EPUB.CreateXRayFootnotes` | epub.py:252-291 | the notes are one per entity in table order, each the note its entity selects; the image set gains exactly the map files of those notes |
| `Epub.EPUB.CollectXRayNotes` | epub.py:252-291 | the loop builds the notes and the image set for any list of names |
| `Epub.EPUB.XRayNote` | epub.py:253-291 | one entity's note, and the map file added, if any |
| `Footnotes.XRayNoteChoice` | epub.py:253-291 | a note keeps the entity id. It is a custom note if and only if a custom entry with a nonempty description exists. Otherwise it is a wiki note if and only if (`search_people` holds or the label is no person label) and an intro is cached. Otherwise it is the quote note that shows the book quote. A wiki note has a Wikidata part if and only if Wikidata is used and its cached record for the intro's item id is present and nonempty; the part names that item. A map image appears only with Wiki Commons and a nonempty cached `map_filename`, and it is that file name |
| `Footnotes.Get` | epub.py:277-282 | `wikidata_cache.get(key)` is truthy exactly when the key is present with a nonempty value, and it is then that value |
| `Footnotes.XRayNotesExact` | epub.py:252 | the i-th note is the note of the i-th entity |
| `Footnotes.XRayNoteTargets` | epub.py:252-291 | every note carries its entity's id, and no two notes share an id |
| `Footnotes.ImagesAppend` | epub.py:281-287 | one more note adds its map file to the image set and nothing else |
| `Epub.EPUB.CreateWordWiseFootnotes` | epub.py:308-314 | the notes are one per lemma in id order, each with the lemma's gloss and optional example; the result fails if a lemma has no gloss |
| `Epub.CollectWordWiseNotes` | epub.py:308-314 | the loop builds the Word Wise notes for any list of lemmas, and fails at the first lemma without a gloss |
| `Footnotes.WordWiseNotesExact` | epub.py:308-314 | the notes exist if and only if every lemma has a gloss; the i-th note has the i-th lemma's id, the gloss, and the example when it is nonempty |
| `Footnotes.WordWiseNotesStayFailed` | epub.py:308-310 | once a lemma lacks a gloss, the notes as a whole fail |
| `Footnotes.WordWiseNoteTarget` | epub.py:308-309 | each lemma has exactly one note with its id |
| `Package.MediaTypeKnown` | epub.py:339-349 | a file whose suffix, lower-cased, is `.svg`, `.png`, `.jpg` or `.webp` gets `svg+xml`, `png`, `jpeg` or `webp` |
| `Package.MediaTypeOfEnding` | epub.py:339-347 | a lower-cased name that ends with a known extension gets that extension's media type |
| `Package.MediaTypeFallback` | epub.py:348-349 | any other file gets its `pathlib` suffix without the dot, which is empty when there is no suffix |
| `Package.MediaTypeHasNoDot` | epub.py:338-349 | no media type contains a dot |
| `Package.MediaTypeIgnoresCase` | epub.py:339-347 | for the known extensions the case of the name does not matter |
| `Package.ManifestMediaTypeChoice` | epub.py:338-350 | the manifest media type is `image/svg+xml`, `image/png`, `image/jpeg` or `image/webp`, or else `image/` followed by the file's suffix with its dots dropped; nothing after `image/` is a dot |
| `Package.SuffixShape` | epub.py:349 | the `pathlib` suffix is empty, or a dot followed by at least one character without a dot; it ends the name, and the stem and suffix rebuild the name |
| `Package.OutputNameShape` | epub.py:361-368 | the output name is the stem of the book path's last component, `_x_ray` when there are entities, `_word_wise` when there are lemmas, and then `.epub` |
| `Package.OutputNameInjective` | epub.py:363-368 | the output name tells which of the two features the book received |
| `ParseJob.LemmaRowFor` | parse_job.py:103-111 | defines one `insert_lemma` row: the index in the book's unit, the end of a phrase, and the keyword data |
| `ParseJob.StripNonWordEdges` | parse_job.py:131-132 | defines the removal of leading and trailing `\W+` |
| `ParseJob.IsChapterHeading` | parse_job.py:134 | defines `re.match(r'c?hapter', text, re.IGNORECASE)` |
| `ParseJob.DropPossessive` | parse_job.py:136 | defines the removal of one trailing `'s` or `’s` |
| `ParseJob.DropArticle` | parse_job.py:137 | defines the removal of one leading `the `, `an ` or `a `, in any case |
| `ParseJob.Normalize` | parse_job.py:131-137 | defines the trimmed entity text, or none for an English chapter heading |
| `ParseJob.Acceptable` | parse_job.py:125-139 | defines the length limit (3 in English, 2 otherwise) and the `[\W\d]+` reject |
| `ParseJob.MentionOf` | parse_job.py:142-150 | defines the reported mention: `ent_start`, `ent_len`, the person flag and the sentence |
| `ParseJob.MentionFor` | parse_job.py:127-150 | defines the mention of one entity, or none when the loop `continue`s |
| `ParseJob.Mentions` | parse_job.py:127-151 | defines the mentions of all entities, in order |
| `ParseJob.MatchEnd` | parse_job.py:95 | defines where `>[^<>]+<` matches when tried at a position |
| `ParseJob.MobiFragmentsFrom` | parse_job.py:95-97 | defines the `finditer` scan from a position: each match, then the scan after it |
| `ParseJob.MobiFragments` | parse_job.py:94-97 | defines the fragments of the whole HTML with offsets `match.start() + 1` |
| `EpubScan.DropHyphens` | epub.py:110-113 | defines the left-to-right removal of the five soft-hyphen forms |
| `EpubScan.BodyEnd` | epub.py:116-118 | defines where `<body.{3,}?</body>` matches when tried at a position |
| `EpubScan.FragmentClose` | epub.py:119 | defines where `>[^<]{2,}<` matches when tried at a position |
| `EpubScan.FragmentsFrom` | epub.py:119-125 | defines the fragments of one body match with their text and offset |
| `EpubScan.ScanFrom` | epub.py:116-125 | defines the body matches in turn and the fragments of each |
| `EpubScan.PartFragments` | epub.py:109-125 | defines the fragments of a part read from disk, with the hyphens removed first |
| `Tables.FuzzyMatch` | epub.py:136-143 | defines the fuzzy lookup, tried only without an exact hit and for a name without a custom entry |
| `Tables.Doomed` | epub.py:173-177 | defines the removal test: count below the minimum, no cached intro, no custom entry |
| `Tables.PruneStep` | epub.py:173-179 | defines one iteration of `remove_entities` |
| `Tables.PruneFold` | epub.py:171-179 | defines `remove_entities` as the steps over the names in their old order |
| `Anchors.Resume` | epub.py:207-213 | defines where the next copy starts after `last_end = end`: the end, or 0 for `None` |
| `Anchors.Step` | epub.py:204-212 | defines one iteration of the splice loop |
| `Anchors.Run` | epub.py:202-212 | defines the splice loop's state after the given occurrences |
| `Anchors.Splice` | epub.py:202-213 | defines the spliced part: the loop's output, then the tail after the cursor |
| `Anchors.SortByStart` | epub.py:198 | defines `sorted(entity_list, key=lambda x: x[0])` |
| `Anchors.InjectNamespace` | epub.py:217-222 | defines the guarded `str.replace` that declares the epub namespace |
| `Anchors.InjectStyle` | epub.py:223-227 | defines the `str.replace` that puts the Word Wise style before `</head>` |
| `Anchors.AnchoredPart` | epub.py:197-227 | defines the rewritten text of one part: sort when asked, splice, inject |
| `Footnotes.NoteRef` | epub.py:209 | defines the `<a epub:type="noteref">` link to a footnote id |
| `Footnotes.BuildWordWiseTag` | epub.py:230-237 | defines the Word Wise tag: none without a gloss, an id or a nonempty word, otherwise the plain link or the ruby tag |
| `Footnotes.Markup` | epub.py:208-211 | defines the markup of an occurrence: an X-Ray link for an entity id, the Word Wise tag for a lemma |
| `Footnotes.XRayNoteFor` | epub.py:253-291 | defines the footnote of one entity: custom, wiki with optional Wikidata part, or quote |
| `Footnotes.XRayNotes` | epub.py:252-291 | defines the footnotes of the entities in table order |
| `Footnotes.WordWiseNoteFor` | epub.py:309-314 | defines the footnote of one lemma, or none without a gloss |
| `Footnotes.WordWiseNotes` | epub.py:308-314 | defines the footnotes of the lemmas in id order, or none once a gloss is missing |
| `Package.Suffix` | epub.py:349 | defines `PurePath.suffix` of a file name |
| `Package.MediaType` | epub.py:339-349 | defines the subtype chosen by the lower-cased ending, falling back to the suffix without dots |
| `Package.OutputName` | epub.py:361-368 | defines the output file name |
| `Epub.AnchorAll` | epub.py:196-228 | defines the rewrite of the registered parts in order, failing once a part fails |

## Left out

- File and archive I/O is not modelled. This covers the zip extraction and `make_archive`, reading and writing the parts and the footnote files, `shutil.copy` of map images, and `rmtree`. Part contents are a map from path to text.
- The lxml parsing and building of `container.xml` and the OPF is not modelled, and neither are the `xhtml_path` lookup with `rglob` and the folder flags. From `modify_opf`, only the media type of each image is modelled.
- `Epub.AnchorAllValues`: the source writes each part as soon as it is rewritten, so a failure part-way through leaves the earlier parts rewritten on disk. The model produces an all-or-nothing map.
- `html.escape`, `html.unescape` and `urllib.parse.quote` are library calls that are not modelled. A footnote records its raw fields, and `Footnotes.NoteRef` puts the origin text into the link as it is.
- `unescape` on the text that `extract_epub` yields is not applied. `EpubScan.PartFragments` yields the raw text with newlines made spaces, which is also the source's second tuple element.
- `regime_type` (floating point) and `inception_text` (dates) are not modelled. A Wikidata part records that the democracy index and the inception are present and nonempty.
- `query_mediawiki`, `query_wikidata`, the Wiki Commons download and all network access are left out. Their caches are maps in `Footnotes.Sources`.
- `Tables.Doomed`: `mediawiki.get_cache(entity) is None` becomes "the name is not in the intros map". A cached value that is present but falsy is not distinguished.
- `Footnotes.XRayNoteFor`: the walrus truthiness test of `mediawiki.get_cache` is modelled as presence in the intros map. The Wikidata record's truthiness is modelled: an empty record gives no Wikidata part.
- rapidfuzz `extractOne` and `is_full_name` are oracles passed as parameters. The model does not compute the fuzzy score.
- spaCy, flashtext and pyahocorasick are inputs. The model receives its entities and keyword spans already found.
- The MOBI and KFX readers are inputs, and so is the decision whether a book is KFX. The model receives the HTML bytes or the text.
- `ParseJob.MobiFragments`: the fragments keep their bytes. The model does not decode them, and it does not raise on invalid UTF-8.
- Python's Unicode-aware `str.lower()` and `re.IGNORECASE` are modelled as ASCII case folding in `Text.AsciiLower` and `Text.StartsWithIgnoreCase`.
- The `\W` and `\d` classes are oracles in `ParseJob.CharClasses`, so their Unicode tables are not modelled.
- `Package.Suffix` models `pathlib`'s suffix on the last path component. `pathlib`'s removal of trailing slashes and its normalisation of `.` components are not modelled.
- `get_lemma_gloss` is a map lookup in `lemmaGlosses`. The CJK `[1:]` slice of a pyahocorasick entry is folded into the `Gloss` record.
- `insert_lemma` (SQLite) and `x_ray.search` are the sinks of `find_lemma` and `find_named_entity`. The model returns the rows and the mentions instead.
- `modify_epub` orchestrates the other operations; its `minimal_x_ray_count > 1` guard is justified by `Tables.PruningBelowTwoKeepsAll`. The MediaWiki queries and `wiki_commons.close()` are left out.
- `CJK_LANGS` and `PERSON_LABELS` are defined in files outside this model. They are parameters.
- `Anchors.SortByStartCorrect`: it proves that the result is ordered and is a permutation. It does not prove the stability of Python's `sorted`, although the insertion it uses places an equal key after the existing ones.
- `Epub.EPUB.InsertAnchorElements` returns the rewritten parts and does not write them.
- `Text.PySlice` takes `nat` bounds: Python's negative indexes in slices are not modelled, as the slices of the core only use offsets that cannot be negative.
- `EpubScan.PartFragments` and `Epub.PartText` receive part text already read: the newline translation of text-mode `open(...).read()` (epub.py:109, epub.py:200-201) is not modelled.
