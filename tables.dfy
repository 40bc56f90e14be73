/** The tables the EPUB annotator keeps, as values: the entity table with
    its key order, the lemma table with its order and the occurrences per
    book part, the invariants they keep and how each update preserves them. */
module Tables {
  import opened Wrappers
  import opened Text
  import opened Anchors
  import opened Footnotes

  /** A book part, by its path in the extracted book. */
  type Path = string

  predicate NoDup<T(==)>(s: seq<T>) {
    forall i, j :: 0 <= i < j < |s| ==> s[i] != s[j]
  }

  /** The name sequence with one name taken out; order is kept. */
  function Without(names: seq<string>, n: string): (r: seq<string>)
    ensures forall x :: x in r <==> x in names && x != n
  {
    if names == [] then [] else (if names[0] == n then [] else [names[0]]) + Without(names[1..], n)
  }

  lemma {:induction false} WithoutNoDup(names: seq<string>, n: string)
    requires NoDup(names)
    ensures NoDup(Without(names, n))
  {
    if names != [] {
      assert NoDup(names[1..]);
      WithoutNoDup(names[1..], n);
      var r := Without(names[1..], n);
      if names[0] != n {
        assert names[0] !in names[1..];
        assert names[0] !in r;
        ConsNoDup(names[0], r);
      }
    }
  }

  lemma ConsNoDup(x: string, s: seq<string>)
    requires NoDup(s) && x !in s
    ensures NoDup([x] + s)
  {
    var r := [x] + s;
    forall i, j | 0 <= i < j < |r| ensures r[i] != r[j] {
      assert r[j] == s[j - 1];
      if i > 0 {
        assert r[i] == s[i - 1];
      }
    }
  }

  lemma SnocNoDup(s: seq<string>, x: string)
    requires NoDup(s) && x !in s
    ensures NoDup(s + [x])
  {
    var r := s + [x];
    forall i, j | 0 <= i < j < |r| ensures r[i] != r[j] {
      assert r[i] == s[i];
      if j < |s| {
        assert r[j] == s[j];
      }
    }
  }

  /** Taking out a name that is not there changes nothing; taking out the
      head of what is left of a walk drops just that name. */
  lemma {:induction false} WithoutAbsent(names: seq<string>, n: string)
    requires n !in names
    ensures Without(names, n) == names
  {
    if names != [] {
      WithoutAbsent(names[1..], n);
      assert names == [names[0]] + names[1..];
    }
  }

  lemma {:induction false} WithoutConcat(a: seq<string>, b: seq<string>, n: string)
    ensures Without(a + b, n) == Without(a, n) + Without(b, n)
  {
    if a != [] {
      assert (a + b)[0] == a[0] && (a + b)[1..] == a[1..] + b;
      WithoutConcat(a[1..], b, n);
    } else {
      assert a + b == b;
    }
  }

  // ---------------------------------------------------------------------
  // Table invariants, stated on values
  // ---------------------------------------------------------------------

  /** The entity table: `names` is the table's key order; ids are distinct,
      below the next id and never removed while in use; every id handed out
      is either in use or removed; every entity was seen at least once. */
  ghost predicate EntityTableOk(names: seq<string>, entities: map<string, EntityData>, nextId: nat, removed: set<nat>) {
    && Keyed(names, entities)
    && (forall n :: n in entities ==> entities[n].id < nextId && entities[n].count >= 1 && entities[n].id !in removed)
    && (forall a, b :: a in entities && b in entities && a != b ==> entities[a].id != entities[b].id)
    && (forall i :: i in removed ==> i < nextId)
    && (forall i :: 0 <= i < nextId && i !in removed ==> exists n :: n in entities && entities[n].id == i)
  }

  /** The order lists each key of the table once. */
  ghost predicate Keyed(names: seq<string>, entities: map<string, EntityData>) {
    && NoDup(names)
    && (forall n :: n in entities <==> n in names)
  }

  /** The lemma table: lemma i of the order has id i, and the order lists
      exactly the table's keys. */
  ghost predicate LemmaTableOk(lemmaNames: seq<string>, lemmas: map<string, nat>, nextId: nat) {
    && |lemmaNames| == nextId
    && (forall i :: 0 <= i < |lemmaNames| ==> lemmaNames[i] in lemmas && lemmas[lemmaNames[i]] == i)
    && (forall w :: w in lemmas ==> w in lemmaNames)
  }

  /** Every occurrence refers to an id that was handed out or to a lemma of
      the table. */
  predicate RefOk(r: Ref, nextId: nat, lemmas: map<string, nat>) {
    match r
    case EntityRef(id) => id < nextId
    case LemmaRef(w) => w in lemmas
  }

  ghost predicate OccurrencesOk(parts: seq<Path>, occurrences: map<Path, seq<Occurrence>>, nextId: nat, lemmas: map<string, nat>) {
    && NoDup(parts)
    && (forall p :: p in occurrences <==> p in parts)
    && (forall p, k :: p in occurrences && 0 <= k < |occurrences[p]| ==> RefOk(occurrences[p][k].ref, nextId, lemmas))
  }

  /** The occurrence list of a part, empty for a part not yet seen. */
  function OccurrencesOf(occurrences: map<Path, seq<Occurrence>>, p: Path): seq<Occurrence> {
    if p in occurrences then occurrences[p] else []
  }

  /** A lemma of the table has a distinct id. */
  lemma LemmaIdsDistinct(lemmaNames: seq<string>, lemmas: map<string, nat>, nextId: nat)
    requires LemmaTableOk(lemmaNames, lemmas, nextId)
    ensures NoDup(lemmaNames)
    ensures forall a, b :: a in lemmas && b in lemmas && a != b ==> lemmas[a] != lemmas[b]
  {
    forall a, b | a in lemmas && b in lemmas && a != b ensures lemmas[a] != lemmas[b] {
      var i :| 0 <= i < |lemmaNames| && lemmaNames[i] == a;
      var j :| 0 <= j < |lemmaNames| && lemmaNames[j] == b;
    }
  }

  lemma NewEntityKeepsTable(names: seq<string>, entities: map<string, EntityData>, nextId: nat, removed: set<nat>, e: string, d: EntityData)
    requires EntityTableOk(names, entities, nextId, removed)
    requires e !in entities && d.id == nextId && d.count == 1
    ensures EntityTableOk(names + [e], entities[e := d], nextId + 1, removed)
  {
    SnocNoDup(names, e);
    var es := entities[e := d];
    forall i | 0 <= i < nextId + 1 && i !in removed ensures exists n :: n in es && es[n].id == i {
      if i == nextId {
        assert es[e].id == i;
      } else {
        var n :| n in entities && entities[n].id == i;
        assert n in es && es[n].id == i;
      }
    }
  }

  lemma SeenAgainKeepsTable(names: seq<string>, entities: map<string, EntityData>, nextId: nat, removed: set<nat>, e: string)
    requires EntityTableOk(names, entities, nextId, removed) && e in entities
    ensures EntityTableOk(names, entities[e := entities[e].(count := entities[e].count + 1)], nextId, removed)
  {
    var es := entities[e := entities[e].(count := entities[e].count + 1)];
    forall i | 0 <= i < nextId && i !in removed ensures exists n :: n in es && es[n].id == i {
      var n :| n in entities && entities[n].id == i;
      assert n in es && es[n].id == i;
    }
  }

  lemma RenameKeepsTable(names: seq<string>, entities: map<string, EntityData>, nextId: nat, removed: set<nat>, m: string, e: string, d: EntityData)
    requires EntityTableOk(names, entities, nextId, removed)
    requires m in entities && e !in entities && d == entities[m].(count := entities[m].count + 1)
    ensures EntityTableOk(Without(names, m) + [e], (entities - {m})[e := d], nextId, removed)
  {
    WithoutNoDup(names, m);
    SnocNoDup(Without(names, m), e);
    var es := (entities - {m})[e := d];
    forall i | 0 <= i < nextId && i !in removed ensures exists n :: n in es && es[n].id == i {
      var n :| n in entities && entities[n].id == i;
      if n == m {
        assert es[e].id == i;
      } else {
        assert n in es && es[n].id == i;
      }
    }
    forall a, b | a in es && b in es && a != b ensures es[a].id != es[b].id {
      var a' := if a == e then m else a;
      var b' := if b == e then m else b;
      assert es[a].id == entities[a'].id && es[b].id == entities[b'].id;
    }
  }

  lemma DropKeepsTable(names: seq<string>, entities: map<string, EntityData>, nextId: nat, removed: set<nat>, n: string)
    requires EntityTableOk(names, entities, nextId, removed) && n in entities
    ensures EntityTableOk(Without(names, n), entities - {n}, nextId, removed + {entities[n].id})
  {
    WithoutNoDup(names, n);
    var es := entities - {n};
    var rs := removed + {entities[n].id};
    forall i | 0 <= i < nextId && i !in rs ensures exists x :: x in es && es[x].id == i {
      var x :| x in entities && entities[x].id == i;
      assert x != n;
      assert x in es && es[x].id == i;
    }
  }

  lemma AppendKeepsOccurrences(parts: seq<Path>, occurrences: map<Path, seq<Occurrence>>, nextId: nat, lemmas: map<string, nat>,
                               nextId': nat, lemmas': map<string, nat>, p: Path, o: Occurrence)
    requires OccurrencesOk(parts, occurrences, nextId, lemmas)
    requires nextId <= nextId' && lemmas.Keys <= lemmas'.Keys && RefOk(o.ref, nextId', lemmas')
    ensures OccurrencesOk(if p in occurrences then parts else parts + [p],
                          occurrences[p := OccurrencesOf(occurrences, p) + [o]], nextId', lemmas')
  {
    if p !in occurrences {
      SnocNoDup(parts, p);
    }
    var os: map<Path, seq<Occurrence>> := occurrences[p := OccurrencesOf(occurrences, p) + [o]];
    forall q, k | q in os && 0 <= k < |os[q]| ensures RefOk(os[q][k].ref, nextId', lemmas') {
      if q == p && k == |OccurrencesOf(occurrences, p)| {
        assert os[q][k] == o;
      } else {
        assert os[q][k] == occurrences[q][k];
        assert RefOk(occurrences[q][k].ref, nextId, lemmas);
      }
    }
  }

  lemma GrowKeepsOccurrences(parts: seq<Path>, occurrences: map<Path, seq<Occurrence>>, nextId: nat, lemmas: map<string, nat>,
                             nextId': nat, lemmas': map<string, nat>)
    requires OccurrencesOk(parts, occurrences, nextId, lemmas)
    requires nextId <= nextId' && lemmas.Keys <= lemmas'.Keys
    ensures OccurrencesOk(parts, occurrences, nextId', lemmas')
  {
    forall q, k | q in occurrences && 0 <= k < |occurrences[q]| ensures RefOk(occurrences[q][k].ref, nextId', lemmas') {
      assert RefOk(occurrences[q][k].ref, nextId, lemmas);
    }
  }

  lemma NewLemmaKeepsTable(lemmaNames: seq<string>, lemmas: map<string, nat>, nextId: nat, w: string)
    requires LemmaTableOk(lemmaNames, lemmas, nextId) && w !in lemmas
    ensures LemmaTableOk(lemmaNames + [w], lemmas[w := nextId], nextId + 1)
  {
    var ns := lemmaNames + [w];
    forall i | 0 <= i < |ns| ensures ns[i] in lemmas[w := nextId] && lemmas[w := nextId][ns[i]] == i {
      if i < |lemmaNames| {
        assert ns[i] == lemmaNames[i];
        assert lemmaNames[i] != w;
      }
    }
  }

  // ---------------------------------------------------------------------
  // Pruning rarely seen entities
  // ---------------------------------------------------------------------

  /** An entity is dropped when seen fewer times than required, with no
      Wikipedia summary and no custom entry. */
  predicate Doomed(n: string, d: EntityData, minimalCount: int, intros: map<string, IntroEntry>, custom: map<string, CustomEntry>) {
    d.count < minimalCount && n !in intros && n !in custom
  }

  /** The pruning of modify_epub runs only when at least two sightings are
      required; since every entity was seen at least once, a requirement of
      one or less would drop nothing. */
  lemma PruningBelowTwoKeepsAll(names: seq<string>, entities: map<string, EntityData>, nextId: nat, removed: set<nat>,
                                minimalCount: int, intros: map<string, IntroEntry>, custom: map<string, CustomEntry>)
    requires EntityTableOk(names, entities, nextId, removed) && minimalCount <= 1
    ensures forall n :: n in entities ==> !Doomed(n, entities[n], minimalCount, intros, custom)
  {
  }


  // ---------------------------------------------------------------------
  // The entity table as one value
  // ---------------------------------------------------------------------

  /** The entity table with its key order, the next id to hand out and the
      ids of pruned entities. */
  datatype EntityTable = EntityTable(names: seq<string>, entities: map<string, EntityData>, nextId: nat, removed: set<nat>)

  ghost predicate TableOk(t: EntityTable) {
    EntityTableOk(t.names, t.entities, t.nextId, t.removed)
  }

  /** The record of a name seen once more. */
  function Bump(d: EntityData): EntityData {
    d.(count := d.count + 1)
  }

  /** The table after one sighting, with the id the sighting is recorded
      under. */
  datatype Sighting = Sighting(table: EntityTable, id: nat)

  /** The table entry the fuzzy matcher relates a name to; only a name that
      is neither in the table nor in the custom X-Ray file is matched. */
  function FuzzyMatch(t: EntityTable, entity: string, custom: map<string, CustomEntry>,
                      extractOne: (string, seq<string>) -> Option<string>): Option<string> {
    if entity in t.entities || entity in custom then None else extractOne(entity, t.names)
  }

  /** The sum of the sighting counts over the names. */
  function TotalCount(names: seq<string>, entities: map<string, EntityData>): nat
    requires forall x :: x in names ==> x in entities
  {
    if names == [] then 0 else entities[names[0]].count + TotalCount(names[1..], entities)
  }

  function Total(t: EntityTable): nat
    requires Keyed(t.names, t.entities)
  {
    TotalCount(t.names, t.entities)
  }

  /** One sighting of a named entity. A name in the table is counted again.
      A name the matcher relates to table entry `m` counts as `m`; when
      `isFullName` says it is the full name, it takes over `m`'s record and
      moves to the end of the order. Any other name gets a fresh record with
      the next id, seen once. */
  function AddSighting(t: EntityTable, entity: string, nerLabel: string, bookQuote: string, custom: map<string, CustomEntry>,
                       extractOne: (string, seq<string>) -> Option<string>,
                       isFullName: (string, string, string, string) -> bool): (s: Sighting)
    requires FuzzyMatch(t, entity, custom, extractOne).Some? ==> FuzzyMatch(t, entity, custom, extractOne).value in t.entities
    ensures s.table.removed == t.removed
  {
    if entity in t.entities then
      Sighting(t.(entities := t.entities[entity := Bump(t.entities[entity])]), t.entities[entity].id)
    else if FuzzyMatch(t, entity, custom, extractOne).Some? then
      var m := FuzzyMatch(t, entity, custom, extractOne).value;
      var d := Bump(t.entities[m]);
      if isFullName(m, d.nerLabel, entity, nerLabel) then
        Sighting(t.(names := Without(t.names, m) + [entity], entities := (t.entities - {m})[entity := d]), d.id)
      else
        Sighting(t.(entities := t.entities[m := d]), d.id)
    else
      Sighting(EntityTable(t.names + [entity], t.entities[entity := EntityData(t.nextId, nerLabel, bookQuote, 1)],
                           t.nextId + 1, t.removed), t.nextId)
  }

  /** A sighting keeps the table's invariant and is recorded under an id in
      use. */
  lemma AddSightingKeepsTable(t: EntityTable, entity: string, nerLabel: string, bookQuote: string, custom: map<string, CustomEntry>,
                              extractOne: (string, seq<string>) -> Option<string>,
                              isFullName: (string, string, string, string) -> bool, s: Sighting)
    requires TableOk(t)
    requires FuzzyMatch(t, entity, custom, extractOne).Some? ==> FuzzyMatch(t, entity, custom, extractOne).value in t.entities
    requires s == AddSighting(t, entity, nerLabel, bookQuote, custom, extractOne, isFullName)
    ensures TableOk(s.table)
    ensures t.nextId <= s.table.nextId && s.id < s.table.nextId
  {
    var ns, es, next, rs := t.names, t.entities, t.nextId, t.removed;
    if entity in es {
      SeenAgainKeepsTable(ns, es, next, rs, entity);
    } else if FuzzyMatch(t, entity, custom, extractOne).Some? {
      var m := FuzzyMatch(t, entity, custom, extractOne).value;
      var d := Bump(es[m]);
      if isFullName(m, d.nerLabel, entity, nerLabel) {
        RenameKeepsTable(ns, es, next, rs, m, entity, d);
      } else {
        SeenAgainKeepsTable(ns, es, next, rs, m);
      }
    } else {
      NewEntityKeepsTable(ns, es, next, rs, entity, EntityData(next, nerLabel, bookQuote, 1));
    }
  }

  /** No record changes its id, and a fresh id is handed out exactly when the
      name is new and matches no table entry. */
  lemma AddSightingKeepsIds(t: EntityTable, entity: string, nerLabel: string, bookQuote: string, custom: map<string, CustomEntry>,
                            extractOne: (string, seq<string>) -> Option<string>,
                            isFullName: (string, string, string, string) -> bool, s: Sighting)
    requires TableOk(t)
    requires FuzzyMatch(t, entity, custom, extractOne).Some? ==> FuzzyMatch(t, entity, custom, extractOne).value in t.entities
    requires s == AddSighting(t, entity, nerLabel, bookQuote, custom, extractOne, isFullName)
    ensures forall n :: n in t.entities && n in s.table.entities ==> s.table.entities[n].id == t.entities[n].id
    ensures s.table.nextId != t.nextId <==> entity !in t.entities && FuzzyMatch(t, entity, custom, extractOne).None?
    ensures s.table.nextId != t.nextId ==> s.id == t.nextId && s.table.nextId == t.nextId + 1
    ensures s.table.nextId == t.nextId ==> exists n :: n in t.entities && t.entities[n].id == s.id
  {
  }

  /** Every sighting is counted exactly once: the counts of the table add up
      to one more, and the id it is recorded under belongs to a record of the
      new table. */
  lemma AddSightingCountsOnce(t: EntityTable, entity: string, nerLabel: string, bookQuote: string, custom: map<string, CustomEntry>,
                              extractOne: (string, seq<string>) -> Option<string>,
                              isFullName: (string, string, string, string) -> bool, s: Sighting)
    requires Keyed(t.names, t.entities)
    requires FuzzyMatch(t, entity, custom, extractOne).Some? ==> FuzzyMatch(t, entity, custom, extractOne).value in t.entities
    requires s == AddSighting(t, entity, nerLabel, bookQuote, custom, extractOne, isFullName)
    ensures Keyed(s.table.names, s.table.entities) && Total(s.table) == Total(t) + 1
    ensures exists n :: n in s.table.entities && s.table.entities[n].id == s.id
  {
    var ns, es := t.names, t.entities;
    if entity in es {
      TotalBump(ns, es, entity);
      assert s.table.entities[entity].id == s.id;
    } else if FuzzyMatch(t, entity, custom, extractOne).Some? {
      var m := FuzzyMatch(t, entity, custom, extractOne).value;
      var d := Bump(es[m]);
      if isFullName(m, d.nerLabel, entity, nerLabel) {
        WithoutNoDup(ns, m);
        SnocNoDup(Without(ns, m), entity);
        TotalRename(ns, es, m, entity, d);
        assert s.table.entities[entity].id == s.id;
      } else {
        TotalBump(ns, es, m);
        assert s.table.entities[m].id == s.id;
      }
    } else {
      SnocNoDup(ns, entity);
      TotalNew(ns, es, entity, EntityData(t.nextId, nerLabel, bookQuote, 1));
      assert s.table.entities[entity].id == s.id;
    }
  }

  lemma {:induction false} TotalFrame(names: seq<string>, es: map<string, EntityData>, es': map<string, EntityData>)
    requires forall x :: x in names ==> x in es && x in es' && es'[x].count == es[x].count
    ensures TotalCount(names, es') == TotalCount(names, es)
  {
    if names != [] {
      TotalFrame(names[1..], es, es');
    }
  }

  lemma {:induction false} TotalConcat(a: seq<string>, b: seq<string>, es: map<string, EntityData>)
    requires forall x :: x in a ==> x in es
    requires forall x :: x in b ==> x in es
    ensures TotalCount(a + b, es) == TotalCount(a, es) + TotalCount(b, es)
  {
    if a != [] {
      assert (a + b)[0] == a[0] && (a + b)[1..] == a[1..] + b;
      TotalConcat(a[1..], b, es);
    } else {
      assert a + b == b;
    }
  }

  lemma {:induction false} TotalBump(names: seq<string>, es: map<string, EntityData>, n: string)
    requires NoDup(names) && n in names
    requires forall x :: x in names ==> x in es
    ensures TotalCount(names, es[n := Bump(es[n])]) == TotalCount(names, es) + 1
  {
    assert NoDup(names[1..]);
    if names[0] == n {
      assert n !in names[1..];
      TotalFrame(names[1..], es, es[n := Bump(es[n])]);
    } else {
      TotalBump(names[1..], es, n);
    }
  }

  lemma {:induction false} TotalWithout(names: seq<string>, es: map<string, EntityData>, n: string)
    requires NoDup(names) && n in names
    requires forall x :: x in names ==> x in es
    ensures forall x :: x in Without(names, n) ==> x in es
    ensures TotalCount(Without(names, n), es) + es[n].count == TotalCount(names, es)
  {
    assert NoDup(names[1..]);
    if names[0] == n {
      assert n !in names[1..];
      WithoutAbsent(names[1..], n);
      assert Without(names, n) == names[1..];
    } else {
      TotalWithout(names[1..], es, n);
      assert Without(names, n) == [names[0]] + Without(names[1..], n);
    }
  }

  lemma TotalSnoc(names: seq<string>, es: map<string, EntityData>, e: string)
    requires forall x :: x in names ==> x in es
    requires e in es
    ensures TotalCount(names + [e], es) == TotalCount(names, es) + es[e].count
  {
    TotalConcat(names, [e], es);
    assert TotalCount([e], es) == es[e].count + TotalCount([e][1..], es);
  }

  lemma TotalNew(names: seq<string>, es: map<string, EntityData>, e: string, d: EntityData)
    requires forall x :: x in names ==> x in es
    requires e !in names
    ensures TotalCount(names + [e], es[e := d]) == TotalCount(names, es) + d.count
  {
    TotalFrame(names, es, es[e := d]);
    TotalSnoc(names, es[e := d], e);
  }

  lemma TotalRename(names: seq<string>, es: map<string, EntityData>, m: string, e: string, d: EntityData)
    requires forall x :: x in names ==> x in es
    requires NoDup(names) && m in names && m in es && e !in names && d == Bump(es[m])
    ensures forall x :: x in Without(names, m) + [e] ==> x in (es - {m})[e := d]
    ensures TotalCount(Without(names, m) + [e], (es - {m})[e := d]) == TotalCount(names, es) + 1
  {
    TotalWithout(names, es, m);
    var w := Without(names, m);
    var es' := (es - {m})[e := d];
    TotalFrame(w, es, es');
    TotalSnoc(w, es', e);
  }

  // ---------------------------------------------------------------------
  // Pruning, as a walk over the table's order
  // ---------------------------------------------------------------------

  /** One step of the pruning walk: the entity `n`, whose record in the
      table walked over is `d`, is dropped and its id remembered when it is
      doomed. */
  function PruneStep(t: EntityTable, n: string, d: EntityData, minimalCount: int,
                     intros: map<string, IntroEntry>, custom: map<string, CustomEntry>): EntityTable {
    if Doomed(n, d, minimalCount, intros, custom) then
      EntityTable(Without(t.names, n), t.entities - {n}, t.nextId, t.removed + {d.id})
    else t
  }

  /** The pruning walk over the first `k` names of a copy of table `t0`. */
  function PruneFold(t0: EntityTable, k: nat, minimalCount: int,
                     intros: map<string, IntroEntry>, custom: map<string, CustomEntry>): EntityTable
    requires k <= |t0.names| && forall x :: x in t0.names ==> x in t0.entities
  {
    if k == 0 then t0
    else
      var n := t0.names[k - 1];
      PruneStep(PruneFold(t0, k - 1, minimalCount, intros, custom), n, t0.entities[n], minimalCount, intros, custom)
  }

  /** The names among the first `k` of `names` that survive pruning, in
      order. */
  function Survivors(names: seq<string>, entities: map<string, EntityData>, k: nat, minimalCount: int,
                     intros: map<string, IntroEntry>, custom: map<string, CustomEntry>): seq<string>
    requires k <= |names| && forall x :: x in names ==> x in entities
  {
    if k == 0 then []
    else
      var n := names[k - 1];
      Survivors(names, entities, k - 1, minimalCount, intros, custom) +
      (if Doomed(n, entities[n], minimalCount, intros, custom) then [] else [n])
  }

  /** The ids of the doomed names among the first `k` of `names`. */
  function DoomedIds(names: seq<string>, entities: map<string, EntityData>, k: nat, minimalCount: int,
                     intros: map<string, IntroEntry>, custom: map<string, CustomEntry>): set<nat>
    requires k <= |names| && forall x :: x in names ==> x in entities
  {
    if k == 0 then {}
    else
      var n := names[k - 1];
      DoomedIds(names, entities, k - 1, minimalCount, intros, custom) +
      (if Doomed(n, entities[n], minimalCount, intros, custom) then {entities[n].id} else {})
  }

  /** A survivor among the first `k` names is one of them and not doomed. */
  lemma {:induction false} SurvivorsMembers(names: seq<string>, entities: map<string, EntityData>, k: nat, minimalCount: int,
                                            intros: map<string, IntroEntry>, custom: map<string, CustomEntry>)
    requires k <= |names| && forall x :: x in names ==> x in entities
    ensures forall x :: x in Survivors(names, entities, k, minimalCount, intros, custom) <==>
                        x in names[..k] && !Doomed(x, entities[x], minimalCount, intros, custom)
  {
    if k > 0 {
      SurvivorsMembers(names, entities, k - 1, minimalCount, intros, custom);
      assert names[..k] == names[..k - 1] + [names[k - 1]];
    }
  }

  lemma {:induction false} DoomedIdsMembers(names: seq<string>, entities: map<string, EntityData>, k: nat, minimalCount: int,
                                            intros: map<string, IntroEntry>, custom: map<string, CustomEntry>)
    requires k <= |names| && forall x :: x in names ==> x in entities
    ensures DoomedIds(names, entities, k, minimalCount, intros, custom) ==
            set n | n in names[..k] && Doomed(n, entities[n], minimalCount, intros, custom) :: entities[n].id
  {
    if k > 0 {
      DoomedIdsMembers(names, entities, k - 1, minimalCount, intros, custom);
      var last := names[k - 1];
      assert names[..k] == names[..k - 1] + [last];
      var a := set n | n in names[..k] && Doomed(n, entities[n], minimalCount, intros, custom) :: entities[n].id;
      var b := set n | n in names[..k - 1] && Doomed(n, entities[n], minimalCount, intros, custom) :: entities[n].id;
      forall x | x in a ensures x in b + (if Doomed(last, entities[last], minimalCount, intros, custom) then {entities[last].id} else {}) {
        var y :| y in names[..k] && Doomed(y, entities[y], minimalCount, intros, custom) && entities[y].id == x;
        if y != last {
          assert y in names[..k - 1];
        }
      }
    }
  }

  /** No later name of a list without repeats survives among the first `k`. */
  lemma {:induction false} SurvivorsBefore(names: seq<string>, entities: map<string, EntityData>, k: nat, j: nat, minimalCount: int,
                                           intros: map<string, IntroEntry>, custom: map<string, CustomEntry>)
    requires k <= j < |names| && NoDup(names) && forall x :: x in names ==> x in entities
    ensures names[j] !in Survivors(names, entities, k, minimalCount, intros, custom)
  {
    if k > 0 {
      SurvivorsBefore(names, entities, k - 1, j, minimalCount, intros, custom);
    }
  }

  /** Taking a name out of an order that holds it once, between `s` and
      `rest`. */
  lemma WithoutMiddle(s: seq<string>, n: string, rest: seq<string>)
    requires n !in s && n !in rest
    ensures Without(s + ([n] + rest), n) == s + rest
  {
    var b := [n] + rest;
    assert b[0] == n && b[1..] == rest;
    assert Without(b, n) == [] + Without(rest, n);
    WithoutAbsent(rest, n);
    assert [] + rest == rest;
    WithoutAbsent(s, n);
    WithoutConcat(s, b, n);
  }

  /** The order after one step of the walk. */
  lemma PruneStepNames(ns: seq<string>, es: map<string, EntityData>, i: nat, minimalCount: int,
                       intros: map<string, IntroEntry>, custom: map<string, CustomEntry>)
    requires NoDup(ns) && (forall x :: x in ns ==> x in es) && i < |ns|
    ensures ns[i] in es
    ensures if Doomed(ns[i], es[ns[i]], minimalCount, intros, custom)
            then Without(Survivors(ns, es, i, minimalCount, intros, custom) + ns[i..], ns[i]) ==
                 Survivors(ns, es, i + 1, minimalCount, intros, custom) + ns[i + 1..]
            else Survivors(ns, es, i, minimalCount, intros, custom) + ns[i..] ==
                 Survivors(ns, es, i + 1, minimalCount, intros, custom) + ns[i + 1..]
  {
    var n := ns[i];
    var s := Survivors(ns, es, i, minimalCount, intros, custom);
    assert ns[i..] == [n] + ns[i + 1..];
    if Doomed(n, es[n], minimalCount, intros, custom) {
      assert s + [] == s;
      SurvivorsBefore(ns, es, i, i, minimalCount, intros, custom);
      assert n !in ns[i + 1..];
      WithoutMiddle(s, n, ns[i + 1..]);
    } else {
      assert s + ([n] + ns[i + 1..]) == (s + [n]) + ns[i + 1..];
    }
  }

  /** The walk's order after the first `i` names: the survivors among them,
      then the names still to walk over. */
  lemma {:induction false} PruneFoldNames(t0: EntityTable, i: nat, minimalCount: int,
                                          intros: map<string, IntroEntry>, custom: map<string, CustomEntry>)
    requires NoDup(t0.names) && (forall x :: x in t0.names ==> x in t0.entities) && i <= |t0.names|
    ensures PruneFold(t0, i, minimalCount, intros, custom).names ==
            Survivors(t0.names, t0.entities, i, minimalCount, intros, custom) + t0.names[i..]
  {
    if i == 0 {
      assert [] + t0.names[0..] == t0.names;
    } else {
      PruneFoldNames(t0, i - 1, minimalCount, intros, custom);
      PruneStepNames(t0.names, t0.entities, i - 1, minimalCount, intros, custom);
      var r := PruneFold(t0, i - 1, minimalCount, intros, custom);
      var n := t0.names[i - 1];
      var d := t0.entities[n];
      var before := Survivors(t0.names, t0.entities, i - 1, minimalCount, intros, custom) + t0.names[i - 1..];
      assert r.names == before;
      assert PruneFold(t0, i, minimalCount, intros, custom) == PruneStep(r, n, d, minimalCount, intros, custom);
      if Doomed(n, d, minimalCount, intros, custom) {
        assert PruneStep(r, n, d, minimalCount, intros, custom).names == Without(before, n);
      } else {
        assert PruneStep(r, n, d, minimalCount, intros, custom).names == before;
      }
    }
  }

  /** The walk keeps the order listing each key once. */
  lemma {:induction false} PruneFoldKeyed(t0: EntityTable, i: nat, minimalCount: int,
                                          intros: map<string, IntroEntry>, custom: map<string, CustomEntry>)
    requires Keyed(t0.names, t0.entities) && i <= |t0.names|
    ensures var r := PruneFold(t0, i, minimalCount, intros, custom); Keyed(r.names, r.entities)
  {
    if i > 0 {
      PruneFoldKeyed(t0, i - 1, minimalCount, intros, custom);
      var n := t0.names[i - 1];
      PruneStepKeyed(PruneFold(t0, i - 1, minimalCount, intros, custom), n, t0.entities[n], minimalCount, intros, custom);
    }
  }

  /** The walk keeps the records it does not drop as they were. */
  lemma {:induction false} PruneFoldRecords(t0: EntityTable, i: nat, minimalCount: int,
                                            intros: map<string, IntroEntry>, custom: map<string, CustomEntry>)
    requires i <= |t0.names| && forall x :: x in t0.names ==> x in t0.entities
    ensures var r := PruneFold(t0, i, minimalCount, intros, custom);
            forall x :: x in r.entities ==> x in t0.entities && r.entities[x] == t0.entities[x]
  {
    if i > 0 {
      PruneFoldRecords(t0, i - 1, minimalCount, intros, custom);
      var n := t0.names[i - 1];
      PruneStepRecords(t0.entities, PruneFold(t0, i - 1, minimalCount, intros, custom), n, t0.entities[n], minimalCount, intros, custom);
    }
  }

  /** The walk remembers the ids of the doomed names it walked over, and
      hands out no ids. */
  lemma {:induction false} PruneFoldRemoved(t0: EntityTable, i: nat, minimalCount: int,
                                            intros: map<string, IntroEntry>, custom: map<string, CustomEntry>)
    requires i <= |t0.names| && forall x :: x in t0.names ==> x in t0.entities
    ensures PruneFold(t0, i, minimalCount, intros, custom).removed ==
            t0.removed + DoomedIds(t0.names, t0.entities, i, minimalCount, intros, custom)
    ensures PruneFold(t0, i, minimalCount, intros, custom).nextId == t0.nextId
  {
    if i > 0 {
      PruneFoldRemoved(t0, i - 1, minimalCount, intros, custom);
    }
  }

  lemma PruneStepKeyed(r: EntityTable, n: string, d: EntityData, minimalCount: int,
                       intros: map<string, IntroEntry>, custom: map<string, CustomEntry>)
    requires Keyed(r.names, r.entities)
    ensures Keyed(PruneStep(r, n, d, minimalCount, intros, custom).names, PruneStep(r, n, d, minimalCount, intros, custom).entities)
  {
    if Doomed(n, d, minimalCount, intros, custom) {
      WithoutNoDup(r.names, n);
    }
  }

  lemma PruneStepRecords(es: map<string, EntityData>, r: EntityTable, n: string, d: EntityData, minimalCount: int,
                         intros: map<string, IntroEntry>, custom: map<string, CustomEntry>)
    requires forall x :: x in r.entities ==> x in es && r.entities[x] == es[x]
    ensures var r' := PruneStep(r, n, d, minimalCount, intros, custom);
            forall x :: x in r'.entities ==> x in es && r'.entities[x] == es[x]
  {
  }

  /** A table holding exactly the records of `t0` that are not doomed, with
      the ids of the doomed ones remembered, keeps the invariant. */
  lemma PruneResultOk(t0: EntityTable, r: EntityTable, minimalCount: int,
                      intros: map<string, IntroEntry>, custom: map<string, CustomEntry>)
    requires TableOk(t0)
    requires Keyed(r.names, r.entities) && r.nextId == t0.nextId
    requires forall n :: n in r.entities <==> n in t0.entities && !Doomed(n, t0.entities[n], minimalCount, intros, custom)
    requires forall n :: n in r.entities ==> r.entities[n] == t0.entities[n]
    requires r.removed == t0.removed + set n | n in t0.entities && Doomed(n, t0.entities[n], minimalCount, intros, custom) :: t0.entities[n].id
    ensures TableOk(r)
  {
    var es := t0.entities;
    forall i | 0 <= i < r.nextId && i !in r.removed ensures exists n :: n in r.entities && r.entities[n].id == i {
      var n :| n in es && es[n].id == i;
      assert n in r.entities;
    }
  }

  /** Pruning keeps the table's invariant; it keeps exactly the entities
      that are not doomed, with their records and in their order, and
      remembers the ids of the doomed ones. */
  lemma PruneFoldExact(t0: EntityTable, minimalCount: int, intros: map<string, IntroEntry>, custom: map<string, CustomEntry>,
                       r: EntityTable)
    requires TableOk(t0)
    requires r == PruneFold(t0, |t0.names|, minimalCount, intros, custom)
    ensures TableOk(r) && r.nextId == t0.nextId
    ensures r.names == Survivors(t0.names, t0.entities, |t0.names|, minimalCount, intros, custom)
    ensures forall n :: n in r.entities <==> n in t0.entities && !Doomed(n, t0.entities[n], minimalCount, intros, custom)
    ensures forall n :: n in r.entities ==> r.entities[n] == t0.entities[n]
    ensures r.removed == t0.removed + set n | n in t0.entities && Doomed(n, t0.entities[n], minimalCount, intros, custom) :: t0.entities[n].id
  {
    var k := |t0.names|;
    PruneFoldNames(t0, k, minimalCount, intros, custom);
    PruneFoldKeyed(t0, k, minimalCount, intros, custom);
    PruneFoldRecords(t0, k, minimalCount, intros, custom);
    PruneFoldRemoved(t0, k, minimalCount, intros, custom);
    PruneFoldDomain(t0, r, minimalCount, intros, custom);
    PruneResultOk(t0, r, minimalCount, intros, custom);
  }

  lemma PruneFoldDomain(t0: EntityTable, r: EntityTable, minimalCount: int,
                        intros: map<string, IntroEntry>, custom: map<string, CustomEntry>)
    requires Keyed(t0.names, t0.entities) && Keyed(r.names, r.entities)
    requires r.names == Survivors(t0.names, t0.entities, |t0.names|, minimalCount, intros, custom) + t0.names[|t0.names|..]
    requires r.removed == t0.removed + DoomedIds(t0.names, t0.entities, |t0.names|, minimalCount, intros, custom)
    ensures r.names == Survivors(t0.names, t0.entities, |t0.names|, minimalCount, intros, custom)
    ensures forall n :: n in r.entities <==> n in t0.entities && !Doomed(n, t0.entities[n], minimalCount, intros, custom)
    ensures r.removed == t0.removed + set n | n in t0.entities && Doomed(n, t0.entities[n], minimalCount, intros, custom) :: t0.entities[n].id
  {
    var k := |t0.names|;
    assert t0.names[k..] == [] && t0.names[..k] == t0.names;
    SurvivorsMembers(t0.names, t0.entities, k, minimalCount, intros, custom);
    DoomedIdsMembers(t0.names, t0.entities, k, minimalCount, intros, custom);
    assert (set n | n in t0.names && Doomed(n, t0.entities[n], minimalCount, intros, custom) :: t0.entities[n].id) ==
           (set n | n in t0.entities && Doomed(n, t0.entities[n], minimalCount, intros, custom) :: t0.entities[n].id);
  }

  // ---------------------------------------------------------------------
  // The whole annotator state
  // ---------------------------------------------------------------------

  /** The invariant of the annotator's state: both tables and the
      occurrence lists. */
  ghost predicate StateOk(t: EntityTable, lemmaNames: seq<string>, lemmas: map<string, nat>, lemmaId: nat,
                          parts: seq<Path>, occurrences: map<Path, seq<Occurrence>>) {
    && TableOk(t)
    && LemmaTableOk(lemmaNames, lemmas, lemmaId)
    && OccurrencesOk(parts, occurrences, t.nextId, lemmas)
  }

  /** The part order after recording an occurrence in part `p`. */
  function PartsAfter(parts: seq<Path>, occurrences: map<Path, seq<Occurrence>>, p: Path): seq<Path> {
    if p in occurrences then parts else parts + [p]
  }

  /** The occurrence lists after recording `o` in part `p`. */
  function Appended(occurrences: map<Path, seq<Occurrence>>, p: Path, o: Occurrence): map<Path, seq<Occurrence>> {
    occurrences[p := OccurrencesOf(occurrences, p) + [o]]
  }

  lemma SightingKeepsState(t: EntityTable, lemmaNames: seq<string>, lemmas: map<string, nat>, lemmaId: nat,
                           parts: seq<Path>, occurrences: map<Path, seq<Occurrence>>,
                           entity: string, nerLabel: string, bookQuote: string, custom: map<string, CustomEntry>,
                           extractOne: (string, seq<string>) -> Option<string>,
                           isFullName: (string, string, string, string) -> bool, s: Sighting, p: Path, o: Occurrence)
    requires StateOk(t, lemmaNames, lemmas, lemmaId, parts, occurrences)
    requires FuzzyMatch(t, entity, custom, extractOne).Some? ==> FuzzyMatch(t, entity, custom, extractOne).value in t.entities
    requires s == AddSighting(t, entity, nerLabel, bookQuote, custom, extractOne, isFullName)
    requires o.ref == EntityRef(s.id)
    ensures StateOk(s.table, lemmaNames, lemmas, lemmaId, PartsAfter(parts, occurrences, p), Appended(occurrences, p, o))
  {
    AddSightingKeepsTable(t, entity, nerLabel, bookQuote, custom, extractOne, isFullName, s);
    AppendKeepsOccurrences(parts, occurrences, t.nextId, lemmas, s.table.nextId, lemmas, p, o);
  }

  lemma LemmaKeepsState(t: EntityTable, lemmaNames: seq<string>, lemmas: map<string, nat>, lemmaId: nat,
                        parts: seq<Path>, occurrences: map<Path, seq<Occurrence>>, w: string, p: Path, o: Occurrence)
    requires StateOk(t, lemmaNames, lemmas, lemmaId, parts, occurrences)
    requires o.ref == LemmaRef(w)
    ensures w in lemmas ==> StateOk(t, lemmaNames, lemmas, lemmaId, PartsAfter(parts, occurrences, p), Appended(occurrences, p, o))
    ensures w !in lemmas ==> StateOk(t, lemmaNames + [w], lemmas[w := lemmaId], lemmaId + 1,
                                     PartsAfter(parts, occurrences, p), Appended(occurrences, p, o))
  {
    var lemmas' := if w in lemmas then lemmas else lemmas[w := lemmaId];
    AppendKeepsOccurrences(parts, occurrences, t.nextId, lemmas, t.nextId, lemmas', p, o);
    if w !in lemmas {
      NewLemmaKeepsTable(lemmaNames, lemmas, lemmaId, w);
    }
  }

  lemma PruneKeepsState(t0: EntityTable, lemmaNames: seq<string>, lemmas: map<string, nat>, lemmaId: nat,
                        parts: seq<Path>, occurrences: map<Path, seq<Occurrence>>,
                        minimalCount: int, intros: map<string, IntroEntry>, custom: map<string, CustomEntry>)
    requires StateOk(t0, lemmaNames, lemmas, lemmaId, parts, occurrences)
    ensures forall x :: x in t0.names ==> x in t0.entities
    ensures StateOk(PruneFold(t0, |t0.names|, minimalCount, intros, custom), lemmaNames, lemmas, lemmaId, parts, occurrences)
  {
    PruneFoldExact(t0, minimalCount, intros, custom, PruneFold(t0, |t0.names|, minimalCount, intros, custom));
  }

  /** In a consistent state every name of either table has its record. */
  lemma StateNamesKeyed(t: EntityTable, lemmaNames: seq<string>, lemmas: map<string, nat>, lemmaId: nat,
                        parts: seq<Path>, occurrences: map<Path, seq<Occurrence>>)
    requires StateOk(t, lemmaNames, lemmas, lemmaId, parts, occurrences)
    ensures forall x :: x in t.names ==> x in t.entities
    ensures forall x :: x in lemmaNames ==> x in lemmas
  {
  }
}
