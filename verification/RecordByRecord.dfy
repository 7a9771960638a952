/**
 What the importer writes, record by record and field by field: examples/knwler_import.py.

 The records, parts and merged rows of Consolidation, said without its functions: which position of the
 input each comes from, in which order, and what each field holds.
 */
module RecordByRecord {
  import opened Prelude
  import opened Positions
  import opened Consolidation

  /** The record a relation becomes: from its source to its target, each by name and type. */
  ghost predicate Records(row: RelationRow, r: Relation) {
    && row.src == r.source + "::" + r.sourceType && row.tgt == r.target + "::" + r.targetType
    && row.description == r.description && row.chunkIds == r.chunkIds
    && row.strength == match r.strength case Some(x) => x case None => 0.5
  }

  /** The rows are, in order, the records of the relations of this kind, found at these positions. */
  ghost predicate RecordedInOrder(relations: seq<Relation>, kind: string, rows: seq<RelationRow>, at: seq<nat>) {
    && Increasing(at) && (forall i: nat :: i in at <==> i < |relations| && relations[i].kind == kind)
    && |rows| == |at| && forall k :: 0 <= k < |at| ==> at[k] < |relations| && Records(rows[k], relations[at[k]])
  }

  lemma RecordedStep(relations: seq<Relation>, kind: string, rows: seq<RelationRow>, at: seq<nat>, r: Relation)
    requires RecordedInOrder(relations, kind, rows, at)
    ensures if r.kind == kind then RecordedInOrder(relations + [r], kind, rows + [RowOf(r)], at + [|relations|])
            else RecordedInOrder(relations + [r], kind, rows, at)
  {
    var more := relations + [r];
    assert Records(RowOf(r), r);
    hide Records, RowOf;
    assert more[|relations|] == r && forall i :: 0 <= i < |relations| ==> more[i] == relations[i];
    Append(at, |relations|);
  }

  lemma {:induction false} RowsOfKindInOrder(relations: seq<Relation>, kind: string) returns (at: seq<nat>)
    ensures RecordedInOrder(relations, kind, RowsOfKind(relations, kind), at)
  {
    at := [];
    if relations != [] {
      hide RecordedInOrder;
      var n := |relations| - 1;
      at := RowsOfKindInOrder(relations[..n], kind);
      RecordedStep(relations[..n], kind, RowsOfKind(relations[..n], kind), at, relations[n]);
      assert relations[..n] + [relations[n]] == relations;
      assert RowsOfKind(relations[..n], kind) + [] == RowsOfKind(relations[..n], kind);
      if relations[n].kind == kind {
        at := at + [n];
      }
    }
  }

  /** The relation records of a type are, in order, one for each relation of that type; a type without
      relations has none. */
  lemma RelationRecords(parts: Parts, kind: string) returns (at: seq<nat>)
    ensures var relations, spec := parts.relations, SpecOf(parts);
            && Increasing(at) && (forall i: nat :: i in at <==> i < |relations| && relations[i].kind == kind)
            && (kind in spec.relations <==> at != [])
            && (kind in spec.relations ==>
                  && |spec.relations[kind]| == |at|
                  && forall k :: 0 <= k < |at| ==>
                       at[k] < |relations| && Records(spec.relations[kind][k], relations[at[k]]))
  {
    hide Records, RowsOfKind;
    at := RowsOfKindInOrder(parts.relations, kind);
    if at != [] {
      assert at[0] in at && parts.relations[at[0]] in parts.relations;
    }
    if kind in Kinds(parts.relations) {
      var r :| r in parts.relations && r.kind == kind;
      var i: nat :| i < |parts.relations| && parts.relations[i] == r;
      assert i in at;
    }
  }

  /** The first of a chunk's own document, its document id, and a default that is neither missing nor empty. */
  ghost predicate DocumentIs(document: Option<string>, c: Chunk, default: Option<string>) {
    if c.document.Some? && c.document.value != "" then document == c.document
    else if c.documentId.Some? && c.documentId.value != "" then document == c.documentId
    else document == default
  }

  /** One Chunk record and one CONTAINS record for each chunk, in order. */
  lemma ChunkRecords(parts: Parts, i: nat)
    requires i < |parts.chunks|
    ensures var spec, c := SpecOf(parts), parts.chunks[i];
            && |spec.chunks| == |spec.contains| == |parts.chunks|
            && spec.chunks[i].id == c.id && spec.chunks[i].text == c.text
            && DocumentIs(spec.chunks[i].document, c, None)
            && spec.contains[i].0 == spec.chunks[i].document && spec.contains[i].1 == c.id
  {
  }

  /** The chunk as it is handed on: its document filled in from the document it came with. */
  ghost predicate PlacedIn(placed: Chunk, c: Chunk, doc: Doc) {
    placed.id == c.id && placed.text == c.text && placed.documentId == c.documentId
        && DocumentIs(placed.document, c, Some(doc.id))
  }

  /** One document row for each document, in order. */
  lemma {:induction false} DocumentsInOrder(docs: seq<Doc>)
    ensures |DirectParts(docs).documents| == |docs|
    ensures forall i :: 0 <= i < |docs| ==>
              DirectParts(docs).documents[i] == DocRow(docs[i].id, docs[i].title, docs[i].url)
  {
    if docs != [] {
      DocumentsInOrder(docs[..|docs| - 1]);
    }
  }

  /** The chunks, document by document, each placed in its document. */
  lemma {:induction false} ChunksInOrder(docs: seq<Doc>) returns (at: seq<(nat, nat)>)
    ensures PairsIncreasing(at) && |DirectParts(docs).chunks| == |at|
    ensures forall i: nat, j: nat :: (i, j) in at <==> i < |docs| && j < |docs[i].chunks|
    ensures forall k :: 0 <= k < |at| ==>
              && at[k].0 < |docs| && at[k].1 < |docs[at[k].0].chunks|
              && PlacedIn(DirectParts(docs).chunks[k], docs[at[k].0].chunks[at[k].1], docs[at[k].0])
  {
    hide Typed, PlacedIn;
    at := [];
    if docs != [] {
      var n := |docs| - 1;
      var js := AllBelow(|docs[n].chunks|);
      at := ChunksInOrder(docs[..n]);
      AllBelowIsAll(|docs[n].chunks|);
      PairsBelow(at, n);
      AppendPairs(at, n, js);
      PlacedOneByOne(docs[n]);
      at := at + Paired(n, js);
    }
  }

  /** The entities, document by document. */
  lemma {:induction false} EntitiesInOrder(docs: seq<Doc>) returns (at: seq<(nat, nat)>)
    ensures PairsIncreasing(at) && |DirectParts(docs).entities| == |at|
    ensures forall i: nat, j: nat :: (i, j) in at <==> i < |docs| && j < |docs[i].entities|
    ensures forall k :: 0 <= k < |at| ==>
              && at[k].0 < |docs| && at[k].1 < |docs[at[k].0].entities|
              && DirectParts(docs).entities[k] == docs[at[k].0].entities[at[k].1]
  {
    hide Typed;
    at := [];
    if docs != [] {
      var n := |docs| - 1;
      var js := AllBelow(|docs[n].entities|);
      at := EntitiesInOrder(docs[..n]);
      AllBelowIsAll(|docs[n].entities|);
      PairsBelow(at, n);
      AppendPairs(at, n, js);
      at := at + Paired(n, js);
    }
  }

  /** The relations, document by document, each typed by its own document's entities. */
  lemma {:induction false} RelationsInOrder(docs: seq<Doc>) returns (at: seq<(nat, nat)>)
    ensures PairsIncreasing(at) && |DirectParts(docs).relations| == |at|
    ensures forall i: nat, j: nat :: (i, j) in at <==> i < |docs| && j < |docs[i].relations|
    ensures forall k :: 0 <= k < |at| ==>
              && at[k].0 < |docs| && at[k].1 < |docs[at[k].0].relations|
              && DirectParts(docs).relations[k] == Typed(docs[at[k].0].relations[at[k].1], docs[at[k].0].entities)
  {
    hide Typed;
    at := [];
    if docs != [] {
      var n := |docs| - 1;
      var js := AllBelow(|docs[n].relations|);
      at := RelationsInOrder(docs[..n]);
      AllBelowIsAll(|docs[n].relations|);
      PairsBelow(at, n);
      AppendPairs(at, n, js);
      at := at + Paired(n, js);
    }
  }

  lemma PlacedOneByOne(d: Doc)
    ensures forall j :: 0 <= j < |d.chunks| ==> PlacedIn(Placed(d.chunks, d.id)[j], d.chunks[j], d)
  {
  }

  lemma PairsBelow(at: seq<(nat, nat)>, n: nat)
    requires forall k :: 0 <= k < |at| ==> at[k].0 < n
    ensures forall pair :: pair in at ==> pair.0 < n
  {
  }

  /** An endpoint's own type stands; without one it takes the only type its name has; else it has none. */
  ghost predicate TypeIs(kind: string, entities: seq<Entity>, name: string, own: string) {
    && (own != "" ==> kind == own)
    && (own == "" ==> forall only :: TypesOf(entities, name) == {only} ==> kind == only)
    && (own == "" && (forall only :: TypesOf(entities, name) != {only}) ==> kind == "")
  }

  lemma EndpointTypeIs(entities: seq<Entity>, name: string, own: string)
    ensures TypeIs(EndpointType(entities, name, own), entities, name, own)
  {
    var types := TypesOf(entities, name);
    if |types| == 1 {
      var kind :| kind in types;
      OnlyMember(types, kind);
    }
  }

  /** Typing fills in each endpoint's type from that endpoint, and changes nothing else. */
  lemma TypedFieldByField(r: Relation, entities: seq<Entity>)
    ensures var typed := Typed(r, entities);
            && TypeIs(typed.sourceType, entities, r.source, r.sourceType)
            && TypeIs(typed.targetType, entities, r.target, r.targetType)
            && typed.source == r.source && typed.target == r.target && typed.kind == r.kind
            && typed.description == r.description && typed.strength == r.strength && typed.chunkIds == r.chunkIds
  {
    hide TypeIs;
    EndpointTypeIs(entities, r.source, r.sourceType);
    EndpointTypeIs(entities, r.target, r.targetType);
  }

  ghost predicate SameRelation(a: Relation, b: Relation) {
    && a.source == b.source && a.sourceType == b.sourceType && a.target == b.target && a.targetType == b.targetType
    && a.kind == b.kind
  }

  ghost predicate FirstOfItsKind(relations: seq<Relation>, i: nat) {
    i < |relations| && forall j :: 0 <= j < i ==> !SameRelation(relations[j], relations[i])
  }

  /** Of the relations with the same endpoints, endpoint types and type, consolidating keeps the first; the
      kept ones stay in order. */
  lemma {:induction false} FirstsInOrder(relations: seq<Relation>) returns (at: seq<nat>)
    ensures Increasing(at) && forall i: nat :: i in at <==> FirstOfItsKind(relations, i)
    ensures |FirstOfEachKey(relations)| == |at|
    ensures forall k :: 0 <= k < |at| ==> at[k] < |relations| && FirstOfEachKey(relations)[k] == relations[at[k]]
  {
    at := [];
    if relations != [] {
      var n := |relations| - 1;
      var rest := relations[..n];
      at := FirstsInOrder(rest);
      assert forall i: nat :: i < n ==> (FirstOfItsKind(relations, i) <==> FirstOfItsKind(rest, i)) by {
        assert forall i :: 0 <= i < n ==> rest[i] == relations[i];
      }
      assert HasKey(rest, KeyOf(relations[n])) <==> !FirstOfItsKind(relations, n) by {
        assert forall j :: 0 <= j < n ==>
            (KeyOf(rest[j]) == KeyOf(relations[n]) <==> SameRelation(relations[j], relations[n]));
      }
      assert forall i: nat :: i in at ==> i < n;
      if FirstOfItsKind(relations, n) {
        Append(at, n);
        at := at + [n];
      }
    }
  }

  ghost predicate SameEntity(a: Entity, b: Entity) {
    a.name + "::" + a.kind == b.name + "::" + b.kind
  }

  ghost predicate FirstEntity(entities: seq<Entity>, i: nat) {
    i < |entities| && forall j :: 0 <= j < i ==> !SameEntity(entities[j], entities[i])
  }

  ghost predicate Describes(row: EntityRow, e: Entity) {
    row.id == e.name + "::" + e.kind && row.name == e.name && row.kind == e.kind && row.description == e.description
  }

  /** One Entity record for each entity that is the first of its name and type, in order, with that entity's
      name, type and description. */
  lemma {:induction false} EntityRecords(entities: seq<Entity>) returns (at: seq<nat>)
    ensures Tidy(MergeAll(entities))
    ensures Increasing(at) && forall i: nat :: i in at <==> FirstEntity(entities, i)
    ensures |RowsOf(MergeAll(entities))| == |at|
    ensures forall k :: 0 <= k < |at| ==>
              at[k] < |entities| && Describes(RowsOf(MergeAll(entities))[k], entities[at[k]])
  {
    MergedIsTidy(entities);
    at := KeysInOrder(entities);
    var t := MergeAll(entities);
    forall k | 0 <= k < |at|
      ensures at[k] < |entities| && Describes(RowsOf(t)[k], entities[at[k]])
    {
      assert t.keys[k] in t.keys && at[k] in at;
      var i := MergedNamesTheFirst(entities, t.keys[k]);
      assert KeyAt(entities, i) == KeyAt(entities, at[k]);
      assert i == at[k] by {
        assert FirstEntity(entities, at[k]);
        if i < at[k] {
          assert SameEntity(entities[i], entities[at[k]]);
        }
      }
    }
  }

  lemma {:induction false} KeysInOrder(entities: seq<Entity>) returns (at: seq<nat>)
    ensures Increasing(at) && forall i: nat :: i in at <==> FirstEntity(entities, i)
    ensures |MergeAll(entities).keys| == |at|
    ensures forall k :: 0 <= k < |at| ==> at[k] < |entities| && MergeAll(entities).keys[k] == KeyAt(entities, at[k])
  {
    hide NewIds;
    at := [];
    if entities != [] {
      var n := |entities| - 1;
      var rest := entities[..n];
      at := KeysInOrder(rest);
      assert forall i: nat :: i < n ==> (FirstEntity(entities, i) <==> FirstEntity(rest, i)) by {
        assert forall i :: 0 <= i < n ==> rest[i] == entities[i];
      }
      KeyIsThereIff(entities);
      assert forall i: nat :: i in at ==> i < n;
      if FirstEntity(entities, n) {
        Append(at, n);
        at := at + [n];
      }
    }
  }

  lemma KeyIsThereIff(entities: seq<Entity>)
    requires entities != []
    ensures var n := |entities| - 1; KeyAt(entities, n) in MergeAll(entities[..n]).rows <==> !FirstEntity(entities, n)
  {
    var n := |entities| - 1;
    var rest := entities[..n];
    if KeyAt(entities, n) in MergeAll(rest).rows {
      var i := MergedNamesTheFirst(rest, KeyAt(entities, n));
      assert SameEntity(entities[i], entities[n]);
    }
    if j :| 0 <= j < n && SameEntity(entities[j], entities[n]) {
      MergedHasEveryKey(rest, j);
      assert KeyAt(rest, j) == KeyAt(entities, n);
    }
  }

  /** The chunk ids a further entity brings are appended in its order, those already there left out. */
  lemma {:induction false} NewIdsInOrder(ids: seq<string>, have: seq<string>) returns (at: seq<nat>)
    ensures Increasing(at) && forall i: nat :: i in at <==> i < |ids| && ids[i] !in have
    ensures |NewIds(ids, have)| == |at|
    ensures forall k :: 0 <= k < |at| ==> at[k] < |ids| && NewIds(ids, have)[k] == ids[at[k]]
  {
    at := [];
    if ids != [] {
      var n := |ids| - 1;
      at := NewIdsInOrder(ids[..n], have);
      assert forall i: nat :: i in at ==> i < n;
      if ids[n] !in have {
        Append(at, n);
        at := at + [n];
      }
    }
  }

  /** One more entity of a name and type appends to that row's list the chunk ids the list did not hold, in
      the entity's order, and leaves the other rows alone. */
  lemma ChunkIdsAreAppended(entities: seq<Entity>, e: Entity) returns (at: seq<nat>)
    ensures var key, t, after := e.name + "::" + e.kind, MergeAll(entities), MergeAll(entities + [e]);
            var have := if key in t.rows then t.rows[key].chunkIds else [];
            && (forall other :: other in t.rows && other != key ==>
              other in after.rows && after.rows[other] == t.rows[other])
            && key in after.rows && |after.rows[key].chunkIds| == |have| + |at|
            && after.rows[key].chunkIds[..|have|] == have
            && Increasing(at) && (forall i: nat :: i in at <==> i < |e.chunkIds| && e.chunkIds[i] !in have)
            && forall k :: 0 <= k < |at| ==>
                 at[k] < |e.chunkIds| && after.rows[key].chunkIds[|have| + k] == e.chunkIds[at[k]]
  {
    hide NewIds;
    assert MergeAll(entities + [e]) == MergeOne(MergeAll(entities), e) by {
      assert (entities + [e])[..|entities|] == entities;
    }
    hide MergeAll, MergeOne;
    var t, key := MergeAll(entities), e.name + "::" + e.kind;
    var have := if key in t.rows then t.rows[key].chunkIds else [];
    RowGrows(t, e);
    at := NewIdsInOrder(e.chunkIds, have);
    assert (have + NewIds(e.chunkIds, have))[..|have|] == have;
  }

  lemma RowGrows(t: Table, e: Entity)
    ensures var key, after := e.name + "::" + e.kind, MergeOne(t, e);
            var have := if key in t.rows then t.rows[key].chunkIds else [];
            && (forall other :: other in t.rows && other != key ==>
              other in after.rows && after.rows[other] == t.rows[other])
            && key in after.rows && after.rows[key].chunkIds == have + NewIds(e.chunkIds, have)
  {
  }

  lemma {:induction false} LinksInOrder(row: EntityRow, ids: seq<string>, chunks: set<string>) returns (at: seq<nat>)
    ensures Increasing(at) && forall i: nat :: i in at <==> i < |ids| && ids[i] in chunks
    ensures |Links(row, ids, chunks)| == |at|
    ensures forall k :: 0 <= k < |at| ==> at[k] < |ids| && Links(row, ids, chunks)[k] == (ids[at[k]], row.id)
  {
    at := [];
    if ids != [] {
      var n := |ids| - 1;
      at := LinksInOrder(row, ids[..n], chunks);
      assert forall i: nat :: i in at ==> i < n;
      if ids[n] in chunks {
        Append(at, n);
        at := at + [n];
      }
    }
  }

  /** The links go through the entities in order, and through each one's chunk ids in order: chunk, then
      entity, for every id that is one of the chunks. */
  ghost predicate LinkedInOrder(
      rows: seq<EntityRow>, chunks: set<string>, links: seq<(string, string)>, at: seq<(nat, nat)>)
  {
    && PairsIncreasing(at) && |links| == |at|
    && (forall i: nat, j: nat :: (i, j) in at <==>
          i < |rows| && j < |rows[i].chunkIds| && rows[i].chunkIds[j] in chunks)
    && (forall k :: 0 <= k < |at| ==>
          && at[k].0 < |rows| && at[k].1 < |rows[at[k].0].chunkIds|
          && links[k] == (rows[at[k].0].chunkIds[at[k].1], rows[at[k].0].id))
  }

  lemma LinkedStep(
      rows: seq<EntityRow>, chunks: set<string>, links: seq<(string, string)>, at: seq<(nat, nat)>, row: EntityRow)
    returns (more: seq<(nat, nat)>)
    requires LinkedInOrder(rows, chunks, links, at)
    ensures LinkedInOrder(rows + [row], chunks, links + Links(row, row.chunkIds, chunks), more)
  {
    hide Links, PairsIncreasing, Increasing;
    var js := LinksInOrder(row, row.chunkIds, chunks);
    var n, longer := |rows|, rows + [row];
    assert longer[n] == row && forall i :: 0 <= i < n ==> longer[i] == rows[i];
    PairsBelow(at, n);
    AppendPairs(at, n, js);
    more := at + Paired(n, js);
  }

  lemma {:induction false} HasEntityInOrder(rows: seq<EntityRow>, chunks: set<string>) returns (at: seq<(nat, nat)>)
    ensures LinkedInOrder(rows, chunks, HasEntity(rows, chunks), at)
  {
    at := [];
    if rows != [] {
      hide LinkedInOrder, Links;
      var n := |rows| - 1;
      at := HasEntityInOrder(rows[..n], chunks);
      at := LinkedStep(rows[..n], chunks, HasEntity(rows[..n], chunks), at, rows[n]);
      assert rows[..n] + [rows[n]] == rows;
    }
  }

  /** The documents as they came; one Entity record for each first entity of a name and type; and every
      HAS_ENTITY link from a chunk that is there, entity by entity. */
  lemma SpecRecords(parts: Parts) returns (first: seq<nat>, links: seq<(nat, nat)>)
    ensures var spec := SpecOf(parts);
            && spec.documents == parts.documents
            && Increasing(first) && (forall i: nat :: i in first <==> FirstEntity(parts.entities, i))
            && |spec.entities| == |first|
            && forall k :: 0 <= k < |first| ==>
                 first[k] < |parts.entities| && Describes(spec.entities[k], parts.entities[first[k]])
    ensures var spec := SpecOf(parts);
            && PairsIncreasing(links) && |spec.hasEntity| == |links|
            && (forall i: nat, j: nat :: (i, j) in links <==>
                  i < |spec.entities| && j < |spec.entities[i].chunkIds|
                      && HasChunk(parts, spec.entities[i].chunkIds[j]))
            && forall k :: 0 <= k < |links| ==>
                 && links[k].0 < |spec.entities| && links[k].1 < |spec.entities[links[k].0].chunkIds|
                 && spec.hasEntity[k] == (spec.entities[links[k].0].chunkIds[links[k].1], spec.entities[links[k].0].id)
  {
    hide MergeAll, HasEntity, Describes, FirstEntity;
    var spec := SpecOf(parts);
    var ids := ChunkIds(spec.chunks);
    first := EntityRecords(parts.entities);
    links := HasEntityInOrder(spec.entities, ids);
    forall id
      ensures id in ids <==> HasChunk(parts, id)
    {
      IdsOfChunks(parts, id);
    }
  }

  ghost predicate HasChunk(parts: Parts, id: string) {
    exists i :: 0 <= i < |parts.chunks| && parts.chunks[i].id == id
  }

  lemma IdsOfChunks(parts: Parts, id: string)
    ensures id in ChunkIds(ChunkRows(parts.chunks)) <==> HasChunk(parts, id)
  {
    var rows := ChunkRows(parts.chunks);
    if id in ChunkIds(rows) {
      var row :| row in rows && row.id == id;
      var i :| 0 <= i < |rows| && rows[i] == row;
      assert parts.chunks[i].id == id;
    }
    if i :| 0 <= i < |parts.chunks| && parts.chunks[i].id == id {
      assert rows[i] in rows && rows[i].id == id;
    }
  }
}
