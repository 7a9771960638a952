/**
 The knwler importer: examples/knwler_import.py.

 Per-document results can be turned into a load specification directly, or consolidated first.  The
 functions below say what `knwler_to_spec` and `consolidate` compute; the methods are the loops.  A
 missing or null field, and an empty string where the code tests for truth, read as "" or None.
 */
module Consolidation {
  import opened Prelude

  datatype Chunk = Chunk(id: string, text: string, document: Option<string>, documentId: Option<string>)

  datatype Entity = Entity(name: string, kind: string, description: string, chunkIds: seq<string>)

  datatype Relation = Relation(
    source: string, sourceType: string, target: string, targetType: string, kind: string,
    description: string, strength: Option<real>, chunkIds: seq<string>)

  datatype Doc = Doc(
    id: string, title: Option<string>, url: Option<string>,
    chunks: seq<Chunk>, entities: seq<Entity>, relations: seq<Relation>)

  datatype DocRow = DocRow(id: string, title: Option<string>, url: Option<string>)

  datatype ChunkRow = ChunkRow(id: string, document: Option<string>, text: string)

  datatype EntityRow = EntityRow(id: string, name: string, kind: string, description: string, chunkIds: seq<string>)

  datatype RelationRow = RelationRow(src: string, tgt: string, description: string, strength: real,
      chunkIds: seq<string>)

  /** The parts a specification is made from, with every relation's endpoint types filled in. */
  datatype Parts = Parts(documents: seq<DocRow>, chunks: seq<Chunk>, entities: seq<Entity>, relations: seq<Relation>)

  datatype Consolidated = Consolidated(documents: seq<DocRow>, chunks: seq<Chunk>, entities: seq<Entity>,
      relations: seq<Relation>)

  /** The records of the specification; relation records by type, each in order. */
  datatype Spec = Spec(
    documents: seq<DocRow>, chunks: seq<ChunkRow>, entities: seq<EntityRow>,
    relations: map<string, seq<RelationRow>>,
    contains: seq<(Option<string>, string)>, hasEntity: seq<(string, string)>)

  // ----- entities

  function EntityKey(name: string, kind: string): string {
    name + "::" + kind
  }

  /** The ids not among `have`. */
  function NewIds(ids: seq<string>, have: seq<string>): seq<string> {
    if ids == [] then []
    else NewIds(ids[..|ids| - 1], have) + if ids[|ids| - 1] in have then [] else [ids[|ids| - 1]]
  }

  /** A dictionary in insertion order. */
  datatype Table = Table(keys: seq<string>, rows: map<string, EntityRow>)

  function MergeOne(t: Table, e: Entity): Table {
    var key := EntityKey(e.name, e.kind);
    var row := if key in t.rows then t.rows[key] else EntityRow(key, e.name, e.kind, e.description, []);
    Table(if key in t.rows then t.keys else t.keys + [key],
          t.rows[key := row.(chunkIds := row.chunkIds + NewIds(e.chunkIds, row.chunkIds))])
  }

  function MergeAll(entities: seq<Entity>): Table {
    if entities == [] then Table([], map[])
    else MergeOne(MergeAll(entities[..|entities| - 1]), entities[|entities| - 1])
  }

  /** Each key is listed once, and is the key of its row. */
  ghost predicate Tidy(t: Table) {
    && (forall k :: k in t.keys <==> k in t.rows)
    && (forall i, j :: 0 <= i < j < |t.keys| ==> t.keys[i] != t.keys[j])
    && (forall k :: k in t.rows ==> t.rows[k].id == k == EntityKey(t.rows[k].name, t.rows[k].kind))
  }

  lemma {:induction false} MergedIsTidy(entities: seq<Entity>)
    ensures Tidy(MergeAll(entities))
  {
    if entities != [] {
      MergedIsTidy(entities[..|entities| - 1]);
    }
  }

  function KeyAt(entities: seq<Entity>, i: nat): string
    requires i < |entities|
  {
    EntityKey(entities[i].name, entities[i].kind)
  }

  ghost predicate FirstWithKey(entities: seq<Entity>, key: string, i: nat) {
    i < |entities| && KeyAt(entities, i) == key && forall j: nat :: j < i ==> KeyAt(entities, j) != key
  }

  ghost predicate ListsChunk(entities: seq<Entity>, key: string, chunk: string) {
    exists i: nat :: i < |entities| && KeyAt(entities, i) == key && chunk in entities[i].chunkIds
  }

  lemma {:induction false} NewIdsMembers(ids: seq<string>, have: seq<string>)
    ensures forall c :: c in NewIds(ids, have) <==> c in ids && c !in have
  {
    if ids != [] {
      NewIdsMembers(ids[..|ids| - 1], have);
    }
  }

  lemma ListsChunkStep(entities: seq<Entity>, e: Entity, key: string, chunk: string)
    ensures ListsChunk(entities + [e], key, chunk) <==>
              ListsChunk(entities, key, chunk) || (EntityKey(e.name, e.kind) == key && chunk in e.chunkIds)
  {
    hide EntityKey;
    var more := entities + [e];
    if i: nat :| i < |entities| && KeyAt(entities, i) == key && chunk in entities[i].chunkIds {
      assert KeyAt(more, i) == key && chunk in more[i].chunkIds;
    }
    if EntityKey(e.name, e.kind) == key && chunk in e.chunkIds {
      assert KeyAt(more, |entities|) == key && chunk in more[|entities|].chunkIds;
    }
    if i: nat :| i < |more| && KeyAt(more, i) == key && chunk in more[i].chunkIds {
      assert i < |entities| ==> KeyAt(entities, i) == key && chunk in entities[i].chunkIds;
    }
  }

  /** A key's row names what the first entity with that key names. */
  lemma {:induction false} MergedNamesTheFirst(entities: seq<Entity>, key: string) returns (i: nat)
    requires key in MergeAll(entities).rows
    ensures FirstWithKey(entities, key, i)
    ensures var row := MergeAll(entities).rows[key];
            row.id == key && row.name == entities[i].name && row.kind == entities[i].kind
                && row.description == entities[i].description
  {
    hide EntityKey, NewIds;
    var rest := entities[..|entities| - 1];
    if key in MergeAll(rest).rows {
      i := MergedNamesTheFirst(rest, key);
      assert forall j: nat :: j < |rest| ==> KeyAt(rest, j) == KeyAt(entities, j);
    } else {
      i := |rest|;
      forall j: nat | j < |rest|
        ensures KeyAt(entities, j) != key
      {
        MergedHasEveryKey(rest, j);
      }
    }
  }

  lemma {:induction false} MergedHasEveryKey(entities: seq<Entity>, j: nat)
    requires j < |entities|
    ensures KeyAt(entities, j) in MergeAll(entities).rows
  {
    hide EntityKey, NewIds;
    if j < |entities| - 1 {
      MergedHasEveryKey(entities[..|entities| - 1], j);
    }
  }

  ghost predicate RowLists(t: Table, key: string, chunk: string) {
    key in t.rows && chunk in t.rows[key].chunkIds
  }

  lemma RowListsStep(t: Table, e: Entity, key: string, chunk: string)
    ensures RowLists(MergeOne(t, e), key, chunk) <==>
              RowLists(t, key, chunk) || (EntityKey(e.name, e.kind) == key && chunk in e.chunkIds)
  {
    hide EntityKey, NewIds;
    NewIdsMembers(e.chunkIds, if key in t.rows then t.rows[key].chunkIds else []);
  }

  /** A key's row lists a chunk exactly when some entity with that key does. */
  lemma {:induction false} MergedListsTheChunks(entities: seq<Entity>, key: string, chunk: string)
    ensures RowLists(MergeAll(entities), key, chunk) <==> ListsChunk(entities, key, chunk)
  {
    hide EntityKey, RowLists, ListsChunk, MergeOne;
    if entities == [] {
      NothingListed(key, chunk);
    } else {
      var rest, e := entities[..|entities| - 1], entities[|entities| - 1];
      assert entities == rest + [e];
      MergedListsTheChunks(rest, key, chunk);
      ListsChunkStep(rest, e, key, chunk);
      RowListsStep(MergeAll(rest), e, key, chunk);
    }
  }

  lemma NothingListed(key: string, chunk: string)
    ensures !RowLists(MergeAll([]), key, chunk) && !ListsChunk([], key, chunk)
  {
  }

  function RowsOf(t: Table): (rows: seq<EntityRow>)
    requires Tidy(t)
    ensures |rows| == |t.keys|
  {
    seq(|t.keys|, i requires 0 <= i < |t.keys| => assert t.keys[i] in t.keys; t.rows[t.keys[i]])
  }

  function EntityOf(row: EntityRow): Entity {
    Entity(row.name, row.kind, row.description, row.chunkIds)
  }

  function EntitiesOf(rows: seq<EntityRow>): (entities: seq<Entity>)
    ensures |entities| == |rows|
  {
    seq(|rows|, i requires 0 <= i < |rows| => EntityOf(rows[i]))
  }

  lemma {:induction false} NewIdsOfNone(ids: seq<string>)
    ensures NewIds(ids, []) == ids
  {
    if ids != [] {
      NewIdsOfNone(ids[..|ids| - 1]);
    }
  }

  lemma MergeFreshRow(t: Table, row: EntityRow)
    requires row.id == EntityKey(row.name, row.kind) && row.id !in t.rows
    ensures MergeOne(t, EntityOf(row)) == Table(t.keys + [row.id], t.rows[row.id := row])
  {
    NewIdsOfNone(row.chunkIds);
    assert [] + row.chunkIds == row.chunkIds;
  }

  function FirstRows(t: Table, n: nat): Table
    requires Tidy(t) && n <= |t.keys|
  {
    Table(t.keys[..n], map k | k in t.keys[..n] :: t.rows[k])
  }

  lemma FirstRowsStep(t: Table, n: nat)
    requires Tidy(t) && 0 < n <= |t.keys|
    ensures t.keys[n - 1] in t.rows && t.keys[n - 1] !in FirstRows(t, n - 1).rows
    ensures var key := t.keys[n - 1];
            FirstRows(t, n) == Table(FirstRows(t, n - 1).keys + [key], FirstRows(t, n - 1).rows[key := t.rows[key]])
  {
    var key := t.keys[n - 1];
    assert key in t.keys;
    assert t.keys[..n] == t.keys[..n - 1] + [key];
    assert forall k :: k in t.keys[..n] <==> k in t.keys[..n - 1] || k == key;
  }

  /** Merging the entities of a merged table rebuilds it, row by row. */
  lemma {:induction false} MergeAgain(t: Table, n: nat)
    requires Tidy(t) && n <= |t.keys|
    ensures MergeAll(EntitiesOf(RowsOf(t))[..n]) == FirstRows(t, n)
    decreases n
  {
    hide MergeOne, EntityKey, FirstRows;
    var entities := EntitiesOf(RowsOf(t));
    if n == 0 {
      assert FirstRows(t, 0) == Table([], map[]) by { NoRows(t); }
    } else {
      assert entities[..n][..n - 1] == entities[..n - 1];
      MergeAgain(t, n - 1);
      FirstRowsStep(t, n);
      assert entities[n - 1] == EntityOf(t.rows[t.keys[n - 1]]);
      MergeFreshRow(FirstRows(t, n - 1), t.rows[t.keys[n - 1]]);
    }
  }

  lemma NoRows(t: Table)
    requires Tidy(t)
    ensures FirstRows(t, 0) == Table([], map[])
  {
  }

  lemma MergeIsIdempotent(entities: seq<Entity>)
    ensures Tidy(MergeAll(entities))
    ensures MergeAll(EntitiesOf(RowsOf(MergeAll(entities)))) == MergeAll(entities)
  {
    MergedIsTidy(entities);
    var t := MergeAll(entities);
    MergeAgain(t, |t.keys|);
    assert EntitiesOf(RowsOf(t))[..|t.keys|] == EntitiesOf(RowsOf(t));
    assert FirstRows(t, |t.keys|) == t by {
      assert t.keys[..|t.keys|] == t.keys;
      assert (map k | k in t.keys :: t.rows[k]) == t.rows;
    }
  }

  // ----- relations

  /** The types the entities give a name. */
  function TypesOf(entities: seq<Entity>, name: string): set<string> {
    set e | e in entities && e.name == name :: e.kind
  }

  /** An endpoint's type: its own, else the one type its name has; an ambiguous name stays unresolved. */
  ghost function EndpointType(entities: seq<Entity>, name: string, own: string): string {
    if own != "" then own
    else if |TypesOf(entities, name)| == 1 then (var kind :| kind in TypesOf(entities, name); kind)
    else ""
  }

  ghost function Typed(r: Relation, entities: seq<Entity>): Relation {
    r.(sourceType := EndpointType(entities, r.source, r.sourceType),
       targetType := EndpointType(entities, r.target, r.targetType))
  }

  ghost function TypedAll(relations: seq<Relation>, entities: seq<Entity>): (r: seq<Relation>)
    ensures |r| == |relations|
  {
    seq(|relations|, i requires 0 <= i < |relations| => Typed(relations[i], entities))
  }

  type RelationKey = (string, string, string, string, string)

  function KeyOf(r: Relation): RelationKey {
    (r.source, r.sourceType, r.target, r.targetType, r.kind)
  }

  predicate HasKey(relations: seq<Relation>, key: RelationKey) {
    exists i :: 0 <= i < |relations| && KeyOf(relations[i]) == key
  }

  /** The relations with later repeats of a key dropped. */
  function FirstOfEachKey(relations: seq<Relation>): seq<Relation> {
    if relations == [] then []
    else
      var rest, last := relations[..|relations| - 1], relations[|relations| - 1];
      FirstOfEachKey(rest) + if HasKey(rest, KeyOf(last)) then [] else [last]
  }

  function RowOf(r: Relation): RelationRow {
    RelationRow(EntityKey(r.source, r.sourceType), EntityKey(r.target, r.targetType), r.description,
                if r.strength.Some? then r.strength.value else 0.5, r.chunkIds)
  }

  function RowsOfKind(relations: seq<Relation>, kind: string): seq<RelationRow> {
    if relations == [] then []
    else
      var last := relations[|relations| - 1];
      RowsOfKind(relations[..|relations| - 1], kind) + if last.kind == kind then [RowOf(last)] else []
  }

  function Kinds(relations: seq<Relation>): set<string> {
    set r | r in relations :: r.kind
  }

  function RelationRows(relations: seq<Relation>): map<string, seq<RelationRow>> {
    map kind | kind in Kinds(relations) :: RowsOfKind(relations, kind)
  }

  // ----- the two ways

  predicate Truthy(s: Option<string>) {
    s.Some? && s.value != ""
  }

  function ChunkDocument(c: Chunk, default: Option<string>): Option<string> {
    if Truthy(c.document) then c.document else if Truthy(c.documentId) then c.documentId else default
  }

  function Placed(chunks: seq<Chunk>, doc: string): (r: seq<Chunk>)
    ensures |r| == |chunks|
  {
    seq(|chunks|, i requires 0 <= i < |chunks| => chunks[i].(document := ChunkDocument(chunks[i], Some(doc))))
  }

  /** `_parts` of a list of per-document results. */
  ghost function DirectParts(docs: seq<Doc>): Parts {
    if docs == [] then Parts([], [], [], [])
    else
      var before, d := DirectParts(docs[..|docs| - 1]), docs[|docs| - 1];
      Parts(before.documents + [DocRow(d.id, d.title, d.url)],
            before.chunks + Placed(d.chunks, d.id),
            before.entities + d.entities,
            before.relations + TypedAll(d.relations, d.entities))
  }

  ghost function ConsolidatedOf(docs: seq<Doc>): Consolidated {
    var parts := DirectParts(docs);
    MergedIsTidy(parts.entities);
    Consolidated(parts.documents, parts.chunks, EntitiesOf(RowsOf(MergeAll(parts.entities))),
        FirstOfEachKey(parts.relations))
  }

  /** `_parts` of a consolidated result: its relations are typed again, against all its entities. */
  ghost function ConsolidatedParts(c: Consolidated): Parts {
    Parts(c.documents, c.chunks, c.entities, TypedAll(c.relations, c.entities))
  }

  function ChunkRows(chunks: seq<Chunk>): (r: seq<ChunkRow>)
    ensures |r| == |chunks|
  {
    seq(|chunks|, i requires 0 <= i < |chunks| =>
      ChunkRow(chunks[i].id, ChunkDocument(chunks[i], None), chunks[i].text))
  }

  function Contains(rows: seq<ChunkRow>): (r: seq<(Option<string>, string)>)
    ensures |r| == |rows|
  {
    seq(|rows|, i requires 0 <= i < |rows| => (rows[i].document, rows[i].id))
  }

  function Links(row: EntityRow, ids: seq<string>, chunks: set<string>): seq<(string, string)> {
    if ids == [] then []
    else Links(row, ids[..|ids| - 1], chunks) + if ids[|ids| - 1] in chunks then [(ids[|ids| - 1], row.id)] else []
  }

  function HasEntity(rows: seq<EntityRow>, chunks: set<string>): seq<(string, string)> {
    if rows == [] then []
    else HasEntity(rows[..|rows| - 1], chunks) + Links(rows[|rows| - 1], rows[|rows| - 1].chunkIds, chunks)
  }

  function ChunkIds(rows: seq<ChunkRow>): set<string> {
    set row | row in rows :: row.id
  }

  function SpecOf(parts: Parts): Spec {
    MergedIsTidy(parts.entities);
    var rows, chunks := RowsOf(MergeAll(parts.entities)), ChunkRows(parts.chunks);
    Spec(parts.documents, chunks, rows, RelationRows(parts.relations), Contains(chunks),
        HasEntity(rows, ChunkIds(chunks)))
  }

  // ----- the loops

  method TypeIndex(entities: seq<Entity>) returns (typeOf: map<string, set<string>>)
    ensures forall name :: TypesOf(entities, name) == if name in typeOf then typeOf[name] else {}
  {
    typeOf := map[];
    for i := 0 to |entities|
      invariant forall name :: TypesOf(entities[..i], name) == if name in typeOf then typeOf[name] else {}
    {
      var e := entities[i];
      forall name
        ensures TypesOf(entities[..i + 1], name) ==
                TypesOf(entities[..i], name) + if e.name == name then {e.kind} else {}
      {
        assert entities[..i + 1] == entities[..i] + [e];
      }
      typeOf := typeOf[e.name := (if e.name in typeOf then typeOf[e.name] else {}) + {e.kind}];
    }
    assert entities[..|entities|] == entities;
  }

  method ResolveType(
      candidates: set<string>, own: string, ghost entities: seq<Entity>, ghost name: string) returns (kind: string)
    requires candidates == TypesOf(entities, name)
    ensures kind == EndpointType(entities, name, own)
  {
    if own != "" {
      return own;
    }
    if |candidates| != 1 {
      return "";
    }
    kind :| kind in candidates;
    OnlyMember(candidates, kind);
  }

  lemma OnlyMember(s: set<string>, x: string)
    requires |s| == 1 && x in s
    ensures s == {x}
  {
    assert |s - {x}| == 0;
  }

  method TypeRelations(relations: seq<Relation>, entities: seq<Entity>) returns (typed: seq<Relation>)
    ensures typed == TypedAll(relations, entities)
  {
    var typeOf := TypeIndex(entities);
    typed := [];
    for i := 0 to |relations|
      invariant typed == TypedAll(relations, entities)[..i]
    {
      var r := relations[i];
      var source := ResolveType(if r.source in typeOf then typeOf[r.source] else {}, r.sourceType, entities, r.source);
      var target := ResolveType(if r.target in typeOf then typeOf[r.target] else {}, r.targetType, entities, r.target);
      typed := typed + [r.(sourceType := source, targetType := target)];
    }
  }

  method PartsOfDocs(docs: seq<Doc>) returns (parts: Parts)
    ensures parts == DirectParts(docs)
  {
    var documents, chunks, entities, relations := [], [], [], [];
    for i := 0 to |docs|
      invariant Parts(documents, chunks, entities, relations) == DirectParts(docs[..i])
    {
      var d := docs[i];
      assert docs[..i + 1][..i] == docs[..i];
      documents := documents + [DocRow(d.id, d.title, d.url)];
      chunks := chunks + Placed(d.chunks, d.id);
      entities := entities + d.entities;
      var typed := TypeRelations(d.relations, d.entities);
      relations := relations + typed;
    }
    assert docs[..|docs|] == docs;
    return Parts(documents, chunks, entities, relations);
  }

  method PartsOfConsolidated(c: Consolidated) returns (parts: Parts)
    ensures parts == ConsolidatedParts(c)
  {
    var typed := TypeRelations(c.relations, c.entities);
    return Parts(c.documents, c.chunks, c.entities, typed);
  }

  method MergeEntities(entities: seq<Entity>) returns (t: Table)
    ensures t == MergeAll(entities)
  {
    var keys: seq<string>, rows: map<string, EntityRow> := [], map[];
    for i := 0 to |entities|
      invariant Table(keys, rows) == MergeAll(entities[..i])
    {
      var e := entities[i];
      assert entities[..i + 1][..i] == entities[..i];
      var key := EntityKey(e.name, e.kind);
      if key !in rows {
        keys := keys + [key];
        rows := rows[key := EntityRow(key, e.name, e.kind, e.description, [])];
      }
      rows := rows[key := rows[key].(chunkIds := rows[key].chunkIds + NewIds(e.chunkIds, rows[key].chunkIds))];
    }
    assert entities[..|entities|] == entities;
    return Table(keys, rows);
  }

  method KnwlerToSpec(parts: Parts) returns (spec: Spec)
    ensures spec == SpecOf(parts)
  {
    var t := MergeEntities(parts.entities);
    MergedIsTidy(parts.entities);
    var relations: map<string, seq<RelationRow>> := map[];
    for i := 0 to |parts.relations|
      invariant relations == RelationRows(parts.relations[..i])
    {
      var r := parts.relations[i];
      RelationRowsStep(parts.relations[..i], r);
      assert parts.relations[..i + 1] == parts.relations[..i] + [r];
      relations := relations[r.kind := (if r.kind in relations then relations[r.kind] else []) + [RowOf(r)]];
    }
    assert parts.relations[..|parts.relations|] == parts.relations;
    var rows, chunks := RowsOf(t), ChunkRows(parts.chunks);
    return Spec(parts.documents, chunks, rows, relations, Contains(chunks), HasEntity(rows, ChunkIds(chunks)));
  }

  lemma RowsOfKindStep(relations: seq<Relation>, r: Relation, kind: string)
    ensures RowsOfKind(relations + [r], kind) == RowsOfKind(relations, kind) + if r.kind == kind then [RowOf(r)] else []
  {
    assert (relations + [r])[..|relations|] == relations;
  }

  lemma {:induction false} NoRowsOfOtherKinds(relations: seq<Relation>, kind: string)
    requires kind !in Kinds(relations)
    ensures RowsOfKind(relations, kind) == []
  {
    if relations != [] {
      assert relations[|relations| - 1] in relations;
      assert forall r :: r in relations[..|relations| - 1] ==> r in relations;
      NoRowsOfOtherKinds(relations[..|relations| - 1], kind);
    }
  }

  lemma RelationRowsStep(relations: seq<Relation>, r: Relation)
    ensures var before := RelationRows(relations);
            RelationRows(relations + [r]) ==
                before[r.kind := (if r.kind in before then before[r.kind] else []) + [RowOf(r)]]
  {
    hide RowsOfKind, RowOf;
    var before := RelationRows(relations);
    if r.kind !in Kinds(relations) {
      NoRowsOfOtherKinds(relations, r.kind);
    }
    KindsStep(relations, r);
    forall kind | kind in Kinds(relations + [r])
      ensures RowsOfKind(relations + [r], kind) ==
              if kind == r.kind then (if r.kind in before then before[r.kind] else []) + [RowOf(r)] else before[kind]
    {
      RowsOfKindStep(relations, r, kind);
    }
  }

  lemma KindsStep(relations: seq<Relation>, r: Relation)
    ensures Kinds(relations + [r]) == Kinds(relations) + {r.kind}
  {
    assert forall x :: x in relations + [r] <==> x in relations || x == r;
  }

  /** The keys of `relations` are those already seen. */
  ghost predicate Seen(seen: set<RelationKey>, relations: seq<Relation>) {
    forall key :: key in seen <==> HasKey(relations, key)
  }

  /** The inner entity loop of `consolidate`: one document's entities, merged into the table so far. */
  method MergeDocument(t: Table, ghost before: seq<Entity>, entities: seq<Entity>) returns (after: Table)
    requires t == MergeAll(before)
    ensures after == MergeAll(before + entities)
  {
    hide MergeOne;
    after := t;
    assert before + entities[..0] == before;
    for i := 0 to |entities|
      invariant after == MergeAll(before + entities[..i])
    {
      assert (before + entities[..i + 1])[..|before| + i] == before + entities[..i];
      after := MergeOne(after, entities[i]);
    }
    assert entities[..|entities|] == entities;
  }

  /** The inner relation loop: one document's typed relations, each kept unless its key was seen. */
  method KeepFirsts(kept: seq<Relation>, seen: set<RelationKey>, ghost before: seq<Relation>, relations: seq<Relation>)
    returns (after: seq<Relation>, seen': set<RelationKey>)
    requires kept == FirstOfEachKey(before) && Seen(seen, before)
    ensures after == FirstOfEachKey(before + relations) && Seen(seen', before + relations)
  {
    hide HasKey;
    after, seen' := kept, seen;
    assert before + relations[..0] == before;
    for i := 0 to |relations|
      invariant after == FirstOfEachKey(before + relations[..i]) && Seen(seen', before + relations[..i])
    {
      var r := relations[i];
      ghost var sofar := before + relations[..i];
      assert before + relations[..i + 1] == sofar + [r] && (sofar + [r])[..|sofar|] == sofar;
      HasKeyStep(sofar, r);
      if KeyOf(r) !in seen' {
        after := after + [r];
        seen' := seen' + {KeyOf(r)};
      }
    }
    assert relations[..|relations|] == relations;
  }

  method Consolidate(docs: seq<Doc>) returns (c: Consolidated)
    ensures c == ConsolidatedOf(docs)
  {
    var t, relations, seen := Table([], map[]), [], {};
    var documents, chunks := [], [];
    for i := 0 to |docs|
      invariant t == MergeAll(DirectParts(docs[..i]).entities)
      invariant relations == FirstOfEachKey(DirectParts(docs[..i]).relations)
          && Seen(seen, DirectParts(docs[..i]).relations)
      invariant documents == DirectParts(docs[..i]).documents && chunks == DirectParts(docs[..i]).chunks
    {
      var d := docs[i];
      ghost var before := DirectParts(docs[..i]);
      assert docs[..i + 1][..i] == docs[..i];
      t := MergeDocument(t, before.entities, d.entities);
      var typed := TypeRelations(d.relations, d.entities);
      relations, seen := KeepFirsts(relations, seen, before.relations, typed);
      documents := documents + [DocRow(d.id, d.title, d.url)];
      chunks := chunks + Placed(d.chunks, d.id);
    }
    assert docs[..|docs|] == docs;
    MergedIsTidy(DirectParts(docs).entities);
    return Consolidated(documents, chunks, EntitiesOf(RowsOf(t)), relations);
  }

  lemma HasKeyStep(relations: seq<Relation>, r: Relation)
    ensures forall key :: HasKey(relations + [r], key) <==> HasKey(relations, key) || KeyOf(r) == key
  {
    forall key
      ensures HasKey(relations + [r], key) <==> HasKey(relations, key) || KeyOf(r) == key
    {
      assert (relations + [r])[|relations|] == r;
      if i :| 0 <= i < |relations| && KeyOf(relations[i]) == key {
        assert KeyOf((relations + [r])[i]) == key;
      }
    }
  }

  // ----- the two ways agree

  lemma {:induction false} LinksExactly(row: EntityRow, ids: seq<string>, chunks: set<string>)
    ensures forall link :: link in Links(row, ids, chunks) <==> link.1 == row.id && link.0 in ids && link.0 in chunks
  {
    if ids != [] {
      LinksExactly(row, ids[..|ids| - 1], chunks);
    }
  }

  /** HAS_ENTITY joins a chunk and an entity exactly when the entity's row lists the chunk and the chunk
      is one of the specification's. */
  lemma {:induction false} HasEntityExactly(rows: seq<EntityRow>, chunks: set<string>)
    ensures forall link :: link in HasEntity(rows, chunks) <==>
              exists i :: 0 <= i < |rows| && link.1 == rows[i].id && link.0 in rows[i].chunkIds && link.0 in chunks
  {
    if rows != [] {
      var rest, last := rows[..|rows| - 1], rows[|rows| - 1];
      HasEntityExactly(rest, chunks);
      LinksExactly(last, last.chunkIds, chunks);
      assert rows == rest + [last];
    }
  }

  /** Everything but the relations is the same either way, record by record. */
  lemma ConsolidatingKeepsTheRecords(docs: seq<Doc>)
    ensures var direct, merged := SpecOf(DirectParts(docs)), SpecOf(ConsolidatedParts(ConsolidatedOf(docs)));
            && merged.documents == direct.documents && merged.chunks == direct.chunks
            && merged.entities == direct.entities
            && merged.contains == direct.contains && merged.hasEntity == direct.hasEntity
  {
    MergeIsIdempotent(DirectParts(docs).entities);
  }

  /** Typing again changes nothing: the relation's endpoint types are settled, or stay unresolved. */
  ghost predicate Settled(r: Relation, entities: seq<Entity>) {
    Typed(r, entities) == r
  }

  lemma SettledStayAsTheyAre(relations: seq<Relation>, entities: seq<Entity>)
    requires forall r :: r in relations ==> Settled(r, entities)
    ensures TypedAll(relations, entities) == relations
  {
    forall i | 0 <= i < |relations|
      ensures TypedAll(relations, entities)[i] == relations[i]
    {
      assert relations[i] in relations;
    }
  }

  lemma TypedAllStep(relations: seq<Relation>, r: Relation, entities: seq<Entity>)
    ensures TypedAll(relations + [r], entities) == TypedAll(relations, entities) + [Typed(r, entities)]
  {
  }

  lemma SameRowMeansSettled(r: Relation, entities: seq<Entity>)
    requires RowOf(Typed(r, entities)) == RowOf(r)
    ensures Settled(r, entities)
  {
    var typed := Typed(r, entities);
    KeyTellsTheKind(r.source, typed.sourceType, r.sourceType);
    KeyTellsTheKind(r.target, typed.targetType, r.targetType);
  }

  lemma KeyTellsTheKind(name: string, a: string, b: string)
    requires EntityKey(name, a) == EntityKey(name, b)
    ensures a == b
  {
    assert a == EntityKey(name, a)[|name| + 2..];
    assert b == EntityKey(name, b)[|name| + 2..];
  }

  lemma PeelLastRow(rest: seq<Relation>, last: Relation, entities: seq<Entity>, kind: string)
    requires RowsOfKind(TypedAll(rest, entities) + [Typed(last, entities)], kind) == RowsOfKind(rest + [last], kind)
    ensures RowsOfKind(TypedAll(rest, entities), kind) == RowsOfKind(rest, kind)
    ensures kind == last.kind ==> RowOf(Typed(last, entities)) == RowOf(last)
  {
    var a, b := RowsOfKind(TypedAll(rest, entities), kind), RowsOfKind(rest, kind);
    RowsOfKindStep(TypedAll(rest, entities), Typed(last, entities), kind);
    RowsOfKindStep(rest, last, kind);
    if kind == last.kind {
      LastOfEqual(a, RowOf(Typed(last, entities)), b, RowOf(last));
    } else {
      assert a + [] == a && b + [] == b;
    }
  }

  /** Relation rows of the same kind, in the same order: equal lists have equal last rows. */
  lemma {:induction false} EqualRowsMeanSettled(relations: seq<Relation>, entities: seq<Entity>)
    requires forall kind :: RowsOfKind(TypedAll(relations, entities), kind) == RowsOfKind(relations, kind)
    ensures forall r :: r in relations ==> Settled(r, entities)
  {
    if relations != [] {
      var rest, last := relations[..|relations| - 1], relations[|relations| - 1];
      assert relations == rest + [last];
      TypedAllStep(rest, last, entities);
      forall kind
        ensures RowsOfKind(TypedAll(rest, entities), kind) == RowsOfKind(rest, kind)
        ensures kind == last.kind ==> RowOf(Typed(last, entities)) == RowOf(last)
      {
        PeelLastRow(rest, last, entities, kind);
      }
      PeelLastRow(rest, last, entities, last.kind);
      SameRowMeansSettled(last, entities);
      EqualRowsMeanSettled(rest, entities);
    }
  }

  lemma LastOfEqual<T>(a: seq<T>, x: T, b: seq<T>, y: T)
    requires a + [x] == b + [y]
    ensures a == b && x == y
  {
    assert (a + [x])[..|a|] == a && (b + [y])[..|b|] == b;
    assert (a + [x])[|a|] == x && (b + [y])[|b|] == y;
  }

  lemma EqualMapsMeanEqualRows(a: seq<Relation>, b: seq<Relation>, kind: string)
    requires RelationRows(a) == RelationRows(b)
    ensures RowsOfKind(a, kind) == RowsOfKind(b, kind)
  {
    assert kind in Kinds(a) <==> kind in RelationRows(a);
    assert kind in Kinds(b) <==> kind in RelationRows(b);
    if kind in Kinds(a) {
      assert RelationRows(a)[kind] == RowsOfKind(a, kind) && RelationRows(b)[kind] == RowsOfKind(b, kind);
    } else {
      NoRowsOfOtherKinds(a, kind);
      NoRowsOfOtherKinds(b, kind);
    }
  }

  /** The relation records after consolidating are the direct ones with later repeats of a key dropped. */
  ghost predicate AgreesOnRelations(docs: seq<Doc>) {
    SpecOf(ConsolidatedParts(ConsolidatedOf(docs))).relations ==
        RelationRows(FirstOfEachKey(DirectParts(docs).relations))
  }

  /** The relation records after consolidating are the direct ones with later repeats of a key dropped,
      exactly when no relation that is kept changes on being typed against the merged entities. */
  lemma RelationsAgreeIffSettled(docs: seq<Doc>)
    ensures AgreesOnRelations(docs) <==>
            forall r :: r in ConsolidatedOf(docs).relations ==> Settled(r, ConsolidatedOf(docs).entities)
  {
    var c := ConsolidatedOf(docs);
    var typed := TypedAll(c.relations, c.entities);
    if forall r :: r in c.relations ==> Settled(r, c.entities) {
      SettledStayAsTheyAre(c.relations, c.entities);
    }
    if RelationRows(typed) == RelationRows(c.relations) {
      forall kind { EqualMapsMeanEqualRows(typed, c.relations, kind); }
      EqualRowsMeanSettled(c.relations, c.entities);
    }
  }

  // ----- the condition, read off the documents

  function AllEntities(docs: seq<Doc>): seq<Entity> {
    if docs == [] then [] else AllEntities(docs[..|docs| - 1]) + docs[|docs| - 1].entities
  }

  /** The types a name has among the first entity of each key, over all documents. */
  ghost function FirstTypes(entities: seq<Entity>, name: string): set<string> {
    set i: nat | i < |entities| && FirstWithKey(entities, KeyAt(entities, i), i)
        && entities[i].name == name :: entities[i].kind
  }

  /** `types` leaves a name exactly one type, and that type is not empty. */
  ghost predicate TellsType(types: set<string>) {
    exists kind :: kind != "" && types == {kind}
  }

  /** An endpoint its own document leaves without a type, while the first entities of all documents give
      its name exactly one. */
  ghost predicate ResolvedElsewhere(docs: seq<Doc>, d: Doc, name: string, own: string) {
    own == "" && !TellsType(TypesOf(d.entities, name)) && TellsType(FirstTypes(AllEntities(docs), name))
  }

  lemma {:induction false} DirectEntities(docs: seq<Doc>)
    ensures DirectParts(docs).entities == AllEntities(docs)
  {
    if docs != [] {
      DirectEntities(docs[..|docs| - 1]);
    }
  }

  lemma {:induction false} DirectRelations(docs: seq<Doc>)
    ensures forall r :: r in DirectParts(docs).relations <==>
            exists d, q :: d in docs && q in d.relations && r == Typed(q, d.entities)
  {
    hide Typed;
    if docs != [] {
      var rest, last := docs[..|docs| - 1], docs[|docs| - 1];
      DirectRelations(rest);
      assert forall d :: d in docs <==> d in rest || d == last;
      TypedAllMembers(last.relations, last.entities);
    }
  }

  lemma TypedAllMembers(relations: seq<Relation>, entities: seq<Entity>)
    ensures forall r :: r in TypedAll(relations, entities) <==> exists q :: q in relations && r == Typed(q, entities)
  {
    hide Typed;
    var typed := TypedAll(relations, entities);
    forall q | q in relations
      ensures Typed(q, entities) in typed
    {
      var i :| 0 <= i < |relations| && relations[i] == q;
      assert typed[i] == Typed(q, entities);
    }
  }

  /** The types a name has after merging are those among the first entity of each key. */
  lemma MergedTypes(entities: seq<Entity>, name: string)
    ensures Tidy(MergeAll(entities))
    ensures TypesOf(EntitiesOf(RowsOf(MergeAll(entities))), name) == FirstTypes(entities, name)
  {
    hide EntityKey, NewIds;
    MergedIsTidy(entities);
    var t := MergeAll(entities);
    var rows := RowsOf(t);
    var merged := EntitiesOf(rows);
    forall kind
      ensures kind in TypesOf(merged, name) <==> kind in FirstTypes(entities, name)
    {
      if kind in TypesOf(merged, name) {
        var e :| e in merged && e.name == name && e.kind == kind;
        var k :| 0 <= k < |merged| && merged[k] == e;
        var i := MergedNamesTheFirst(entities, t.keys[k]);
        assert FirstWithKey(entities, KeyAt(entities, i), i) && entities[i].name == name && entities[i].kind == kind;
      }
      if kind in FirstTypes(entities, name) {
        var i: nat :| i < |entities| && FirstWithKey(entities, KeyAt(entities, i), i) && entities[i].name == name
            && entities[i].kind == kind;
        var key := KeyAt(entities, i);
        MergedHasEveryKey(entities, i);
        var first := MergedNamesTheFirst(entities, key);
        assert first == i;
        var k :| 0 <= k < |t.keys| && t.keys[k] == key;
        assert merged[k] == EntityOf(rows[k]) && rows[k] == t.rows[key];
        assert merged[k].name == name && merged[k].kind == kind;
      }
    }
  }

  lemma OneType(types: set<string>)
    ensures TellsType(types) ==> |types| == 1 && forall kind :: kind in types ==> kind != ""
    ensures |types| == 1 && "" !in types ==> TellsType(types)
  {
    if |types| == 1 && "" !in types {
      var kind :| kind in types;
      OnlyMember(types, kind);
    }
  }

  /** An endpoint ends up with a type exactly when it had one or its name tells one. */
  lemma EndpointTypedIff(entities: seq<Entity>, name: string, own: string)
    ensures EndpointType(entities, name, own) != "" <==> own != "" || TellsType(TypesOf(entities, name))
  {
    var types := TypesOf(entities, name);
    OneType(types);
    if |types| == 1 && "" in types {
      OnlyMember(types, "");
    }
  }

  /** Typing a document's relation again changes it exactly when an endpoint is resolved elsewhere. */
  lemma SettledIff(docs: seq<Doc>, d: Doc, q: Relation, entities: seq<Entity>)
    requires forall name :: TypesOf(entities, name) == FirstTypes(AllEntities(docs), name)
    ensures Settled(Typed(q, d.entities), entities) <==>
              !ResolvedElsewhere(docs, d, q.source, q.sourceType) && !ResolvedElsewhere(docs, d, q.target, q.targetType)
  {
    hide FirstTypes, TypesOf;
    var r := Typed(q, d.entities);
    EndpointTypedIff(d.entities, q.source, q.sourceType);
    EndpointTypedIff(d.entities, q.target, q.targetType);
    EndpointTypedIff(entities, r.source, r.sourceType);
    EndpointTypedIff(entities, r.target, r.targetType);
  }

  lemma {:induction false} FirstsAreRelations(relations: seq<Relation>)
    ensures forall r :: r in FirstOfEachKey(relations) ==> r in relations
  {
    if relations != [] {
      FirstsAreRelations(relations[..|relations| - 1]);
    }
  }

  lemma SettledByKey(a: Relation, b: Relation, entities: seq<Entity>)
    requires KeyOf(a) == KeyOf(b)
    ensures Settled(a, entities) <==> Settled(b, entities)
  {
  }

  /** Whether a relation is settled depends on its key only, so the kept ones stand for all. */
  lemma KeptStandForAll(relations: seq<Relation>, entities: seq<Entity>)
    ensures (forall r :: r in FirstOfEachKey(relations) ==> Settled(r, entities)) <==>
            forall r :: r in relations ==> Settled(r, entities)
  {
    hide Settled, KeyOf;
    FirstsAreRelations(relations);
    FirstsCoverTheKeys(relations);
    forall r | r in relations
      ensures exists k :: k in FirstOfEachKey(relations) && KeyOf(k) == KeyOf(r)
    {
      var i :| 0 <= i < |relations| && relations[i] == r;
      assert HasKey(relations, KeyOf(r));
      assert HasKey(FirstOfEachKey(relations), KeyOf(r));
    }
    forall a, b | KeyOf(a) == KeyOf(b)
      ensures Settled(a, entities) <==> Settled(b, entities)
    {
      SettledByKey(a, b, entities);
    }
  }

  /** No endpoint of the documents is resolved only by the entities of other documents. */
  ghost predicate ResolvedAtHome(docs: seq<Doc>) {
    forall d, q :: d in docs && q in d.relations ==>
      !ResolvedElsewhere(docs, d, q.source, q.sourceType) && !ResolvedElsewhere(docs, d, q.target, q.targetType)
  }

  lemma AllSettledIff(docs: seq<Doc>, entities: seq<Entity>)
    requires forall name :: TypesOf(entities, name) == FirstTypes(AllEntities(docs), name)
    ensures (forall r :: r in DirectParts(docs).relations ==> Settled(r, entities)) <==> ResolvedAtHome(docs)
  {
    hide FirstTypes, TypesOf, ResolvedElsewhere, Settled, Typed, DirectParts;
    DirectRelations(docs);
    var relations := DirectParts(docs).relations;
    if ResolvedAtHome(docs) {
      forall r | r in relations
        ensures Settled(r, entities)
      {
        var d, q :| d in docs && q in d.relations && r == Typed(q, d.entities);
        SettledIff(docs, d, q, entities);
      }
    }
    if forall r :: r in relations ==> Settled(r, entities) {
      forall d, q | d in docs && q in d.relations
        ensures !ResolvedElsewhere(docs, d, q.source, q.sourceType)
                && !ResolvedElsewhere(docs, d, q.target, q.targetType)
      {
        assert Typed(q, d.entities) in relations;
        SettledIff(docs, d, q, entities);
      }
    }
  }

  lemma SettledMeansResolvedAtHome(docs: seq<Doc>)
    ensures var c := ConsolidatedOf(docs);
            (forall r :: r in c.relations ==> Settled(r, c.entities)) <==> ResolvedAtHome(docs)
  {
    hide FirstTypes, TypesOf, ResolvedAtHome, Settled, FirstOfEachKey;
    var c := ConsolidatedOf(docs);
    DirectEntities(docs);
    forall name
      ensures TypesOf(c.entities, name) == FirstTypes(AllEntities(docs), name)
    {
      MergedTypes(AllEntities(docs), name);
    }
    KeptStandForAll(DirectParts(docs).relations, c.entities);
    AllSettledIff(docs, c.entities);
  }

  /** The relation records after consolidating are the direct ones with later repeats of a key dropped,
      exactly when no endpoint is left untyped by its own document but typed by the others. */
  lemma RelationsAgreeIff(docs: seq<Doc>)
    ensures AgreesOnRelations(docs) <==> ResolvedAtHome(docs)
  {
    hide *;
    SettledMeansResolvedAtHome(docs);
    RelationsAgreeIffSettled(docs);
  }

  /** In particular when every endpoint has a type, or its own document tells it one. */
  lemma RelationsAgreeWhenResolved(docs: seq<Doc>)
    requires forall d, q :: d in docs && q in d.relations ==>
               && (q.sourceType != "" || TellsType(TypesOf(d.entities, q.source)))
               && (q.targetType != "" || TellsType(TypesOf(d.entities, q.target)))
    ensures AgreesOnRelations(docs)
  {
    hide TypesOf, TellsType, FirstTypes, AgreesOnRelations;
    RelationsAgreeIff(docs);
  }

  const LINK := Relation("x", "", "x", "", "r", "", None, [])
  const BARE := Doc("1", None, None, [], [], [LINK])
  const NAMING := Doc("2", None, None, [], [Entity("x", "T", "", [])], [])

  /** It does fail: one document relates a name without typing it, another has the only entity of that
      name.  Consolidated, the relation points at the entity; directly, at none. */
  lemma ResolvedByAnotherDocument()
    ensures var docs := [BARE, NAMING];
            && !ResolvedAtHome(docs)
            && !AgreesOnRelations(docs)
  {
    var docs := [BARE, NAMING];
    var all := AllEntities(docs);
    assert [BARE][..0] == [];
    assert docs[..1] == [BARE] && AllEntities([BARE]) == [] && docs[1] == NAMING;
    assert all == NAMING.entities;
    assert FirstTypes(all, "x") == {"T"} by {
      assert FirstWithKey(all, KeyAt(all, 0), 0) && all[0].name == "x";
    }
    assert TypesOf(BARE.entities, "x") == {};
    assert BARE in docs && LINK in BARE.relations;
    assert ResolvedElsewhere(docs, BARE, "x", "");
    RelationsAgreeIff(docs);
  }

  /** The kept relations have distinct keys, and every key of a direct relation is kept once. */
  lemma {:induction false} FirstsCoverTheKeys(relations: seq<Relation>)
    ensures forall i, j :: 0 <= i < j < |FirstOfEachKey(relations)| ==>
            KeyOf(FirstOfEachKey(relations)[i]) != KeyOf(FirstOfEachKey(relations)[j])
    ensures forall key :: HasKey(FirstOfEachKey(relations), key) <==> HasKey(relations, key)
  {
    hide HasKey;
    if relations != [] {
      var rest, last := relations[..|relations| - 1], relations[|relations| - 1];
      assert relations == rest + [last];
      FirstsCoverTheKeys(rest);
      HasKeyStep(rest, last);
      HasKeyStep(FirstOfEachKey(rest), last);
      KeysHeld(FirstOfEachKey(rest));
      assert FirstOfEachKey(rest) + [] == FirstOfEachKey(rest);
    }
  }

  lemma KeysHeld(relations: seq<Relation>)
    ensures forall i :: 0 <= i < |relations| ==> HasKey(relations, KeyOf(relations[i]))
  {
  }
}
