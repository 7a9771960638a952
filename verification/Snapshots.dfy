/**
 A bitemporal history built from successive full snapshots: examples/bitemporal_snapshots.py.

 `Graph.ApplySnapshot` is the delivery code over a mutable graph.  Its effect on the images is
 `Applied`; the theorems say what a whole run of deliveries leaves on record.
 */
module Snapshots {
  import opened Prelude

  /** Days, in their order. */
  type Date = int

  /** The content columns of a row; a missing value is None. */
  type Content = seq<Option<string>>

  /** The digest of a row's content, as a free (hence injective) constructor. */
  datatype Digest = Sha(content: Content)

  /** `<key>@<snapshot date>` */
  datatype ImageId = ImageId(key: string, t: Date)

  datatype Image = Image(key: string, digest: Digest, content: Content, recordedFrom: Date, recordedTo: Option<Date>)

  datatype Row = Row(key: string, content: Content)

  type Images = map<ImageId, Image>

  /** A delivered table, by key. */
  type Table = map<string, Content>

  // ----- the text form of an image id

  lemma LastAtSign(key: string, t: string)
    requires '@' !in t
    ensures forall j :: |key| < j < |key + "@" + t| ==> (key + "@" + t)[j] != '@'
    ensures (key + "@" + t)[|key|] == '@'
  {
  }

  /** The pair stands for the text: a key and a date without an at-sign can be read back from it. */
  lemma ImageIdTextIsInjective(key1: string, t1: string, key2: string, t2: string)
    requires '@' !in t1 && '@' !in t2
    requires key1 + "@" + t1 == key2 + "@" + t2
    ensures key1 == key2 && t1 == t2
  {
    var text := key1 + "@" + t1;
    LastAtSign(key1, t1);
    LastAtSign(key2, t2);
    assert key1 == text[..|key1|] && key2 == text[..|key2|];
    assert t1 == text[|key1| + 1..] && t2 == text[|key2| + 1..];
  }

  // ----- one delivery, on the images

  predicate Open(im: Image) { im.recordedTo.None? }

  /** The recording test: half-open, so an image closed on a day is not known on that day. */
  predicate Known(im: Image, tau: Date) {
    im.recordedFrom <= tau && (im.recordedTo.None? || im.recordedTo.value > tau)
  }

  predicate OnRecord(images: Images, key: string, digest: Digest) {
    exists id :: id in images && Open(images[id]) && images[id].key == key && images[id].digest == digest
  }

  /** The current images a delivery closes: their key vanished, or came with another digest. */
  function ClosedIds(images: Images, table: Table): set<ImageId> {
    set id | id in images && Open(images[id]) &&
             !(images[id].key in table && Sha(table[images[id].key]) == images[id].digest)
  }

  /** The keys a delivery adds an image for: new ones and changed ones. */
  function AddedKeys(images: Images, table: Table): set<string> {
    set key | key in table && !OnRecord(images, key, Sha(table[key]))
  }

  function Fresh(key: string, content: Content, t: Date): Image {
    Image(key, Sha(content), content, t, None)
  }

  function Ids(keys: set<string>, t: Date): (ids: set<ImageId>)
    ensures forall id: ImageId :: id in ids <==> id.t == t && id.key in keys
  {
    var ids := set key | key in keys :: ImageId(key, t);
    assert forall id: ImageId :: id.t == t && id.key in keys ==> id == ImageId(id.key, t);
    ids
  }

  function Closed(images: Images, close: set<ImageId>, t: Date): Images {
    map id | id in images :: if id in close then images[id].(recordedTo := Some(t)) else images[id]
  }

  /** An id that is already taken is matched, not created again. */
  function Merged(images: Images, keys: set<string>, table: Table, t: Date): Images
    requires keys <= table.Keys
  {
    map id | id in images.Keys + Ids(keys, t) :: if id in images then images[id] else Fresh(id.key, table[id.key], t)
  }

  /** The images after a delivery. */
  function Applied(images: Images, t: Date, table: Table): Images {
    Merged(Closed(images, ClosedIds(images, table), t), AddedKeys(images, table), table, t)
  }

  // ----- the graph

  predicate UniqueKeys(rows: seq<Row>) {
    forall i, j :: 0 <= i < j < |rows| ==> rows[i].key != rows[j].key
  }

  /** The table of a sequence of rows; a later row of the same key wins. */
  function TableOf(rows: seq<Row>): Table {
    if rows == [] then map[]
    else TableOf(rows[..|rows| - 1])[rows[|rows| - 1].key := rows[|rows| - 1].content]
  }

  predicate OneOpenPerKey(images: Images) {
    forall i, j ::
      i in images && j in images && Open(images[i]) && Open(images[j]) && images[i].key == images[j].key ==> i == j
  }

  datatype Refusal = OlderThanLatest | DuplicateKeys

  lemma {:induction false} TableDomain(rows: seq<Row>)
    ensures forall k :: k in TableOf(rows) <==> exists i :: 0 <= i < |rows| && rows[i].key == k
  {
    if rows != [] {
      TableDomain(rows[..|rows| - 1]);
    }
  }

  lemma {:induction false} TableSize(rows: seq<Row>)
    ensures |TableOf(rows)| <= |rows|
    ensures |TableOf(rows)| == |rows| <==> UniqueKeys(rows)
  {
    if rows != [] {
      var rest, key := rows[..|rows| - 1], rows[|rows| - 1].key;
      TableSize(rest);
      UniqueKeysGrow(rows);
      var before := TableOf(rest);
      assert TableOf(rows).Keys == before.Keys + {key};
      assert |TableOf(rows).Keys| == |before.Keys| + if key in before then 0 else 1;
    }
  }

  lemma UniqueKeysGrow(rows: seq<Row>)
    requires rows != []
    ensures UniqueKeys(rows) <==> UniqueKeys(rows[..|rows| - 1]) && rows[|rows| - 1].key !in TableOf(rows[..|rows| - 1])
  {
    var rest, key := rows[..|rows| - 1], rows[|rows| - 1].key;
    TableDomain(rest);
    assert forall i :: 0 <= i < |rest| ==> rows[i] == rest[i];
  }

  lemma {:induction false} TableValues(rows: seq<Row>)
    requires UniqueKeys(rows)
    ensures forall i :: 0 <= i < |rows| ==>
            rows[i].key in TableOf(rows) && TableOf(rows)[rows[i].key] == rows[i].content
  {
    if rows != [] {
      var rest := rows[..|rows| - 1];
      assert forall i :: 0 <= i < |rest| ==> rows[i] == rest[i];
      TableValues(rest);
    }
  }

  /** `current` is an index, by key, of exactly the open images. */
  ghost predicate Indexes(current: map<string, ImageId>, images: Images) {
    && (forall id :: id in images && Open(images[id]) ==> images[id].key in current && current[images[id].key] == id)
    && (forall k :: k in current ==> current[k] in images && Open(images[current[k]]) && images[current[k]].key == k)
  }

  /** The current images, read once: at most one a key, so the dictionary loses none of them. */
  method Current(images: Images) returns (current: map<string, ImageId>)
    requires OneOpenPerKey(images)
    ensures Indexes(current, images)
  {
    current := map[];
    var todo := images.Keys;
    while todo != {}
      invariant todo <= images.Keys
      invariant forall id :: id in images && id !in todo && Open(images[id]) ==>
          images[id].key in current && current[images[id].key] == id
      invariant forall k :: k in current ==>
          current[k] in images && Open(images[current[k]]) && images[current[k]].key == k
      decreases todo
    {
      var id :| id in todo;
      todo := todo - {id};
      if Open(images[id]) {
        current := current[images[id].key := id];
      }
    }
  }

  method ToClose(images: Images, current: map<string, ImageId>, incoming: Table) returns (close: set<ImageId>)
    requires Indexes(current, images)
    ensures close == ClosedIds(images, incoming)
  {
    close := {};
    var todo := current.Keys;
    while todo != {}
      invariant todo <= current.Keys
      invariant forall id :: id in close <==> id in ClosedIds(images, incoming) && images[id].key !in todo
      decreases todo
    {
      var key :| key in todo;
      todo := todo - {key};
      var id := current[key];
      if !(key in incoming && Sha(incoming[key]) == images[id].digest) {
        close := close + {id};
      }
    }
  }

  predicate IsCurrent(images: Images, current: map<string, ImageId>, row: Row)
    requires forall k :: k in current ==> current[k] in images
  {
    row.key in current && images[current[row.key]].digest == Sha(row.content)
  }

  lemma CurrentMeansNotAdded(images: Images, current: map<string, ImageId>, table: Table, row: Row)
    requires Indexes(current, images) && row.key in table && table[row.key] == row.content
    ensures row.key in AddedKeys(images, table) <==> !IsCurrent(images, current, row)
  {
  }

  ghost predicate Lists(add: seq<Row>, keys: set<string>, table: Table) {
    && |add| == |keys| && keys <= table.Keys
    && (forall j :: 0 <= j < |add| ==> add[j].key in keys && add[j].content == table[add[j].key])
    && (forall k :: k in keys ==> exists j :: 0 <= j < |add| && add[j].key == k)
  }

  lemma ListsOneMore(add: seq<Row>, keys: set<string>, table: Table, row: Row)
    requires Lists(add, keys, table) && row.key !in keys && row.key in table && table[row.key] == row.content
    ensures Lists(add + [row], keys + {row.key}, table)
  {
    var more := add + [row];
    forall k | k in keys + {row.key}
      ensures exists j :: 0 <= j < |more| && more[j].key == k
    {
      if k == row.key {
        assert more[|add|].key == k;
      } else {
        var j :| 0 <= j < |add| && add[j].key == k;
        assert more[j].key == k;
      }
    }
  }

  function Changed(images: Images, current: map<string, ImageId>, rows: seq<Row>): seq<Row>
    requires forall k :: k in current ==> current[k] in images
  {
    if rows == [] then []
    else
      var last := rows[|rows| - 1];
      Changed(images, current, rows[..|rows| - 1]) + if IsCurrent(images, current, last) then [] else [last]
  }

  lemma {:induction false} ChangedLists(
      images: Images, current: map<string, ImageId>, rows: seq<Row>, table: Table, keys: set<string>)
    requires forall k :: k in current ==> current[k] in images
    requires UniqueKeys(rows)
    requires forall row :: row in rows ==> row.key in table && table[row.key] == row.content
    requires forall row :: row in rows ==> (row.key in keys <==> !IsCurrent(images, current, row))
    ensures Lists(Changed(images, current, rows), keys * TableOf(rows).Keys, table)
  {
    hide Lists, IsCurrent;
    if rows == [] {
      NothingToList(keys, table);
    } else {
      var rest, last := rows[..|rows| - 1], rows[|rows| - 1];
      ChangedLists(images, current, rest, table, keys);
      UniqueKeysGrow(rows);
      assert last in rows;
      var restKeys := TableOf(rest).Keys;
      assert TableOf(rows).Keys == restKeys + {last.key};
      if last.key in keys {
        assert keys * TableOf(rows).Keys == keys * restKeys + {last.key};
        ListsOneMore(Changed(images, current, rest), keys * restKeys, table, last);
      } else {
        assert keys * TableOf(rows).Keys == keys * restKeys;
        assert Changed(images, current, rows) == Changed(images, current, rest);
      }
    }
  }

  lemma NothingToList(keys: set<string>, table: Table)
    ensures Lists([], keys * TableOf([]).Keys, table)
  {
    assert keys * TableOf([]).Keys == {};
  }

  method ToAdd(images: Images, current: map<string, ImageId>, rows: seq<Row>) returns (add: seq<Row>)
    requires Indexes(current, images) && UniqueKeys(rows)
    ensures Lists(add, AddedKeys(images, TableOf(rows)), TableOf(rows))
  {
    add := [];
    for i := 0 to |rows|
      invariant add == Changed(images, current, rows[..i])
    {
      assert rows[..i + 1][..i] == rows[..i];
      if !IsCurrent(images, current, rows[i]) {
        add := add + [rows[i]];
      }
    }
    assert rows[..|rows|] == rows;
    TableValues(rows);
    var table := TableOf(rows);
    forall row | row in rows
      ensures row.key in table && table[row.key] == row.content
      ensures row.key in AddedKeys(images, table) <==> !IsCurrent(images, current, row)
    {
      CurrentMeansNotAdded(images, current, table, row);
    }
    ChangedLists(images, current, rows, table, AddedKeys(images, table));
    assert AddedKeys(images, table) * table.Keys == AddedKeys(images, table);
  }

  /** `SET m.recorded_to = date($t)` for every id in `close`. */
  method Close(images: Images, close: set<ImageId>, t: Date) returns (staged: Images)
    requires close <= images.Keys
    ensures staged == Closed(images, close, t)
  {
    staged := images;
    var todo := close;
    while todo != {}
      invariant todo <= close && staged.Keys == images.Keys
      invariant forall id :: id in images ==>
        staged[id] == if id in close && id !in todo then images[id].(recordedTo := Some(t)) else images[id]
      decreases todo
    {
      var id :| id in todo;
      todo := todo - {id};
      staged := staged[id := staged[id].(recordedTo := Some(t))];
    }
  }

  /** `MERGE (m {id: row.id}) ON CREATE SET ...` for every row of `add`. */
  method Merge(
      images: Images, add: seq<Row>, ghost keys: set<string>, ghost table: Table, t: Date) returns (staged: Images)
    requires Lists(add, keys, table)
    ensures staged == Merged(images, keys, table, t)
  {
    staged := images;
    for i := 0 to |add|
      invariant forall id :: id in images ==> id in staged && staged[id] == images[id]
      invariant forall id :: id in staged && id !in images ==>
        id.t == t && id.key in keys && staged[id] == Fresh(id.key, table[id.key], t)
      invariant forall j :: 0 <= j < i ==> ImageId(add[j].key, t) in staged
    {
      var id := ImageId(add[i].key, t);
      if id !in staged {
        staged := staged[id := Fresh(add[i].key, add[i].content, t)];
      }
    }
    forall id | id in Ids(keys, t)
      ensures id in staged
    {
      var j :| 0 <= j < |add| && add[j].key == id.key;
      assert id == ImageId(add[j].key, t);
    }
  }

  datatype Delivery = Delivery(t: Date, table: Table)

  datatype Store = Store(images: Images, markers: set<Date>)

  /** One delivery: an older date is refused, once there is an image. */
  function Step(store: Store, d: Delivery): Result<Store, Refusal> {
    if store.images != map[] && exists m :: m in store.markers && m > d.t then Err(OlderThanLatest)
    else Ok(Store(Applied(store.images, d.t, d.table), store.markers + {d.t}))
  }

  class Graph {
    var images: Images
    var markers: set<Date>

    constructor ()
      ensures images == map[] && markers == {}
    {
      images := map[];
      markers := {};
    }

    function State(): Store
      reads this
    {
      Store(images, markers)
    }

    /** One delivery, in one transaction: refused ones leave the graph as it was.  The label is in the
        schema once it has an image, so the first non-empty delivery is the bootstrap. */
    method ApplySnapshot(t: Date, rows: seq<Row>) returns (r: Result<(nat, nat), Refusal>)
      requires OneOpenPerKey(images)
      requires images == map[] ==> UniqueKeys(rows)
      modifies this
      ensures r.Err? ==> State() == old(State())
      ensures r == Err(OlderThanLatest) <==> Step(old(State()), Delivery(t, TableOf(rows))).Err?
      ensures r == Err(DuplicateKeys) ==> !UniqueKeys(rows)
      ensures r.Ok? ==> UniqueKeys(rows)
                        && Step(old(State()), Delivery(t, TableOf(rows))) == Ok(State())
                        && r.value == (|AddedKeys(old(images), TableOf(rows))|, |ClosedIds(old(images), TableOf(rows))|)
    {
      TableSize(rows);
      ghost var table := TableOf(rows);
      if images == map[] {
        assert AddedKeys(map[], table) == table.Keys;
        assert ClosedIds(map[], table) == {};
        BootstrapLists(rows);
        assert Closed(map[], {}, t) == map[];
        images := Merge(map[], rows, table.Keys, table, t);
        markers := markers + {t};
        return Ok((|rows|, 0));
      }
      var current := Current(images);
      if exists m :: m in markers && m > t {
        return Err(OlderThanLatest);
      }
      var incoming := TableOf(rows);
      if |incoming| != |rows| {
        return Err(DuplicateKeys);
      }
      var close := ToClose(images, current, incoming);
      var add := ToAdd(images, current, rows);
      var staged := Close(images, close, t);
      staged := Merge(staged, add, AddedKeys(images, table), table, t);
      images := staged;
      markers := markers + {t};
      return Ok((|add|, |close|));
    }
  }

  lemma BootstrapLists(rows: seq<Row>)
    requires UniqueKeys(rows)
    ensures Lists(rows, TableOf(rows).Keys, TableOf(rows))
  {
    TableDomain(rows);
    TableValues(rows);
    TableSize(rows);
  }
}
