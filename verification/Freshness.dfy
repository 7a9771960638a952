/**
 File freshness in kglite/__init__.py: the least-recently-used snapshot cache, the mutation batches,
 and the stamp/check pair, while other processes change the files.

 What is looked up is always what the file was at some moment since the call began; while nothing
 changes, it is what the file is.
 */
module Freshness {
  import opened Prelude
  import opened Positions
  import opened Recency
  import FS = FileSnapshot

  const CACHE_SIZE: nat := 4096

  // ----- `_cached_file_snapshot`

  class SnapshotCache {
    const world: FS.World
    var order: seq<Path>
    var entries: map<Path, FS.Outcome>
    ghost var history: seq<Path>
    ghost const born: nat
    ghost const includeHash: bool

    constructor (world: FS.World, ghost includeHash: bool)
      requires world.Valid()
      ensures Valid() && history == [] && this.world == world && born == world.now && this.includeHash == includeHash
    {
      this.world := world;
      order, entries := [], map[];
      history := [];
      this.born, this.includeHash := world.now, includeHash;
    }

    ghost predicate Valid()
      reads this, world
    {
      && world.Valid() && born <= world.now && Holds(order, entries.Keys, history)
      && AllSeen(world.traj, entries, includeHash, born, world.now)
    }

    /** An unstable file raises, and leaves the cache as it was. */
    method Lookup(path: Path, includeHash: bool) returns (snapshot: FS.Outcome)
      requires Valid() && includeHash == this.includeHash
      modifies this, world
      ensures Valid() && world.descriptors == old(world.descriptors) && old(world.now) <= world.now
      ensures path in old(order) ==> world.now == old(world.now) && snapshot == old(entries)[path]
      ensures path !in old(order) && !snapshot.Unstable? ==>
                FS.Seen(world.traj, snapshot, path, includeHash, old(world.now), world.now)
      ensures !snapshot.Unstable? ==>
                history == old(history) + [path] && FS.Seen(world.traj, snapshot, path, includeHash, born, world.now)
      ensures snapshot.Unstable? ==>
                order == old(order) && entries == old(entries) && history == old(history)
                && !FS.Still(world.traj, old(world.now), world.now)
    {
      hide Holds, FS.Lawful, FS.Seen, AllSeen;
      EntriesAreTheOrder(order, entries.Keys, history, path);
      if path in entries {
        HitHolds(order, entries.Keys, history, path);
        history := history + [path];
        order := Without(order, path) + [path];
        EntrySeen(world.traj, entries, includeHash, born, world.now, path);
        return entries[path];
      }
      MissHolds(order, entries.Keys, history, path);
      ghost var before := world.now;
      snapshot := world.SnapshotFile(path, includeHash);
      AllSeenLonger(world.traj, entries, includeHash, born, before, world.now);
      if snapshot.Unstable? {
        return;
      }
      FS.SeenLonger(world.traj, snapshot, path, includeHash, before, world.now, born, world.now);
      history := history + [path];
      ghost var paths := entries.Keys;
      PutSeen(world.traj, entries, includeHash, born, world.now, path, snapshot);
      entries := entries[path := snapshot];
      assert entries.Keys == paths + {path};
      order := order + [path];
      if |order| > CACHE_SIZE {
        DropSeen(world.traj, entries, includeHash, born, world.now, order[0]);
        assert (entries - {order[0]}).Keys == paths + {path} - {order[0]};
        entries := entries - {order[0]};
        order := order[1..];
      }
    }
  }

  /** Every entry is what its file was at some moment from `a` to `b`. */
  ghost predicate AllSeen(traj: FS.Trajectory, entries: map<Path, FS.Outcome>, includeHash: bool, a: nat, b: nat) {
    forall p :: p in entries ==> FS.Seen(traj, entries[p], p, includeHash, a, b)
  }

  lemma AllSeenLonger(traj: FS.Trajectory, entries: map<Path, FS.Outcome>, includeHash: bool, a: nat, b: nat, b': nat)
    requires AllSeen(traj, entries, includeHash, a, b) && b <= b'
    ensures AllSeen(traj, entries, includeHash, a, b')
  {
    hide FS.Seen;
    forall p | p in entries
      ensures FS.Seen(traj, entries[p], p, includeHash, a, b')
    {
      FS.SeenLonger(traj, entries[p], p, includeHash, a, b, a, b');
    }
  }

  lemma EntrySeen(traj: FS.Trajectory, entries: map<Path, FS.Outcome>, includeHash: bool, a: nat, b: nat, p: Path)
    requires AllSeen(traj, entries, includeHash, a, b) && p in entries
    ensures FS.Seen(traj, entries[p], p, includeHash, a, b) && !entries[p].Unstable?
  {
  }

  lemma PutSeen(
      traj: FS.Trajectory, entries: map<Path, FS.Outcome>, includeHash: bool, a: nat, b: nat, p: Path, r: FS.Outcome)
    requires AllSeen(traj, entries, includeHash, a, b) && FS.Seen(traj, r, p, includeHash, a, b)
    ensures AllSeen(traj, entries[p := r], includeHash, a, b)
  {
  }

  lemma DropSeen(traj: FS.Trajectory, entries: map<Path, FS.Outcome>, includeHash: bool, a: nat, b: nat, p: Path)
    requires AllSeen(traj, entries, includeHash, a, b)
    ensures AllSeen(traj, entries - {p}, includeHash, a, b)
  {
  }

  /** The cache holds the newest 4096 distinct paths of its whole history. */
  ghost predicate Holds(order: seq<Path>, paths: set<Path>, history: seq<Path>) {
    order == Newest(ByLastUse(history), 4096) && forall p :: p in paths <==> p in order
  }

  lemma EntriesAreTheOrder(order: seq<Path>, paths: set<Path>, history: seq<Path>, path: Path)
    requires Holds(order, paths, history)
    ensures path in paths <==> path in order
    ensures |order| <= CACHE_SIZE
  {
  }

  lemma NewestDistinct(s: seq<Path>, n: nat)
    requires Distinct(s)
    ensures Distinct(Newest(s, n))
  {
  }

  /** A hit moves its path to the end. */
  lemma HitHolds(order: seq<Path>, paths: set<Path>, history: seq<Path>, path: Path)
    requires Holds(order, paths, history) && path in order
    ensures Holds(Without(order, path) + [path], paths, history + [path])
  {
    hide ByLastUse, Newest;
    ByLastUseNoRepeats(history);
    ByLastUseStep(history, path);
    NewestHit(ByLastUse(history), CACHE_SIZE, path);
    WithoutMembers(order, path);
  }

  /** A miss adds its path at the end and, past the size, drops the one at the front. */
  lemma MissHolds(order: seq<Path>, paths: set<Path>, history: seq<Path>, path: Path)
    requires Holds(order, paths, history) && path !in order
    ensures if |order| < CACHE_SIZE then Holds(order + [path], paths + {path}, history + [path])
            else Holds((order + [path])[1..], paths + {path} - {(order + [path])[0]}, history + [path])
  {
    hide ByLastUse, Distinct;
    ByLastUseNoRepeats(history);
    ByLastUseStep(history, path);
    NewestMiss(ByLastUse(history), CACHE_SIZE, path);
    NewestDistinct(ByLastUse(history), CACHE_SIZE);
    if |order| == CACHE_SIZE {
      assert (order + [path])[1..] == order[1..] + [path];
      FirstIsGone(order);
      assert forall p :: p in order <==> p == order[0] || p in order[1..];
    }
  }

  lemma FirstIsGone(order: seq<Path>)
    requires Distinct(order) && order != []
    ensures order[0] !in order[1..]
  {
  }

  lemma ByLastUseStep(history: seq<Path>, path: Path)
    ensures ByLastUse(history + [path]) == Without(ByLastUse(history), path) + [path]
  {
    assert (history + [path])[..|history|] == history;
  }

  lemma WithoutMembers(s: seq<Path>, p: Path)
    ensures forall q :: q in Without(s, p) <==> q in s && q != p
  {
  }

  // ----- `_freshness_chunks`

  type NodeKey = (string, string)

  datatype Row = Row(key: NodeKey, path: string)

  datatype Stamp = Stamp(key: NodeKey, mtime: Option<int>, hash: Option<FS.Digest>)

  function StampOf(key: NodeKey, snapshot: FS.Outcome): Stamp {
    match snapshot
    case Snapshot(mtime, hash) => Stamp(key, Some(mtime), hash)
    case _ => Stamp(key, None, None)
  }

  /** The stamps of the rows looked up so far. */
  function Stamps(rows: seq<Row>, seen: seq<FS.Outcome>): (r: seq<Stamp>)
    requires |seen| <= |rows|
    ensures |r| == |seen|
  {
    seq(|seen|, i requires 0 <= i < |seen| => StampOf(rows[i].key, seen[i]))
  }

  /** Each row's outcome is what the file its path resolves to was at some moment from `a` to `b`. */
  ghost predicate Sighted(
      traj: FS.Trajectory, resolve: string -> Path, rows: seq<Row>, seen: seq<FS.Outcome>, includeHash: bool, a: nat,
      b: nat)
  {
    |seen| <= |rows| && forall i :: 0 <= i < |seen| ==> FS.Seen(traj, seen[i], resolve(rows[i].path), includeHash, a, b)
  }

  lemma SightedMore(
      traj: FS.Trajectory, resolve: string -> Path, rows: seq<Row>, seen: seq<FS.Outcome>, next: FS.Outcome,
      includeHash: bool, a: nat, b: nat, b': nat)
    requires Sighted(traj, resolve, rows, seen, includeHash, a, b) && b <= b' && |seen| < |rows|
    requires FS.Seen(traj, next, resolve(rows[|seen|].path), includeHash, a, b')
    ensures Sighted(traj, resolve, rows, seen + [next], includeHash, a, b')
  {
    hide FS.Seen;
    SightedLonger(traj, resolve, rows, seen, includeHash, a, b, b');
  }

  lemma SightedLonger(
      traj: FS.Trajectory, resolve: string -> Path, rows: seq<Row>, seen: seq<FS.Outcome>, includeHash: bool, a: nat,
      b: nat, b': nat)
    requires Sighted(traj, resolve, rows, seen, includeHash, a, b) && b <= b'
    ensures Sighted(traj, resolve, rows, seen, includeHash, a, b')
  {
    hide FS.Seen;
    forall i | 0 <= i < |seen|
      ensures FS.Seen(traj, seen[i], resolve(rows[i].path), includeHash, a, b')
    {
      FS.SeenLonger(traj, seen[i], resolve(rows[i].path), includeHash, a, b, a, b');
    }
  }

  /** What undisturbed looks at the rows' files give. */
  ghost function Looks(fs: FS.Fs, resolve: string -> Path, rows: seq<Row>, includeHash: bool): (r: seq<FS.Outcome>)
    requires FS.NamesExist(fs)
    ensures |r| == |rows|
  {
    seq(|rows|, i requires 0 <= i < |rows| => FS.Direct(fs, resolve(rows[i].path), includeHash))
  }

  lemma SightedInStill(
      traj: FS.Trajectory, resolve: string -> Path, rows: seq<Row>, seen: seq<FS.Outcome>, includeHash: bool, a: nat,
      b: nat)
    requires Sighted(traj, resolve, rows, seen, includeHash, a, b) && |seen| == |rows|
    requires FS.Still(traj, a, b) && FS.NamesExist(traj(a))
    ensures seen == Looks(traj(a), resolve, rows, includeHash)
  {
    hide FS.Seen, FS.Direct;
    forall i | 0 <= i < |rows|
      ensures seen[i] == FS.Direct(traj(a), resolve(rows[i].path), includeHash)
    {
      FS.SeenInStill(traj, seen[i], resolve(rows[i].path), includeHash, a, b);
    }
  }

  function Flatten<T>(batches: seq<seq<T>>): seq<T> {
    if batches == [] then [] else Flatten(batches[..|batches| - 1]) + batches[|batches| - 1]
  }

  lemma FlattenAppend<T>(batches: seq<seq<T>>, batch: seq<T>)
    ensures Flatten(batches + [batch]) == Flatten(batches) + batch
  {
    assert (batches + [batch])[..|batches|] == batches;
  }

  ghost predicate AllFull(batches: seq<seq<Stamp>>, batchSize: nat) {
    forall i :: 0 <= i < |batches| ==> |batches[i]| == batchSize
  }

  /** What has been yielded, and the batch being filled, are the stamps of what was seen. */
  ghost predicate Batched(
      batches: seq<seq<Stamp>>, batch: seq<Stamp>, batchSize: nat, rows: seq<Row>, seen: seq<FS.Outcome>) {
    |seen| <= |rows| && AllFull(batches, batchSize) && Flatten(batches) + batch == Stamps(rows, seen)
  }

  lemma BatchedStep(
      batches: seq<seq<Stamp>>, batch: seq<Stamp>, batchSize: nat, rows: seq<Row>, seen: seq<FS.Outcome>,
      next: FS.Outcome)
    requires Batched(batches, batch, batchSize, rows, seen) && |seen| < |rows|
    ensures var more := batch + [StampOf(rows[|seen|].key, next)];
            && Batched(batches, more, batchSize, rows, seen + [next])
            && (|more| == batchSize ==> Batched(batches + [more], [], batchSize, rows, seen + [next]))
  {
    hide Flatten;
    var stamp := StampOf(rows[|seen|].key, next);
    StampsStep(rows, seen, next);
    assert Flatten(batches) + (batch + [stamp]) == (Flatten(batches) + batch) + [stamp];
    FlattenAppend(batches, batch + [stamp]);
    assert Flatten(batches + [batch + [stamp]]) + [] == Flatten(batches) + (batch + [stamp]);
  }

  lemma BatchedEnd(batches: seq<seq<Stamp>>, batch: seq<Stamp>, batchSize: nat, rows: seq<Row>, seen: seq<FS.Outcome>)
    requires Batched(batches, batch, batchSize, rows, seen) && |batch| < batchSize
    ensures Flatten(batches) <= Stamps(rows, seen) && forall i :: 0 <= i < |batches| ==> |batches[i]| == batchSize
    ensures var all := if batch == [] then batches else batches + [batch];
            && Flatten(all) == Stamps(rows, seen)
            && (forall i :: 0 <= i < |all| ==> 0 < |all[i]| <= batchSize)
            && (forall i :: 0 <= i < |all| - 1 ==> |all[i]| == batchSize)
  {
    FlattenAppend(batches, batch);
  }

  /** The batches, in the order the generator yields them: together they are the rows' stamps in their order,
      and all but the last are full.  An unstable file raises; what was yielded until then is full batches. */
  method FreshnessChunks(w: FS.World, rows: seq<Row>, resolve: string -> Path, includeHash: bool, batchSize: nat)
    returns (batches: seq<seq<Stamp>>, raised: bool, ghost seen: seq<FS.Outcome>)
    requires batchSize > 0 && w.Valid()
    modifies w
    ensures w.Valid() && w.descriptors == old(w.descriptors) && old(w.now) <= w.now
    ensures Sighted(w.traj, resolve, rows, seen, includeHash, old(w.now), w.now)
    ensures |seen| <= |rows| && Flatten(batches) <= Stamps(rows, seen)
    ensures !raised ==> |seen| == |rows| && Flatten(batches) == Stamps(rows, seen)
    ensures raised ==> !FS.Still(w.traj, old(w.now), w.now)
    ensures forall i :: 0 <= i < |batches| ==> 0 < |batches[i]| <= batchSize
    ensures forall i :: 0 <= i < |batches| && (raised || i < |batches| - 1) ==> |batches[i]| == batchSize
  {
    hide FS.Lawful, Holds, Sighted, AllSeen, Batched;
    var snapshots := new SnapshotCache(w, includeHash);
    ghost var start := w.now;
    batches, raised, seen := [], false, [];
    NoneSighted(w.traj, resolve, rows, includeHash, start);
    NoneBatched(rows, batchSize);
    var batch: seq<Stamp> := [];
    for i := 0 to |rows|
      invariant snapshots.Valid() && fresh(snapshots) && snapshots.world == w && snapshots.includeHash == includeHash
      invariant snapshots.born == start == old(w.now) <= w.now && w.descriptors == old(w.descriptors)
      invariant |seen| == i && Sighted(w.traj, resolve, rows, seen, includeHash, start, w.now)
      invariant Batched(batches, batch, batchSize, rows, seen) && |batch| < batchSize
    {
      ghost var before := w.now;
      var snapshot := snapshots.Lookup(resolve(rows[i].path), includeHash);
      if snapshot.Unstable? {
        SightedLonger(w.traj, resolve, rows, seen, includeHash, start, before, w.now);
        BatchedEnd(batches, batch, batchSize, rows, seen);
        return batches, true, seen;
      }
      SightedMore(w.traj, resolve, rows, seen, snapshot, includeHash, start, before, w.now);
      BatchedStep(batches, batch, batchSize, rows, seen, snapshot);
      seen := seen + [snapshot];
      batch := batch + [StampOf(rows[i].key, snapshot)];
      if |batch| == batchSize {
        batches := batches + [batch];
        batch := [];
      }
    }
    BatchedEnd(batches, batch, batchSize, rows, seen);
    if batch != [] {
      batches := batches + [batch];
    }
  }

  lemma NoneBatched(rows: seq<Row>, batchSize: nat)
    ensures Batched([], [], batchSize, rows, [])
  {
    NothingYet(rows);
  }

  lemma NothingYet(rows: seq<Row>)
    ensures Flatten<Stamp>([]) == [] && Stamps(rows, []) == []
  {
  }

  lemma NoneSighted(traj: FS.Trajectory, resolve: string -> Path, rows: seq<Row>, includeHash: bool, a: nat)
    ensures Sighted(traj, resolve, rows, [], includeHash, a, a)
  {
  }

  lemma StampsStep(rows: seq<Row>, seen: seq<FS.Outcome>, next: FS.Outcome)
    requires |seen| < |rows|
    ensures Stamps(rows, seen + [next]) == Stamps(rows, seen) + [StampOf(rows[|seen|].key, next)]
  {
  }

  // ----- `stamp_file_freshness` and `check_file_freshness`

  datatype Node = Node(path: Option<string>, mtime: Option<int>, hash: Option<FS.Digest>)

  type Nodes = map<NodeKey, Node>

  datatype Status = IsMissing | IsChanged

  datatype Failure = NotPositive | UnstableFile

  datatype Drift = Drift(key: NodeKey, path: string, status: Status)

  predicate Selected(nodes: Nodes, nodeType: Option<string>, key: NodeKey) {
    key in nodes && nodes[key].path.Some? && (nodeType.None? || nodeType.value == key.0)
  }

  /** The rows are the selected nodes, each once, in whatever order the query returns them. */
  ghost predicate RowsOf(rows: seq<Row>, nodes: Nodes, nodeType: Option<string>) {
    && (forall i :: 0 <= i < |rows| ==>
          Selected(nodes, nodeType, rows[i].key) && nodes[rows[i].key].path == Some(rows[i].path))
    && (forall key :: Selected(nodes, nodeType, key) ==> exists i :: 0 <= i < |rows| && rows[i].key == key)
    && (forall i, j :: 0 <= i < j < |rows| ==> rows[i].key != rows[j].key)
  }

  /** One row of the update: the time always, the hash only when hashing is on. */
  function StampNode(nodes: Nodes, stamp: Stamp, includeHash: bool): Nodes {
    if stamp.key !in nodes then nodes
    else
      var node := nodes[stamp.key].(mtime := stamp.mtime);
      nodes[stamp.key := if includeHash then node.(hash := stamp.hash) else node]
  }

  function StampAll(nodes: Nodes, stamps: seq<Stamp>, includeHash: bool): Nodes {
    if stamps == [] then nodes
    else StampNode(StampAll(nodes, stamps[..|stamps| - 1], includeHash), stamps[|stamps| - 1], includeHash)
  }

  /** How a node compares with its file. */
  function StatusOf(node: Node, snapshot: FS.Outcome, includeHash: bool): Option<Status> {
    match snapshot
    case Snapshot(mtime, hash) =>
      if includeHash then
        (if node.hash.None? || node.hash != hash then Some(IsChanged) else None)
      else
        (if node.mtime != Some(mtime) then Some(IsChanged) else None)
    case _ => Some(IsMissing)
  }

  function DriftOf(nodes: Nodes, rows: seq<Row>, seen: seq<FS.Outcome>, includeHash: bool): seq<Drift>
    requires |seen| <= |rows| && forall i :: 0 <= i < |rows| ==> rows[i].key in nodes
    decreases |seen|
  {
    if seen == [] then []
    else
      var n := |seen| - 1;
      var status := StatusOf(nodes[rows[n].key], seen[n], includeHash);
      DriftOf(nodes, rows, seen[..n], includeHash)
      + if status.Some? then [Drift(rows[n].key, rows[n].path, status.value)] else []
  }

  class Graph {
    var nodes: Nodes

    constructor (nodes: Nodes)
      ensures this.nodes == nodes
    {
      this.nodes := nodes;
    }

    /** Every batch in one transaction: a batch size that is not positive is refused, and an unstable file
        rolls everything back. */
    method StampFileFreshness(w: FS.World, rows: seq<Row>, resolve: string -> Path, includeHash: bool, batchSize: int)
      returns (stamped: Result<nat, Failure>, ghost seen: seq<FS.Outcome>)
      requires w.Valid()
      modifies this, w
      ensures w.Valid() && w.descriptors == old(w.descriptors) && old(w.now) <= w.now
      ensures batchSize <= 0 ==> stamped == Err(NotPositive) && w.now == old(w.now)
      ensures stamped.Err? ==> nodes == old(nodes)
      ensures batchSize > 0 && stamped.Err? ==> stamped.error == UnstableFile && !FS.Still(w.traj, old(w.now), w.now)
      ensures stamped.Ok? ==>
                && stamped.value == |rows| == |seen|
                && Sighted(w.traj, resolve, rows, seen, includeHash, old(w.now), w.now)
                && nodes == StampAll(old(nodes), Stamps(rows, seen), includeHash)
    {
      hide Sighted, FS.Lawful, StampAll;
      seen := [];
      if batchSize <= 0 {
        stamped := Err(NotPositive);
        return;
      }
      var batches, raised;
      batches, raised, seen := FreshnessChunks(w, rows, resolve, includeHash, batchSize);
      if raised {
        stamped := Err(UnstableFile);
        return;
      }
      var tx, count := StampBatches(nodes, batches, includeHash);
      nodes := tx;
      stamped := Ok(count);
    }

    method CheckFileFreshness(w: FS.World, rows: seq<Row>, resolve: string -> Path, includeHash: bool)
      returns (drift: Result<seq<Drift>, Failure>, ghost seen: seq<FS.Outcome>)
      requires w.Valid() && forall i :: 0 <= i < |rows| ==> rows[i].key in nodes
      modifies w
      ensures w.Valid() && w.descriptors == old(w.descriptors) && old(w.now) <= w.now
      ensures drift.Err? ==> drift.error == UnstableFile && !FS.Still(w.traj, old(w.now), w.now)
      ensures drift.Ok? ==>
                && |seen| == |rows| && Sighted(w.traj, resolve, rows, seen, includeHash, old(w.now), w.now)
                && drift.value == DriftOf(nodes, rows, seen, includeHash)
    {
      hide FS.Lawful, Holds, Sighted, AllSeen;
      var snapshots := new SnapshotCache(w, includeHash);
      ghost var start := w.now;
      var found: seq<Drift> := [];
      seen := [];
      NoneSighted(w.traj, resolve, rows, includeHash, start);
      for i := 0 to |rows|
        invariant snapshots.Valid() && fresh(snapshots) && snapshots.world == w && snapshots.includeHash == includeHash
        invariant snapshots.born == start == old(w.now) <= w.now && w.descriptors == old(w.descriptors)
        invariant |seen| == i && Sighted(w.traj, resolve, rows, seen, includeHash, start, w.now)
        invariant found == DriftOf(nodes, rows, seen, includeHash)
      {
        var row := rows[i];
        ghost var before := w.now;
        var snapshot := snapshots.Lookup(resolve(row.path), includeHash);
        if snapshot.Unstable? {
          drift := Err(UnstableFile);
          return;
        }
        SightedMore(w.traj, resolve, rows, seen, snapshot, includeHash, start, before, w.now);
        assert (seen + [snapshot])[..i] == seen;
        seen := seen + [snapshot];
        if snapshot.Missing? {
          found := found + [Drift(row.key, row.path, IsMissing)];
        } else {
          var status := StatusOf(nodes[row.key], snapshot, includeHash);
          if status.Some? {
            found := found + [Drift(row.key, row.path, status.value)];
          }
        }
      }
      drift := Ok(found);
    }
  }

  /** The transaction's update queries, batch after batch. */
  method StampBatches(nodes: Nodes, batches: seq<seq<Stamp>>, includeHash: bool) returns (tx: Nodes, count: nat)
    ensures tx == StampAll(nodes, Flatten(batches), includeHash) && count == |Flatten(batches)|
  {
    tx, count := nodes, 0;
    for i := 0 to |batches|
      invariant tx == StampAll(nodes, Flatten(batches[..i]), includeHash)
      invariant count == |Flatten(batches[..i])|
    {
      ghost var start := Flatten(batches[..i]);
      assert batches[..i + 1][..i] == batches[..i];
      assert start + batches[i][..0] == start;
      for j := 0 to |batches[i]|
        invariant tx == StampAll(nodes, start + batches[i][..j], includeHash)
      {
        assert (start + batches[i][..j + 1])[..|start| + j] == start + batches[i][..j];
        tx := StampNode(tx, batches[i][j], includeHash);
      }
      assert batches[i][..|batches[i]|] == batches[i];
      count := count + |batches[i]|;
    }
    assert batches[..|batches|] == batches;
  }

  // ----- what stamping and checking mean together

  lemma {:induction false} StampAllAt(
      nodes: Nodes, rows: seq<Row>, seen: seq<FS.Outcome>, includeHash: bool, n: nat, i: nat)
    requires |seen| == |rows| && i < |rows| && n <= |rows|
    requires forall j, k :: 0 <= j < k < |rows| ==> rows[j].key != rows[k].key
    requires forall j :: 0 <= j < |rows| ==> rows[j].key in nodes
    ensures var after := StampAll(nodes, Stamps(rows, seen)[..n], includeHash);
            var key := rows[i].key;
            && after.Keys == nodes.Keys
            && (i < n ==> Stamped(nodes[key], after[key], seen[i], includeHash))
            && (n <= i ==> after[key] == nodes[key])
    decreases n
  {
    if n > 0 {
      var stamps := Stamps(rows, seen);
      assert stamps[..n][..n - 1] == stamps[..n - 1];
      StampAllAt(nodes, rows, seen, includeHash, n - 1, i);
      assert stamps[n - 1].key == rows[n - 1].key;
    }
  }

  lemma {:induction false} StampAllKeepsPaths(nodes: Nodes, stamps: seq<Stamp>, includeHash: bool, key: NodeKey)
    ensures var after := StampAll(nodes, stamps, includeHash);
            (key in after <==> key in nodes) && (key in nodes ==> after[key].path == nodes[key].path)
  {
    if stamps != [] {
      StampAllKeepsPaths(nodes, stamps[..|stamps| - 1], includeHash, key);
    }
  }

  /** The node after stamping: the time seen, and with hashing the hash seen, both null for a missing file;
      everything else as before. */
  ghost predicate Stamped(before: Node, after: Node, seen: FS.Outcome, includeHash: bool) {
    && after.path == before.path
    && (match seen
        case Snapshot(mtime, hash) => after.mtime == Some(mtime) && (includeHash ==> after.hash == hash)
        case _ => after.mtime.None? && (includeHash ==> after.hash.None?))
    && (!includeHash ==> after.hash == before.hash)
  }

  /** Every row's node is stamped with what was seen, every other node is as before, and the selected rows are
      the same. */
  lemma StampedNodes(nodes: Nodes, rows: seq<Row>, seen: seq<FS.Outcome>, nodeType: Option<string>, includeHash: bool)
    requires |seen| == |rows| && RowsOf(rows, nodes, nodeType)
    ensures var after := StampAll(nodes, Stamps(rows, seen), includeHash);
            && RowsOf(rows, after, nodeType)
            && (forall i :: 0 <= i < |rows| ==> Stamped(nodes[rows[i].key], after[rows[i].key], seen[i], includeHash))
            && (forall key :: key in after <==> key in nodes)
            && (forall key :: key in nodes && !Selected(nodes, nodeType, key) ==> after[key] == nodes[key])
  {
    hide StampAll;
    var stamps := Stamps(rows, seen);
    var after := StampAll(nodes, stamps, includeHash);
    assert stamps[..|rows|] == stamps;
    forall key
      ensures Selected(after, nodeType, key) <==> Selected(nodes, nodeType, key)
      ensures key in nodes <==> key in after
      ensures key in nodes ==> after[key].path == nodes[key].path
      ensures key in nodes && !Selected(nodes, nodeType, key) ==> after[key] == nodes[key]
    {
      StampAllKeepsPaths(nodes, stamps, includeHash, key);
      assert forall i :: 0 <= i < |stamps| ==> stamps[i].key == rows[i].key;
      if key in nodes && !Selected(nodes, nodeType, key) {
        StampAllKeepsOthers(nodes, stamps, includeHash, key);
      }
    }
    forall i | 0 <= i < |rows|
      ensures Stamped(nodes[rows[i].key], after[rows[i].key], seen[i], includeHash)
    {
      StampAllAt(nodes, rows, seen, includeHash, |rows|, i);
    }
  }

  lemma {:induction false} StampAllKeepsOthers(nodes: Nodes, stamps: seq<Stamp>, includeHash: bool, key: NodeKey)
    requires key in nodes && forall i :: 0 <= i < |stamps| ==> stamps[i].key != key
    ensures var after := StampAll(nodes, stamps, includeHash);
            key in after && after[key] == nodes[key]
  {
    if stamps != [] {
      StampAllKeepsOthers(nodes, stamps[..|stamps| - 1], includeHash, key);
    }
  }

  /** The entry a row deserves, if any: its file was seen missing; or it was seen, and what the node holds of it,
      the hash when hashing and the time otherwise, is absent or something else. */
  ghost predicate Deserves(node: Node, seen: FS.Outcome, includeHash: bool, status: Status) {
    match seen
    case Missing => status == IsMissing
    case Unstable => status == IsMissing
    case Snapshot(mtime, hash) =>
      && status == IsChanged
      && (includeHash ==> node.hash.None? || hash.None? || node.hash.value != hash.value)
      && (!includeHash ==> node.mtime.None? || node.mtime.value != mtime)
  }

  /** The report lists, in row order, exactly the rows that deserve an entry, each with the entry it deserves. */
  lemma {:induction false} ReportIsExact(nodes: Nodes, rows: seq<Row>, seen: seq<FS.Outcome>, includeHash: bool)
    returns (at: seq<nat>)
    requires |seen| <= |rows| && forall i :: 0 <= i < |rows| ==> rows[i].key in nodes
    ensures var drift := DriftOf(nodes, rows, seen, includeHash);
            && Increasing(at) && |drift| == |at|
            && (forall i: nat :: i in at <==>
                  i < |seen| && exists status :: Deserves(nodes[rows[i].key], seen[i], includeHash, status))
            && forall k :: 0 <= k < |at| ==>
                 && at[k] < |seen| && drift[k].key == rows[at[k]].key && drift[k].path == rows[at[k]].path
                 && Deserves(nodes[rows[at[k]].key], seen[at[k]], includeHash, drift[k].status)
    decreases |seen|
  {
    hide Deserves, StatusOf;
    at := [];
    if seen != [] {
      var n := |seen| - 1;
      at := ReportIsExact(nodes, rows, seen[..n], includeHash);
      assert forall i :: i in at ==> i < n;
      StatusDeserved(nodes[rows[n].key], seen[n], includeHash);
      if StatusOf(nodes[rows[n].key], seen[n], includeHash).Some? {
        Append(at, n);
        at := at + [n];
      }
    }
  }

  lemma StatusDeserved(node: Node, seen: FS.Outcome, includeHash: bool)
    ensures var status := StatusOf(node, seen, includeHash);
            && (status.Some? ==> Deserves(node, seen, includeHash, status.value))
            && (status.None? ==> forall any :: !Deserves(node, seen, includeHash, any))
  {
    assert seen.Snapshot? ==>
        (StatusOf(node, seen, includeHash).Some? <==> Deserves(node, seen, includeHash, IsChanged));
  }

  /** The drift entries of the rows whose file is missing. */
  function MissingRows(rows: seq<Row>, seen: seq<FS.Outcome>): seq<Drift>
    requires |seen| <= |rows|
    decreases |seen|
  {
    if seen == [] then []
    else
      var n := |seen| - 1;
      MissingRows(rows, seen[..n]) + if seen[n].Snapshot? then [] else [Drift(rows[n].key, rows[n].path, IsMissing)]
  }

  lemma {:induction false} MatchingNodesDriftOnlyWhenMissing(
      nodes: Nodes, rows: seq<Row>, seen: seq<FS.Outcome>, includeHash: bool)
    requires |seen| <= |rows| && forall i :: 0 <= i < |rows| ==> rows[i].key in nodes
    requires forall i :: 0 <= i < |seen| ==> Stamped(nodes[rows[i].key], nodes[rows[i].key], seen[i], includeHash)
    requires forall i :: 0 <= i < |seen| && seen[i].Snapshot? ==> (seen[i].hash.Some? <==> includeHash)
    ensures DriftOf(nodes, rows, seen, includeHash) == MissingRows(rows, seen)
    decreases |seen|
  {
    if seen != [] {
      MatchingNodesDriftOnlyWhenMissing(nodes, rows, seen[..|seen| - 1], includeHash);
    }
  }

  /** Checking after stamping, with nothing changed from the beginning of the one to the end of the other,
      reports exactly the rows whose file is missing, in their order. */
  lemma CheckAfterStampReportsTheMissing(
      nodes: Nodes, fs: FS.Fs, resolve: string -> Path, rows: seq<Row>, nodeType: Option<string>, includeHash: bool)
    requires FS.NamesExist(fs) && RowsOf(rows, nodes, nodeType)
    ensures var seen := Looks(fs, resolve, rows, includeHash);
            var after := StampAll(nodes, Stamps(rows, seen), includeHash);
            && RowsOf(rows, after, nodeType)
            && DriftOf(after, rows, seen, includeHash) == MissingRows(rows, seen)
  {
    var seen := Looks(fs, resolve, rows, includeHash);
    StampedNodes(nodes, rows, seen, nodeType, includeHash);
    MatchingNodesDriftOnlyWhenMissing(StampAll(nodes, Stamps(rows, seen), includeHash), rows, seen, includeHash);
  }

  lemma {:induction false} DriftAt(nodes: Nodes, rows: seq<Row>, seen: seq<FS.Outcome>, includeHash: bool, i: nat)
    requires i < |seen| <= |rows| && forall k :: 0 <= k < |rows| ==> rows[k].key in nodes
    ensures var status := StatusOf(nodes[rows[i].key], seen[i], includeHash);
            status.Some? ==> Drift(rows[i].key, rows[i].path, status.value) in DriftOf(nodes, rows, seen, includeHash)
    decreases |seen|
  {
    if i < |seen| - 1 {
      DriftAt(nodes, rows, seen[..|seen| - 1], includeHash, i);
    }
  }

  /** The path names a regular file with this content. */
  ghost predicate HasContent(fs: FS.Fs, path: Path, content: seq<FS.byte>) {
    && path in fs.names && fs.names[path] in fs.inodes
    && fs.inodes[fs.names[path]].mode.Regular? && fs.inodes[fs.names[path]].content == content
  }

  lemma SeenContent(
      traj: FS.Trajectory, r: FS.Outcome, path: Path, a: nat, b: nat) returns (t: nat, content: seq<FS.byte>)
    requires FS.Seen(traj, r, path, true, a, b) && r.Snapshot?
    ensures a <= t <= b && HasContent(traj(t), path, content) && r.hash == Some(FS.Sha(content))
  {
    t :| a <= t <= b && FS.NamesExist(traj(t)) && r == FS.Direct(traj(t), path, true);
    content := traj(t).inodes[traj(t).names[path]].content;
  }

  /** Whatever changes in between: a row that a hash check does not report had, at some moment of the check,
      the very content it had at some moment of the stamping. */
  lemma UnreportedHasItsContent(
      traj: FS.Trajectory, nodes: Nodes, resolve: string -> Path, rows: seq<Row>, nodeType: Option<string>,
      stamped: seq<FS.Outcome>, a: nat, b: nat, checked: seq<FS.Outcome>, c: nat, d: nat, i: nat)
    returns (t: nat, u: nat, content: seq<FS.byte>)
    requires RowsOf(rows, nodes, nodeType) && i < |rows| == |stamped| == |checked|
    requires Sighted(traj, resolve, rows, stamped, true, a, b) && Sighted(traj, resolve, rows, checked, true, c, d)
    requires var after := StampAll(nodes, Stamps(rows, stamped), true);
             && RowsOf(rows, after, nodeType)
             && forall e :: e in DriftOf(after, rows, checked, true) ==> e.key != rows[i].key
    ensures a <= t <= b && HasContent(traj(t), resolve(rows[i].path), content)
    ensures c <= u <= d && HasContent(traj(u), resolve(rows[i].path), content)
  {
    hide FS.Seen, HasContent, StampAll, Stamps;
    var after := StampAll(nodes, Stamps(rows, stamped), true);
    StampedNodes(nodes, rows, stamped, nodeType, true);
    DriftAt(after, rows, checked, true, i);
    assert checked[i].Snapshot? && stamped[i].Snapshot? && stamped[i].hash == checked[i].hash;
    var content';
    t, content := SeenContent(traj, stamped[i], resolve(rows[i].path), a, b);
    u, content' := SeenContent(traj, checked[i], resolve(rows[i].path), c, d);
  }
}
