/**
 What runs of snapshot deliveries leave on record: examples/bitemporal_snapshots.py, and the rules
 of docs/python/guides/bitemporal.md, "From successive snapshots".
 */
module SnapshotHistory {
  import opened Prelude
  import opened Snapshots

  /** What a delivery does to one id, given the keys it adds and the ids it closes. */
  ghost predicate Turns(
      images: Images, t: Date, table: Table, added: set<string>, closed: set<ImageId>, after: Images, id: ImageId) {
    && (id in after <==> id in images || (id.t == t && id.key in added))
    && (id in images ==> after[id] == if id in closed then images[id].(recordedTo := Some(t)) else images[id])
    && (id in after && id !in images ==> id.key in table && after[id] == Fresh(id.key, table[id.key], t))
  }

  lemma AppliedAt(images: Images, t: Date, table: Table, id: ImageId)
    ensures Turns(images, t, table, AddedKeys(images, table), ClosedIds(images, table), Applied(images, t, table), id)
  {
  }

  lemma AppliedEverywhere(images: Images, t: Date, table: Table)
    ensures forall id ::
            Turns(images, t, table, AddedKeys(images, table), ClosedIds(images, table), Applied(images, t, table), id)
  {
    forall id {
      AppliedAt(images, t, table, id);
    }
  }

  // ----- invariants

  /** Ids and contents agree, no image is dated after `latest`, and the images of one key follow each
      other: an earlier one was closed no later than the next one began. */
  ghost predicate Sound(images: Images, latest: Date) {
    && (forall id :: id in images ==>
          && images[id].key == id.key && images[id].recordedFrom == id.t <= latest
          && images[id].digest == Sha(images[id].content)
          && (Open(images[id]) || id.t <= images[id].recordedTo.value <= latest))
    && (forall i, j :: i in images && j in images && i.key == j.key && i.t < j.t ==>
          images[i].recordedTo.Some? && images[i].recordedTo.value <= j.t)
  }

  /** Recording intervals are non-empty, and an image that abuts the next one of its key differs from it. */
  ghost predicate Strict(images: Images) {
    && (forall id :: id in images && images[id].recordedTo.Some? ==> id.t < images[id].recordedTo.value)
    && (forall i, j :: i in images && j in images && i.key == j.key && images[i].recordedTo == Some(j.t) ==>
          images[i].digest != images[j].digest)
  }

  lemma SoundStep(images: Images, latest: Date, t: Date, table: Table)
    requires Sound(images, latest) && latest <= t
    ensures Sound(Applied(images, t, table), t)
  {
    var added, closed, after := AddedKeys(images, table), ClosedIds(images, table), Applied(images, t, table);
    AppliedEverywhere(images, t, table);
    forall i, j | i in images && Open(images[i]) && j in after && j !in images && i.key == j.key
      ensures i in closed
    {
      assert Turns(images, t, table, added, closed, after, j);
      assert !OnRecord(images, j.key, Sha(table[j.key]));
    }
    TurnsSound(images, latest, t, table, added, closed, after);
  }

  lemma TurnsSound(
      images: Images, latest: Date, t: Date, table: Table, added: set<string>, closed: set<ImageId>, after: Images)
    requires Sound(images, latest) && latest <= t
    requires forall id :: Turns(images, t, table, added, closed, after, id)
    requires forall id :: id in closed ==> id in images && Open(images[id])
    requires forall i, j :: i in images && Open(images[i]) && j in after && j !in images && i.key == j.key ==>
            i in closed
    ensures Sound(after, t)
  {
    forall i, j | i in after && j in after && i.key == j.key && i.t < j.t
      ensures after[i].recordedTo.Some? && after[i].recordedTo.value <= j.t
    {
      assert Turns(images, t, table, added, closed, after, i);
      assert Turns(images, t, table, added, closed, after, j);
    }
    forall id | id in after
      ensures after[id].key == id.key && after[id].recordedFrom == id.t <= t
              && after[id].digest == Sha(after[id].content)
              && (Open(after[id]) || id.t <= after[id].recordedTo.value <= t)
    {
      assert Turns(images, t, table, added, closed, after, id);
    }
  }

  lemma StrictStep(images: Images, latest: Date, t: Date, table: Table)
    requires Sound(images, latest) && latest < t && Strict(images)
    ensures Strict(Applied(images, t, table))
  {
    var after := Applied(images, t, table);
    forall i, j | i in after && j in after && i.key == j.key && after[i].recordedTo == Some(j.t)
      ensures after[i].digest != after[j].digest
    {
      AppliedAt(images, t, table, i);
      AppliedAt(images, t, table, j);
    }
    forall id | id in after && after[id].recordedTo.Some?
      ensures id.t < after[id].recordedTo.value
    {
      AppliedAt(images, t, table, id);
    }
  }

  /** In a sound history two images of one key never overlap, and at most one of them is open. */
  lemma IntervalsAreDisjoint(images: Images, latest: Date, i: ImageId, j: ImageId, tau: Date)
    requires Sound(images, latest) && i in images && j in images
    requires Known(images[i], tau) && Known(images[j], tau) && images[i].key == images[j].key
    ensures i == j
  {
    assert i.key == j.key;
  }

  lemma SoundMeansOneOpen(images: Images, latest: Date)
    requires Sound(images, latest)
    ensures OneOpenPerKey(images)
  {
    forall i, j | i in images && j in images && Open(images[i]) && Open(images[j]) && images[i].key == images[j].key
      ensures i == j
    {
      IntervalsAreDisjoint(images, latest, i, j, latest);
    }
  }

  // ----- the as-known question

  /** Asked as known at `tau`, the history answers with exactly one image per row of `table`, each
      carrying that row's content. */
  ghost predicate Answers(images: Images, tau: Date, table: Table) {
    && (forall key :: key in table ==> exists id :: id in images && Known(images[id], tau) && images[id].key == key)
    && (forall id :: id in images && Known(images[id], tau) ==>
          images[id].key in table && images[id].content == table[images[id].key])
    && (forall i, j :: i in images && j in images && images[i].key == images[j].key ==>
          Known(images[i], tau) && Known(images[j], tau) ==> i == j)
  }

  /** Whatever a delivery dated `t` holds, nothing it does changes what was known before `t`. */
  lemma KeepsThePast(images: Images, t: Date, table: Table, tau: Date, id: ImageId)
    requires tau < t
    ensures var after := Applied(images, t, table);
            (id in after && Known(after[id], tau)) <==> (id in images && Known(images[id], tau))
    ensures var after := Applied(images, t, table);
            id in images ==> id in after && after[id] == images[id].(recordedTo := after[id].recordedTo)
  {
    AppliedAt(images, t, table, id);
  }

  lemma PastAnswersStand(images: Images, t: Date, table: Table, tau: Date, asked: Table)
    requires tau < t && Answers(images, tau, asked)
    ensures Answers(Applied(images, t, table), tau, asked)
  {
    var after := Applied(images, t, table);
    forall id
      ensures (id in after && Known(after[id], tau)) <==> (id in images && Known(images[id], tau))
      ensures id in images ==> id in after && after[id] == images[id].(recordedTo := after[id].recordedTo)
    {
      KeepsThePast(images, t, table, tau, id);
    }
  }

  /** After the latest date nothing changes any more: what is known then is known from then on. */
  lemma FutureIsThePresent(images: Images, latest: Date, tau: Date, table: Table)
    requires Sound(images, latest) && latest <= tau && Answers(images, latest, table)
    ensures Answers(images, tau, table)
  {
    assert forall id :: id in images ==> (Known(images[id], tau) <==> Known(images[id], latest));
  }

  /** A row the delivery has to add, whose id an earlier delivery of the same date has already taken. */
  ghost predicate Collides(images: Images, t: Date, table: Table, key: string) {
    key in AddedKeys(images, table) && ImageId(key, t) in images
  }

  lemma AddedRowIsAnswered(images: Images, latest: Date, t: Date, table: Table, key: string)
    requires Sound(images, latest) && latest <= t && key in table && !Collides(images, t, table, key)
    ensures var after := Applied(images, t, table);
            exists id :: id in after && Known(after[id], t) && after[id].key == key
  {
    var after := Applied(images, t, table);
    if key in AddedKeys(images, table) {
      var id := ImageId(key, t);
      AppliedAt(images, t, table, id);
      assert id in after && Known(after[id], t);
    } else {
      var id :| id in images && Open(images[id]) && images[id].key == key && images[id].digest == Sha(table[key]);
      AppliedAt(images, t, table, id);
      assert id in after && Known(after[id], t);
    }
  }

  /** What is known at the delivery's date, apart from collisions, is the delivered table. */
  lemma KnownRowIsDelivered(images: Images, latest: Date, t: Date, table: Table, id: ImageId)
    requires Sound(images, latest) && latest <= t
    requires id in Applied(images, t, table) && Known(Applied(images, t, table)[id], t)
    ensures id.key in table && Applied(images, t, table)[id].content == table[id.key]
    ensures id in images ==> Open(images[id])
  {
    AppliedAt(images, t, table, id);
  }

  lemma NoCollisionAnswers(images: Images, latest: Date, t: Date, table: Table)
    requires Sound(images, latest) && latest <= t && forall key :: !Collides(images, t, table, key)
    ensures Answers(Applied(images, t, table), t, table)
  {
    var after := Applied(images, t, table);
    SoundStep(images, latest, t, table);
    forall key | key in table
      ensures exists id :: id in after && Known(after[id], t) && after[id].key == key
    {
      AddedRowIsAnswered(images, latest, t, table, key);
    }
    forall id | id in after && Known(after[id], t)
      ensures after[id].key in table && after[id].content == table[after[id].key]
    {
      KnownRowIsDelivered(images, latest, t, table, id);
    }
    forall i, j | i in after && j in after && Known(after[i], t) && Known(after[j], t) && after[i].key == after[j].key
      ensures i == j
    {
      IntervalsAreDisjoint(after, t, i, j, t);
    }
  }

  lemma CollisionLosesTheRow(images: Images, latest: Date, t: Date, table: Table, key: string)
    requires Sound(images, latest) && latest <= t && Collides(images, t, table, key)
    ensures var after := Applied(images, t, table);
            forall id :: id in after && Known(after[id], t) ==> after[id].key != key
  {
    var after := Applied(images, t, table);
    forall id | id in after && Known(after[id], t)
      ensures after[id].key != key
    {
      KnownRowIsDelivered(images, latest, t, table, id);
      AppliedAt(images, t, table, id);
    }
  }

  /** A delivery no older than any before it can be asked for, at its own date, exactly when no row it
      has to add is already recorded under that date.  A newer date has no such row. */
  lemma AnswersItsOwnDate(images: Images, latest: Date, t: Date, table: Table)
    requires Sound(images, latest) && latest <= t
    ensures Answers(Applied(images, t, table), t, table) <==> forall key :: !Collides(images, t, table, key)
  {
    if key :| Collides(images, t, table, key) {
      CollisionLosesTheRow(images, latest, t, table, key);
    } else {
      NoCollisionAnswers(images, latest, t, table);
    }
  }

  lemma NewerDateNeverCollides(images: Images, latest: Date, t: Date, table: Table)
    requires Sound(images, latest) && latest < t
    ensures forall key :: !Collides(images, t, table, key)
  {
  }

  /** A delivery of what is already on record, whatever its date, changes no image. */
  lemma RedeliveryChangesNothing(images: Images, latest: Date, t: Date, table: Table)
    requires Sound(images, latest) && latest <= t && Answers(images, latest, table)
    ensures ClosedIds(images, table) == {} && AddedKeys(images, table) == {} && Applied(images, t, table) == images
  {
    hide Applied;
    assert forall id :: id in images && Open(images[id]) ==> Known(images[id], latest);
    assert forall id :: id in images && Known(images[id], latest) ==> Open(images[id]);
    forall key | key in table
      ensures OnRecord(images, key, Sha(table[key]))
    {
      var id :| id in images && Known(images[id], latest) && images[id].key == key;
    }
    forall id
      ensures id in Applied(images, t, table) <==> id in images
      ensures id in images ==> Applied(images, t, table)[id] == images[id]
    {
      AppliedAt(images, t, table, id);
    }
  }

  /** Applying the same delivery again changes no image, even after a collision. */
  lemma AppliedTwiceIsAppliedOnce(images: Images, latest: Date, t: Date, table: Table)
    requires Sound(images, latest) && latest <= t
    ensures Applied(Applied(images, t, table), t, table) == Applied(images, t, table)
  {
    hide Applied;
    var once := Applied(images, t, table);
    SoundStep(images, latest, t, table);
    forall id | id in once && Open(once[id])
      ensures id !in ClosedIds(once, table)
    {
      KnownRowIsDelivered(images, latest, t, table, id);
    }
    forall key | key in AddedKeys(once, table)
      ensures ImageId(key, t) in once
    {
      AppliedAt(images, t, table, ImageId(key, t));
      if key !in AddedKeys(images, table) {
        var id :| id in images && Open(images[id]) && images[id].key == key && images[id].digest == Sha(table[key]);
        AppliedAt(images, t, table, id);
      }
    }
    forall id
      ensures id in Applied(once, t, table) <==> id in once
      ensures id in once ==> Applied(once, t, table)[id] == once[id]
    {
      AppliedAt(once, t, table, id);
    }
  }

  // ----- counts

  function OpenIds(images: Images): set<ImageId> {
    set id | id in images && Open(images[id])
  }

  lemma IdsCount(keys: set<string>, t: Date)
    ensures |Ids(keys, t)| == |keys|
  {
    if keys != {} {
      var key :| key in keys;
      IdsCount(keys - {key}, t);
      assert Ids(keys, t) == Ids(keys - {key}, t) + {ImageId(key, t)};
    }
  }

  lemma AddedIdsAreNew(images: Images, t: Date, table: Table)
    requires forall key :: !Collides(images, t, table, key)
    ensures Ids(AddedKeys(images, table), t) !! images.Keys
  {
    forall id | id in Ids(AddedKeys(images, table), t)
      ensures id !in images
    {
      assert id == ImageId(id.key, t) && !Collides(images, t, table, id.key);
    }
  }

  lemma OpenIdsAfter(images: Images, t: Date, table: Table)
    requires forall key :: !Collides(images, t, table, key)
    ensures OpenIds(Applied(images, t, table)) ==
            OpenIds(images) - ClosedIds(images, table) + Ids(AddedKeys(images, table), t)
  {
    AddedIdsAreNew(images, t, table);
    var added, closed, after := Ids(AddedKeys(images, table), t), ClosedIds(images, table), Applied(images, t, table);
    forall id
      ensures id in OpenIds(after) <==> id in OpenIds(images) - closed + added
    {
      AppliedAt(images, t, table, id);
    }
  }

  lemma CountAfter(before: set<ImageId>, closed: set<ImageId>, added: set<ImageId>)
    requires closed <= before && added !! before
    ensures |before - closed + added| == |before| + |added| - |closed|
  {
    assert before == (before - closed) + closed;
    assert |before| == |before - closed| + |closed|;
  }

  /** Each added row creates an image under a fresh id, and the open images after are those before,
      plus the added ones, less the closed ones. */
  lemma OpenImagesAreConserved(images: Images, t: Date, table: Table)
    requires forall key :: !Collides(images, t, table, key)
    ensures Ids(AddedKeys(images, table), t) !! images.Keys
    ensures |OpenIds(Applied(images, t, table))| ==
            |OpenIds(images)| + |AddedKeys(images, table)| - |ClosedIds(images, table)|
  {
    AddedIdsAreNew(images, t, table);
    OpenIdsAfter(images, t, table);
    IdsCount(AddedKeys(images, table), t);
    CountAfter(OpenIds(images), ClosedIds(images, table), Ids(AddedKeys(images, table), t));
  }

  // ----- whole runs

  datatype History = History(store: Store, accepted: seq<Delivery>)

  /** A run over any attempts: refused ones leave the store alone. */
  function Run(attempts: seq<Delivery>): History {
    if attempts == [] then History(Store(map[], {}), [])
    else
      var before := Run(attempts[..|attempts| - 1]);
      var d := attempts[|attempts| - 1];
      match Step(before.store, d)
      case Err(_) => before
      case Ok(store) => History(store, before.accepted + [d])
  }

  /** A date is redelivered only with the same table. */
  ghost predicate Consistent(log: seq<Delivery>) {
    forall d, e :: d in log && e in log && d.t == e.t ==> d.table == e.table
  }

  ghost predicate InOrder(log: seq<Delivery>) {
    forall i, j :: 0 <= i < j < |log| ==> log[i].t <= log[j].t
  }

  /** Delivery `i` is the latest at or before `tau`: of the latest date, and of that date the last. */
  ghost predicate IsLatest(log: seq<Delivery>, tau: Date, i: nat) {
    && i < |log| && log[i].t <= tau
    && forall j :: 0 <= j < |log| && log[j].t <= tau ==> log[j].t < log[i].t || (log[j].t == log[i].t && j <= i)
  }

  /** Asked as known at any date, the history answers with the latest table accepted for a date at or
      before it. */
  ghost predicate Right(h: History) {
    forall tau, i: nat :: IsLatest(h.accepted, tau, i) ==> Answers(h.store.images, tau, h.accepted[i].table)
  }

  ghost predicate UpTo(markers: set<Date>, t: Date) {
    forall m :: m in markers ==> m <= t
  }

  /** What every run keeps: the markers are the accepted dates, the images are sound as of the newest of
      them, and while there is no image only empty tables have been accepted. */
  ghost predicate Kept(h: History) {
    && (forall m :: m in h.store.markers <==> exists d :: d in h.accepted && d.t == m)
    && (forall t :: UpTo(h.store.markers, t) ==> Sound(h.store.images, t))
    && (h.store.images == map[] ==> forall d :: d in h.accepted ==> d.table == map[])
  }

  lemma {:induction false} LatestExists(log: seq<Delivery>, tau: Date, k: nat) returns (i: nat)
    requires k < |log| && log[k].t <= tau
    ensures IsLatest(log, tau, i) && log[k].t <= log[i].t
    decreases |log|
  {
    var rest, last := log[..|log| - 1], |log| - 1;
    if k == last && forall j :: 0 <= j < last && log[j].t <= tau ==> log[j].t <= log[last].t {
      i := last;
    } else {
      var j: nat := k;
      if k == last {
        j :| 0 <= j < last && log[j].t <= tau && log[j].t > log[last].t;
      }
      i := LatestExists(rest, tau, j);
      if log[last].t <= tau && log[last].t >= log[i].t {
        i := last;
      }
    }
  }

  lemma AppliedIsEmptyIff(images: Images, t: Date, table: Table)
    ensures Applied(images, t, table) == map[] <==> images == map[] && table == map[]
  {
    AppliedEverywhere(images, t, table);
    if id :| id in images {
      assert Turns(images, t, table, AddedKeys(images, table), ClosedIds(images, table), Applied(images, t, table), id);
    } else if key :| key in table {
      assert key in AddedKeys(images, table);
      var id := ImageId(key, t);
      assert Turns(images, t, table, AddedKeys(images, table), ClosedIds(images, table), Applied(images, t, table), id);
    }
  }

  lemma MarkersGrow(h: History, d: Delivery)
    requires forall m :: m in h.store.markers <==> exists e :: e in h.accepted && e.t == m
    ensures forall m :: m in h.store.markers + {d.t} <==> exists e :: e in h.accepted + [d] && e.t == m
  {
    forall m
      ensures m in h.store.markers + {d.t} <==> exists e :: e in h.accepted + [d] && e.t == m
    {
      if e :| e in h.accepted && e.t == m {
        assert e in h.accepted + [d];
      }
      assert d in h.accepted + [d];
    }
  }

  /** An accepted delivery keeps the soundness of the run, whatever it holds. */
  lemma StepIsKept(h: History, d: Delivery)
    requires Kept(h) && Step(h.store, d).Ok?
    ensures Kept(History(Step(h.store, d).value, h.accepted + [d]))
  {
    hide Sound, Applied;
    var images, after := h.store.images, Applied(h.store.images, d.t, d.table);
    MarkersGrow(h, d);
    AppliedIsEmptyIff(images, d.t, d.table);
    forall t | UpTo(h.store.markers + {d.t}, t)
      ensures Sound(after, t)
    {
      assert d.t in h.store.markers + {d.t};
      if images == map[] {
        NothingIsSound(d.t);
      } else {
        assert UpTo(h.store.markers, d.t);
      }
      SoundStep(images, d.t, d.t, d.table);
      SoundLater(after, d.t, t);
    }
  }

  lemma NothingIsSound(t: Date)
    ensures Sound(map[], t)
  {
  }

  lemma SoundLater(images: Images, latest: Date, t: Date)
    requires Sound(images, latest) && latest <= t
    ensures Sound(images, t)
  {
  }

  /** Every run keeps its history sound, with no assumption on what is delivered. */
  lemma {:induction false} RunsAreKept(attempts: seq<Delivery>)
    ensures Kept(Run(attempts))
    decreases |attempts|
  {
    if attempts != [] {
      var rest, d := attempts[..|attempts| - 1], attempts[|attempts| - 1];
      RunsAreKept(rest);
      if Step(Run(rest).store, d).Ok? {
        StepIsKept(Run(rest), d);
      }
    }
  }

  /** After a delivery no older than any before it, the latest is the same as before for earlier dates,
      and this delivery from its own date on. */
  lemma LatestAfter(log: seq<Delivery>, d: Delivery, tau: Date)
    requires forall f :: f in log ==> f.t <= d.t
    ensures tau < d.t ==> forall i: nat :: IsLatest(log + [d], tau, i) <==> IsLatest(log, tau, i)
    ensures tau >= d.t ==> forall i: nat :: IsLatest(log + [d], tau, i) <==> i == |log|
  {
    var more := log + [d];
    assert more[|log|] == d && forall j :: 0 <= j < |log| ==> more[j] == log[j] && more[j] in log;
  }

  lemma MarkersBound(h: History, t: Date)
    requires Kept(h) && UpTo(h.store.markers, t)
    ensures (forall d :: d in h.accepted ==> d.t <= t) && Sound(h.store.images, t)
  {
    assert forall d :: d in h.accepted ==> d.t in h.store.markers;
  }

  /** One accepted delivery that is no older than any before it: the history stays right exactly when no
      row it adds finds its id already taken. */
  lemma NextIsRightIff(h: History, d: Delivery)
    requires Kept(h) && Right(h) && UpTo(h.store.markers, d.t)
    ensures Right(History(Step(h.store, d).value, h.accepted + [d])) <==>
              forall key :: !Collides(h.store.images, d.t, d.table, key)
  {
    hide Applied, Answers, Sound, Collides, Kept;
    var log, images := h.accepted, h.store.images;
    var after := Applied(images, d.t, d.table);
    MarkersBound(h, d.t);
    LatestAfter(log, d, d.t);
    AnswersItsOwnDate(images, d.t, d.t, d.table);
    if forall key :: !Collides(images, d.t, d.table, key) {
      SoundStep(images, d.t, d.t, d.table);
      forall tau, i: nat | IsLatest(log + [d], tau, i)
        ensures Answers(after, tau, (log + [d])[i].table)
      {
        LatestAfter(log, d, tau);
        if tau < d.t {
          LatestInBounds(log, tau, i);
          PastAnswersStand(images, d.t, d.table, tau, log[i].table);
        } else {
          FutureIsThePresent(after, d.t, tau, d.table);
        }
      }
    } else {
      assert !Answers(after, d.t, (log + [d])[|log|].table);
    }
  }

  lemma LatestInBounds(log: seq<Delivery>, tau: Date, i: nat)
    requires IsLatest(log, tau, i)
    ensures i < |log|
  {
  }

  /** When a date is redelivered only with the same table, no id is taken, and intervals stay strict. */
  lemma ConsistentNeverCollides(h: History, d: Delivery)
    requires Kept(h) && Right(h) && Strict(h.store.images)
    requires Consistent(h.accepted + [d]) && UpTo(h.store.markers, d.t)
    ensures forall key :: !Collides(h.store.images, d.t, d.table, key)
    ensures Strict(Applied(h.store.images, d.t, d.table))
  {
    hide Applied, Answers, Sound, Strict, Consistent, IsLatest;
    var log, images := h.accepted, h.store.images;
    MarkersBound(h, d.t);
    if k: nat :| k < |log| && log[k].t == d.t {
      var i := LatestExists(log, d.t, k);
      LatestInBounds(log, d.t, i);
      assert log[i] in log;
      SameTable(log, log[i], d);
      RedeliveryChangesNothing(images, d.t, d.t, d.table);
    } else {
      assert UpTo(h.store.markers, d.t - 1);
      StrictStep(images, d.t - 1, d.t, d.table);
      NewerDateNeverCollides(images, d.t - 1, d.t, d.table);
    }
  }

  lemma SameTable(log: seq<Delivery>, e: Delivery, d: Delivery)
    requires Consistent(log + [d]) && e in log && e.t == d.t
    ensures e.table == d.table
  {
    assert e in log + [d] && d in log + [d];
  }

  // ----- the deliveries before the first image

  /** Attempt `j` is the first that holds a row. */
  ghost predicate FirstHolding(attempts: seq<Delivery>, j: nat) {
    j < |attempts| && attempts[j].table != map[] && forall i :: 0 <= i < j ==> attempts[i].table == map[]
  }

  /** What a caller can check: the first snapshot that holds a row is not older than an empty one
      delivered before it. */
  ghost predicate StartsInOrder(attempts: seq<Delivery>) {
    forall i: nat, j: nat :: i < j && FirstHolding(attempts, j) ==> attempts[i].t <= attempts[j].t
  }

  /** Until a snapshot holds a row every attempt is accepted, and there is no image. */
  lemma {:induction false} EmptyRun(attempts: seq<Delivery>)
    requires forall d :: d in attempts ==> d.table == map[]
    ensures Run(attempts).store.images == map[] && Run(attempts).accepted == attempts
    decreases |attempts|
  {
    hide Step;
    if attempts != [] {
      var rest, d := attempts[..|attempts| - 1], attempts[|attempts| - 1];
      EmptyRun(rest);
      StepKeepsImages(Run(rest).store, d);
    }
  }

  /** The images of a run are empty exactly when every attempt was. */
  lemma {:induction false} NoImagesIff(attempts: seq<Delivery>)
    ensures Run(attempts).store.images == map[] <==> forall d :: d in attempts ==> d.table == map[]
    decreases |attempts|
  {
    if attempts != [] {
      var rest, d := attempts[..|attempts| - 1], attempts[|attempts| - 1];
      NoImagesIff(rest);
      AppliedIsEmptyIff(Run(rest).store.images, d.t, d.table);
      assert forall e :: e in attempts <==> e in rest || e == d;
    }
  }

  /** An empty snapshot delivered before the first image is answered right at every date. */
  lemma EmptyIsRight(h: History)
    requires h.store.images == map[] && forall d :: d in h.accepted ==> d.table == map[]
    ensures Right(h) && Strict(h.store.images)
  {
  }

  lemma PrefixStartsInOrder(attempts: seq<Delivery>, n: nat)
    requires n <= |attempts| && StartsInOrder(attempts)
    ensures StartsInOrder(attempts[..n])
  {
    forall i: nat, j: nat | i < j && FirstHolding(attempts[..n], j)
      ensures attempts[..n][i].t <= attempts[..n][j].t
    {
      assert forall k :: 0 <= k < n ==> attempts[..n][k] == attempts[k];
      assert FirstHolding(attempts, j);
    }
  }

  lemma AcceptedGrows(attempts: seq<Delivery>)
    requires attempts != [] && Consistent(Run(attempts).accepted)
    ensures Consistent(Run(attempts[..|attempts| - 1]).accepted)
  {
    var before := Run(attempts[..|attempts| - 1]).accepted;
    assert forall d :: d in before ==> d in Run(attempts).accepted;
  }

  lemma MarkersAreDates(attempts: seq<Delivery>)
    ensures forall m :: m in Run(attempts).store.markers ==> exists d :: d in Run(attempts).accepted && d.t == m
  {
    RunsAreKept(attempts);
  }

  /** The delivery that follows: with images on record it is not older than any before it, being
      accepted; without, either it is empty or it is the first to hold a row. */
  lemma LastIsInOrder(attempts: seq<Delivery>)
    requires attempts != [] && StartsAt(attempts, |attempts| - 1)
    requires var h, d := Run(attempts[..|attempts| - 1]), attempts[|attempts| - 1];
             Kept(h) && Step(h.store, d).Ok? && (h.store.images != map[] || d.table != map[])
    ensures UpTo(Run(attempts[..|attempts| - 1]).store.markers, attempts[|attempts| - 1].t)
  {
    hide Run, Kept, Applied;
    MarkersAreDates(attempts[..|attempts| - 1]);
    var n := |attempts| - 1;
    var rest, d := attempts[..n], attempts[n];
    if Run(rest).store.images == map[] {
      NoImagesIff(rest);
      EmptyRun(rest);
      assert forall i :: 0 <= i < n ==> attempts[i] in rest;
      assert FirstHolding(attempts, n);
      forall m | m in Run(rest).store.markers
        ensures m <= d.t
      {
        var e :| e in rest && e.t == m;
        var i :| 0 <= i < n && attempts[i] == e;
      }
    }
  }

  /** The main theorem.  After any run that redelivers a date only with the same table, and whose first
      snapshot to hold a row is not older than an empty one before it: asking as known at any date gives
      back exactly the latest table accepted for a date at or before it, and the recording intervals of
      each key are non-empty, disjoint, and change digest where they abut. */
  lemma {:induction false} RunsAnswerWhatWasDelivered(attempts: seq<Delivery>)
    requires StartsInOrder(attempts) && Consistent(Run(attempts).accepted)
    ensures Kept(Run(attempts)) && Right(Run(attempts)) && Strict(Run(attempts).store.images)
    decreases |attempts|
  {
    hide StartsInOrder, Consistent, Kept, Right, Strict, Applied, Collides;
    RunsAreKept(attempts);
    if attempts == [] {
      EmptyIsRight(Run(attempts));
    } else {
      var rest, d := attempts[..|attempts| - 1], attempts[|attempts| - 1];
      var before := Run(rest);
      PrefixStartsInOrder(attempts, |attempts| - 1);
      AcceptedGrows(attempts);
      RunsAnswerWhatWasDelivered(rest);
      if Step(before.store, d).Ok? {
        if before.store.images == map[] && d.table == map[] {
          NoImagesIff(rest);
          assert forall e :: e in attempts <==> e in rest || e == d;
          EmptyRun(attempts);
          EmptyIsRight(Run(attempts));
        } else {
          StartsInOrderStep(attempts);
          LastIsInOrder(attempts);
          ConsistentNeverCollides(before, d);
          NextIsRightIff(before, d);
        }
      }
    }
  }

  /** Read out of the main theorem: from the first accepted date on there is an answer, and it is right. */
  lemma AsKnownAt(attempts: seq<Delivery>, tau: Date, first: nat) returns (i: nat)
    requires StartsInOrder(attempts) && Consistent(Run(attempts).accepted)
    requires first < |Run(attempts).accepted| && Run(attempts).accepted[first].t <= tau
    ensures IsLatest(Run(attempts).accepted, tau, i)
    ensures Answers(Run(attempts).store.images, tau, Run(attempts).accepted[i].table)
  {
    RunsAnswerWhatWasDelivered(attempts);
    i := LatestExists(Run(attempts).accepted, tau, first);
  }

  /** A snapshot that is the first to hold a row, but older than an empty one before it, makes the
      history answer wrongly at that empty one's date. */
  lemma LateStartIsWrong(attempts: seq<Delivery>, i: nat, j: nat)
    requires i < j && FirstHolding(attempts, j) && attempts[j].t < attempts[i].t
    ensures !Right(Run(attempts[..j + 1]))
  {
    hide Applied, Answers, Run;
    var rest, d, e := attempts[..j], attempts[j], attempts[i];
    assert forall f :: f in rest ==> f.table == map[];
    EmptyRun(rest);
    assert attempts[..j + 1] == rest + [d];
    OneMoreAttempt(rest, d);
    assert rest[i] == e;
    var k := LatestExists(rest + [d], e.t, i);
    assert k < j && (rest + [d])[k] in rest;
    var key :| key in d.table;
    FirstRowIsKnown(d.t, d.table, key, e.t);
    RowDeniesEmpty(Applied(map[], d.t, d.table), e.t, ImageId(key, d.t));
  }

  lemma RowDeniesEmpty(images: Images, tau: Date, id: ImageId)
    requires id in images && Known(images[id], tau)
    ensures !Answers(images, tau, map[])
  {
  }

  lemma FirstRowIsKnown(t: Date, table: Table, key: string, tau: Date)
    requires key in table && t <= tau
    ensures ImageId(key, t) in Applied(map[], t, table) && Known(Applied(map[], t, table)[ImageId(key, t)], tau)
  {
    assert key in AddedKeys(map[], table);
    AppliedAt(map[], t, table, ImageId(key, t));
  }

  /** The run is right after each of its attempts. */
  ghost predicate RightThroughout(attempts: seq<Delivery>) {
    forall n: nat :: n <= |attempts| ==> Right(Run(attempts[..n]))
  }

  /** No accepted attempt has to add a row whose id is already taken. */
  ghost predicate NeverCollides(attempts: seq<Delivery>) {
    forall n: nat :: n < |attempts| ==> NoCollisionAt(attempts, n)
  }

  /** What a caller can check before attempt `n`. */
  ghost predicate NoCollisionAt(attempts: seq<Delivery>, n: nat)
    requires n < |attempts|
  {
    var store, d := Run(attempts[..n]).store, attempts[n];
    Step(store, d).Ok? ==> forall key :: !Collides(store.images, d.t, d.table, key)
  }

  lemma ThroughoutStep(attempts: seq<Delivery>)
    requires attempts != []
    ensures RightThroughout(attempts) <==> RightThroughout(attempts[..|attempts| - 1]) && Right(Run(attempts))
  {
    hide Right, Run;
    var rest := attempts[..|attempts| - 1];
    assert attempts[..|attempts|] == attempts;
    if RightThroughout(attempts) {
      forall n: nat | n <= |rest|
        ensures Right(Run(rest[..n]))
      {
        assert rest[..n] == attempts[..n];
      }
    }
    if RightThroughout(rest) && Right(Run(attempts)) {
      forall n: nat | n <= |attempts|
        ensures Right(Run(attempts[..n]))
      {
        if n < |attempts| {
          assert rest[..n] == attempts[..n];
        }
      }
    }
  }

  lemma NeverCollidesStep(attempts: seq<Delivery>)
    requires attempts != []
    ensures NeverCollides(attempts) <==>
              NeverCollides(attempts[..|attempts| - 1]) && NoCollisionAt(attempts, |attempts| - 1)
  {
    hide Run, Step, Collides;
    var rest := attempts[..|attempts| - 1];
    assert forall n: nat :: n < |rest| ==> rest[..n] == attempts[..n];
    assert forall n: nat :: n < |rest| ==> (NoCollisionAt(rest, n) <==> NoCollisionAt(attempts, n));
  }

  lemma StartsInOrderStep(attempts: seq<Delivery>)
    requires attempts != []
    ensures StartsInOrder(attempts) <==>
              StartsInOrder(attempts[..|attempts| - 1]) && StartsAt(attempts, |attempts| - 1)
  {
    var n := |attempts| - 1;
    assert forall k :: 0 <= k < n ==> attempts[..n][k] == attempts[k];
    assert forall j: nat :: j < n ==> (FirstHolding(attempts[..n], j) <==> FirstHolding(attempts, j));
  }

  ghost predicate StartsAt(attempts: seq<Delivery>, j: nat) {
    FirstHolding(attempts, j) ==> forall i: nat :: i < j ==> attempts[i].t <= attempts[j].t
  }

  /** One more attempt on a run that is right. */
  lemma OneMoreIsRightIff(attempts: seq<Delivery>)
    requires attempts != [] && Kept(Run(attempts[..|attempts| - 1])) && Right(Run(attempts[..|attempts| - 1]))
    ensures Right(Run(attempts)) <==> StartsAt(attempts, |attempts| - 1) && NoCollisionAt(attempts, |attempts| - 1)
  {
    hide Right, Kept, Applied, FirstHolding, Run, Step;
    var n := |attempts| - 1;
    var rest, d := attempts[..n], attempts[n];
    var h := Run(rest);
    assert attempts == rest + [d];
    OneMoreAttempt(rest, d);
    NoImagesIff(rest);
    StepKeepsImages(h.store, d);
    HoldsIff(attempts);
    if h.store.images == map[] && d.table == map[] {
      EmptyRun(attempts);
      EmptyIsRight(Run(attempts));
    } else if i: nat :| i < n && FirstHolding(attempts, n) && attempts[i].t > d.t {
      LateStartIsWrong(attempts, i, n);
      assert attempts[..n + 1] == attempts;
    } else if Step(h.store, d).Ok? {
      LastIsInOrder(attempts);
      NextIsRightIff(h, d);
    }
  }

  lemma HoldsIff(attempts: seq<Delivery>)
    requires attempts != []
    ensures FirstHolding(attempts, |attempts| - 1) <==>
              attempts[|attempts| - 1].table != map[] && Run(attempts[..|attempts| - 1]).store.images == map[]
  {
    var rest := attempts[..|attempts| - 1];
    NoImagesIff(rest);
    assert forall i :: 0 <= i < |rest| ==> rest[i] == attempts[i] && rest[i] in rest;
  }

  /** Exactly when a run is right after each attempt, with no assumption on what is delivered: when its
      first snapshot to hold a row is not older than an empty one before it, and no accepted attempt has
      to add a row whose id an earlier delivery of the same date has taken. */
  lemma {:induction false} RightThroughoutIff(attempts: seq<Delivery>)
    ensures RightThroughout(attempts) <==> StartsInOrder(attempts) && NeverCollides(attempts)
    decreases |attempts|
  {
    hide Right, Run, StartsAt, NoCollisionAt;
    if attempts == [] {
      EmptyRun([]);
      EmptyIsRight(Run([]));
    } else {
      var rest := attempts[..|attempts| - 1];
      RightThroughoutIff(rest);
      ThroughoutStep(attempts);
      NeverCollidesStep(attempts);
      StartsInOrderStep(attempts);
      RunsAreKept(rest);
      if RightThroughout(rest) {
        assert rest[..|rest|] == rest;
        OneMoreIsRightIff(attempts);
      }
    }
  }

  /** The deliveries up to and including the first that holds a row are each no older than those before. */
  ghost predicate LeadsInOrder(attempts: seq<Delivery>) {
    forall i: nat, j: nat :: i < j < |attempts| && Leads(attempts, j) ==> attempts[i].t <= attempts[j].t
  }

  ghost predicate Leads(attempts: seq<Delivery>, j: nat) {
    j < |attempts| && forall i :: 0 <= i < j ==> attempts[i].table == map[]
  }

  /** The log of accepted deliveries is in date order exactly when its beginning is: after the first
      image an older snapshot is refused. */
  lemma {:induction false} OrderIsKeptIff(attempts: seq<Delivery>)
    ensures InOrder(Run(attempts).accepted) <==> LeadsInOrder(attempts)
    decreases |attempts|
  {
    hide Applied, Kept, InOrder, LeadsInOrder, Leads;
    if attempts == [] {
      WhileEmpty(attempts);
    } else {
      var rest, d := attempts[..|attempts| - 1], attempts[|attempts| - 1];
      OrderIsKeptIff(rest);
      RunsAreKept(rest);
      NoImagesIff(rest);
      if Run(rest).store.images == map[] {
        EmptyRun(rest);
        assert Run(attempts).accepted == attempts;
        WhileEmpty(attempts);
      } else {
        LeadsNoMore(attempts);
        if Step(Run(rest).store, d).Ok? {
          MarkersBound(Run(rest), d.t);
          InOrderGrows(Run(rest).accepted, d);
        }
      }
    }
  }

  lemma WhileEmpty(attempts: seq<Delivery>)
    requires attempts == [] || forall d :: d in attempts[..|attempts| - 1] ==> d.table == map[]
    ensures InOrder(attempts) <==> LeadsInOrder(attempts)
  {
    assert forall i :: 0 <= i < |attempts| - 1 ==> attempts[i] in attempts[..|attempts| - 1];
    assert forall j: nat :: j < |attempts| ==> Leads(attempts, j);
  }

  lemma LeadsNoMore(attempts: seq<Delivery>)
    requires attempts != [] && exists d :: d in attempts[..|attempts| - 1] && d.table != map[]
    ensures LeadsInOrder(attempts) <==> LeadsInOrder(attempts[..|attempts| - 1])
  {
    var n := |attempts| - 1;
    var e :| e in attempts[..n] && e.table != map[];
    var k :| 0 <= k < n && attempts[k] == e;
    assert !Leads(attempts, n);
    LeadsStep(attempts);
  }

  lemma LeadsStep(attempts: seq<Delivery>)
    requires attempts != []
    ensures var n := |attempts| - 1;
            LeadsInOrder(attempts) <==>
              LeadsInOrder(attempts[..n])
                  && (Leads(attempts, n) ==> forall i: nat :: i < n ==> attempts[i].t <= attempts[n].t)
  {
    var n := |attempts| - 1;
    var rest := attempts[..n];
    assert forall k :: 0 <= k < n ==> rest[k] == attempts[k];
    assert forall j: nat :: j < n ==> (Leads(rest, j) <==> Leads(attempts, j));
  }

  lemma InOrderGrows(log: seq<Delivery>, d: Delivery)
    requires forall f :: f in log ==> f.t <= d.t
    ensures InOrder(log + [d]) <==> InOrder(log)
  {
    assert forall i :: 0 <= i < |log| ==> (log + [d])[i] == log[i];
  }

  // ----- the two ways to go wrong, concretely

  /** An empty snapshot, then an older one that holds a row: accepted, and the newer date is answered
      with the older table. */
  lemma EmptyFirstSnapshotLosesOrder()
    ensures var attempts := [Delivery(5, map[]), Delivery(3, map["m1" := [Some("ada")]])];
            && Run(attempts).accepted == attempts && Consistent(attempts)
            && !StartsInOrder(attempts) && !InOrder(attempts) && !Right(Run(attempts))
  {
    hide Right, Applied, Run;
    var late := Delivery(3, map["m1" := [Some("ada")]]);
    var attempts := [Delivery(5, map[]), late];
    assert attempts[..1] == [attempts[0]] && attempts[..2] == attempts && attempts == attempts[..1] + [late];
    EmptyRun(attempts[..1]);
    OneMoreAttempt(attempts[..1], late);
    assert "m1" in late.table;
    assert FirstHolding(attempts, 1);
    assert attempts[0].t > attempts[1].t;
    LateStartIsWrong(attempts, 0, 1);
  }

  const ADA: Table := map["m1" := [Some("ada")]]
  const BEN: Table := map["m1" := [Some("ben")]]

  /** One date delivered twice, with two contents for one key: both are accepted, the second collides, and
      the key is then known under no image at all. */
  lemma SecondTableOfADateIsLost()
    ensures var attempts := [Delivery(1, ADA), Delivery(1, BEN)];
            var once, twice := Run(attempts[..1]).store.images, Run(attempts).store.images;
            && Run(attempts).accepted == attempts
            && Collides(once, 1, BEN, "m1")
            && !Answers(twice, 1, BEN)
            && forall id, tau :: id in twice && twice[id].key == "m1" ==> !Known(twice[id], tau)
  {
    hide Applied, Sound;
    var attempts := [Delivery(1, ADA), Delivery(1, BEN)];
    assert attempts == attempts[..1] + [Delivery(1, BEN)] && attempts[..1] == [] + [Delivery(1, ADA)];
    EmptyRun([]);
    OneMoreAttempt([], Delivery(1, ADA));
    OneMoreAttempt(attempts[..1], Delivery(1, BEN));
    RunsAreKept([]);
    var once := Applied(map[], 1, ADA);
    var twice := Applied(once, 1, BEN);
    assert Run(attempts[..1]).store == Store(once, {1});
    assert Run(attempts).store.images == twice;
    assert [Some("ada")][0] != [Some("ben")][0];
    assert "m1" in ADA && "m1" in BEN;
    NothingIsSound(1);
    SoundStep(map[], 1, 1, ADA);
    var id := ImageId("m1", 1);
    AppliedAt(map[], 1, ADA, id);
    assert "m1" in AddedKeys(map[], ADA);
    forall other | other in once && once[other].key == "m1"
      ensures once[other].digest != Sha(BEN["m1"])
    {
      AppliedAt(map[], 1, ADA, other);
    }
    assert once[id] == Fresh("m1", ADA["m1"], 1);
    forall other | other in twice && twice[other].key == "m1"
      ensures twice[other].recordedTo == Some(1) && twice[other].recordedFrom == 1
    {
      AppliedAt(map[], 1, ADA, other);
      AppliedAt(once, 1, BEN, other);
    }
    assert Collides(once, 1, BEN, "m1");
    AnswersItsOwnDate(once, 1, 1, BEN);
  }

  // ----- the graph, delivery after delivery

  datatype Batch = Batch(t: Date, rows: seq<Row>)

  /** The deliveries with distinct keys; the others are refused and leave the graph alone. */
  function WellKeyed(batches: seq<Batch>): seq<Delivery> {
    if batches == [] then []
    else
      var last := batches[|batches| - 1];
      WellKeyed(batches[..|batches| - 1]) + if UniqueKeys(last.rows) then [Delivery(last.t, TableOf(last.rows))] else []
  }

  /** Up to the first batch that holds a row, keys are distinct. */
  ghost predicate BootstrapIsWellKeyed(batches: seq<Batch>) {
    forall j :: 0 <= j < |batches| && (forall i :: 0 <= i < j ==> batches[i].rows == []) ==> UniqueKeys(batches[j].rows)
  }

  lemma NoTableIff(rows: seq<Row>)
    ensures TableOf(rows) == map[] <==> rows == []
  {
    if rows != [] {
      assert rows[|rows| - 1].key in TableOf(rows);
    }
  }

  /** One call on a graph is one attempt of the run, or, with repeated keys, none. */
  lemma OneMoreBatch(batches: seq<Batch>, b: Batch, r: Result<(nat, nat), Refusal>, after: Store)
    requires var before, d := Run(WellKeyed(batches)).store, Delivery(b.t, TableOf(b.rows));
             && (r.Err? ==> after == before)
             && (r == Err(OlderThanLatest) <==> Step(before, d).Err?)
             && (r == Err(DuplicateKeys) ==> !UniqueKeys(b.rows))
             && (r.Ok? ==> UniqueKeys(b.rows) && Step(before, d) == Ok(after))
    ensures after == Run(WellKeyed(batches + [b])).store
  {
    hide Run, UniqueKeys, Step;
    assert (batches + [b])[..|batches|] == batches;
    OneMoreAttempt(WellKeyed(batches), Delivery(b.t, TableOf(b.rows)));
    assert WellKeyed(batches) + [] == WellKeyed(batches);
    assert r.Err? ==> r.error.OlderThanLatest? || r.error.DuplicateKeys?;
  }

  lemma OneMoreAttempt(attempts: seq<Delivery>, d: Delivery)
    ensures Run(attempts + [d]) ==
            match Step(Run(attempts).store, d)
            case Err(_) => Run(attempts)
            case Ok(store) => History(store, Run(attempts).accepted + [d])
  {
    assert (attempts + [d])[..|attempts|] == attempts;
  }

  /** In a kept history at most one image per key is open, as the delivery code needs. */
  lemma KeptMeansOneOpen(h: History, top: Date)
    requires Kept(h) && UpTo(h.store.markers, top)
    ensures OneOpenPerKey(h.store.images)
  {
    SoundMeansOneOpen(h.store.images, top);
  }

  lemma {:induction false} BoundOf(markers: set<Date>) returns (top: Date)
    ensures UpTo(markers, top)
    decreases markers
  {
    if m :| m in markers {
      var rest := BoundOf(markers - {m});
      assert forall x :: x in markers ==> x == m || x in markers - {m};
      top := if rest < m then m else rest;
    } else {
      top := 0;
    }
  }

  lemma StepKeepsImages(store: Store, d: Delivery)
    ensures Step(store, d).Err? ==> store.images != map[]
    ensures Step(store, d).Ok? ==> (Step(store, d).value.images == map[] <==> store.images == map[] && d.table == map[])
  {
    AppliedIsEmptyIff(store.images, d.t, d.table);
  }

  lemma GraphAnswers(attempts: seq<Delivery>, store: Store)
    requires store == Run(attempts).store
    ensures Kept(Run(attempts))
    ensures StartsInOrder(attempts) && Consistent(Run(attempts).accepted) ==>
              Right(History(store, Run(attempts).accepted)) && Strict(store.images)
  {
    hide *;
    RunsAreKept(attempts);
    if StartsInOrder(attempts) && Consistent(Run(attempts).accepted) {
      RunsAnswerWhatWasDelivered(attempts);
    }
  }

  lemma NoBatches()
    ensures WellKeyed([]) == [] && Run([]).store == Store(map[], {})
  {
  }

  /** Successive deliveries to a graph that starts empty.  What they leave is the run over those with
      distinct keys, so the main theorem is about the graph itself. */
  method ApplyAll(graph: Graph, batches: seq<Batch>)
    requires graph.images == map[] && graph.markers == {} && BootstrapIsWellKeyed(batches)
    modifies graph
    ensures graph.State() == Run(WellKeyed(batches)).store
    ensures Kept(Run(WellKeyed(batches)))
    ensures StartsInOrder(WellKeyed(batches)) && Consistent(Run(WellKeyed(batches)).accepted) ==>
              Right(History(graph.State(), Run(WellKeyed(batches)).accepted)) && Strict(graph.images)
  {
    hide Kept, Right, StartsInOrder, Consistent, Strict, Applied, UniqueKeys, OneOpenPerKey, WellKeyed, Run, Step;
    EmptyRun([]);
    NoBatches();
    for k := 0 to |batches|
      invariant graph.State() == Run(WellKeyed(batches[..k])).store
      invariant graph.images == map[] ==> forall i :: 0 <= i < k ==> batches[i].rows == []
    {
      var b := batches[k];
      assert batches[..k + 1] == batches[..k] + [b];
      RunsAreKept(WellKeyed(batches[..k]));
      ghost var top := BoundOf(graph.markers);
      KeptMeansOneOpen(Run(WellKeyed(batches[..k])), top);
      NoTableIff(b.rows);
      StepKeepsImages(graph.State(), Delivery(b.t, TableOf(b.rows)));
      var r := graph.ApplySnapshot(b.t, b.rows);
      assert r.Err? ==> r.error.OlderThanLatest? || r.error.DuplicateKeys?;
      OneMoreBatch(batches[..k], b, r, graph.State());
    }
    assert batches[..|batches|] == batches;
    GraphAnswers(WellKeyed(batches), graph.State());
  }
}
