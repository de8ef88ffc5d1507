/** The object index of the deken proxy (`ObjectSearch`): object name -> the files that
    provide it. Only the retraction of a file that has gone missing does anything. */
module ObjectSearch {
  import opened Wrappers

  /** `ObjectSearch.db`: object name -> files (a Python set per name). */
  datatype ObjectIndex = ObjectIndex(db: map<string, set<string>>)

  /** `ObjectSearch()`: no objects yet. */
  const Empty := ObjectIndex(map[])

  /** Lines 48-50: discard `filename` from every bucket. Buckets that become empty stay. */
  function Retract(idx: ObjectIndex, filename: string): (r: ObjectIndex)
    ensures r.db.Keys == idx.db.Keys
    ensures forall o | o in r.db :: filename !in r.db[o]
    ensures forall o, f | o in idx.db && f in idx.db[o] && f != filename :: f in r.db[o]
    ensures forall o | o in r.db :: r.db[o] <= idx.db[o]
  {
    ObjectIndex(map o | o in idx.db :: idx.db[o] - {filename})
  }

  /** Why a refresh did not complete. */
  datatype Failure = ReadUndefined

  /** `ObjectSearch.refresh(filename)`, with the file system reduced to whether the file
      exists. A missing file is retracted; for an existing one the body calls `read`, a name
      that is not defined, so the call raises before anything is inserted. */
  function Refresh(idx: ObjectIndex, filename: string, present: bool): (r: Result<ObjectIndex, Failure>)
    ensures r.Err? <==> present
    ensures r.Ok? ==> r.value.db.Keys == idx.db.Keys
    ensures r.Ok? ==> forall o | o in r.value.db :: filename !in r.value.db[o]
  {
    if present then Err(ReadUndefined) else Ok(Retract(idx, filename))
  }

  /** Retracting twice is retracting once. */
  lemma RetractIdempotent(idx: ObjectIndex, filename: string)
    ensures Retract(Retract(idx, filename), filename) == Retract(idx, filename)
  {
    var once := Retract(idx, filename);
    var twice := Retract(once, filename);
    forall o | o in twice.db
      ensures twice.db[o] == once.db[o]
    {
    }
    assert twice.db == once.db;
  }

  /** The order of two retractions does not matter. */
  lemma RetractCommutes(idx: ObjectIndex, a: string, b: string)
    ensures Retract(Retract(idx, a), b) == Retract(Retract(idx, b), a)
  {
    var ab := Retract(Retract(idx, a), b);
    var ba := Retract(Retract(idx, b), a);
    forall o | o in ab.db
      ensures ab.db[o] == ba.db[o]
    {
      assert ab.db[o] == idx.db[o] - {a} - {b};
    }
    assert ab.db == ba.db;
  }

  /** Retracting a file that no bucket mentions changes nothing. */
  lemma RetractUnknown(idx: ObjectIndex, filename: string)
    requires forall o | o in idx.db :: filename !in idx.db[o]
    ensures Retract(idx, filename) == idx
  {
    var r := Retract(idx, filename);
    forall o | o in idx.db
      ensures r.db[o] == idx.db[o]
    {
    }
    assert r.db == idx.db;
  }

  /** The index that `ObjectSearch()` starts with stays empty: nothing ever inserts. */
  lemma RefreshKeepsEmpty(filename: string, present: bool)
    ensures Refresh(Empty, filename, present) == (if present then Err(ReadUndefined) else Ok(Empty))
  {
    assert Retract(Empty, filename).db == map[];
  }
}
