/**
 The inventory database with its associated item-name index, and the cursors
 that walk them. Berkeley DB is modelled as a map and a set in key order:
 opened with DB_DUPSORT, the index lists the duplicates of one name in the
 order of their primary keys (MyDb.cpp).
 */
module InventoryStore {
  import opened Bytes
  import opened InventoryCodec

  datatype IndexEntry = IndexEntry(name: bytes, pkey: bytes)

  ghost predicate AllReadable(primary: map<bytes, bytes>) {
    forall k :: k in primary ==> Readable(primary[k])
  }

  // The entries `get_item_name` gives for everything stored.
  ghost function IndexOfStore(primary: map<bytes, bytes>): set<IndexEntry>
    requires AllReadable(primary)
  {
    set k | k in primary && ItemName(primary[k]).Some? :: IndexEntry(ItemName(primary[k]).value, k)
  }

  // What one stored record contributes to the index.
  function EntryFor(key: bytes, data: bytes): set<IndexEntry>
    requires Readable(data)
  {
    match ItemName(data)
    case None => {}
    case Some(name) => {IndexEntry(name, key)}
  }

  lemma InIndex(primary: map<bytes, bytes>, e: IndexEntry)
    requires AllReadable(primary)
    ensures e in IndexOfStore(primary) <==> e.pkey in primary && ItemName(primary[e.pkey]) == Some(e.name)
  {
    if e.pkey in primary && ItemName(primary[e.pkey]) == Some(e.name) {
      assert e == IndexEntry(ItemName(primary[e.pkey]).value, e.pkey);
    }
  }

  // Storing a record replaces its key's old entry by the new one and touches no other.
  lemma IndexAfterPut(primary: map<bytes, bytes>, key: bytes, data: bytes)
    requires AllReadable(primary) && Readable(data)
    ensures AllReadable(primary[key := data])
    ensures IndexOfStore(primary[key := data])
            == (if key in primary then IndexOfStore(primary) - EntryFor(key, primary[key]) else IndexOfStore(primary))
               + EntryFor(key, data)
  {
    var after := primary[key := data];
    forall e: IndexEntry
      ensures e in IndexOfStore(after) <==> e in EntryFor(key, data) || (e.pkey != key && e in IndexOfStore(primary))
    {
      InIndex(after, e);
      InIndex(primary, e);
    }
    if key in primary {
      forall e: IndexEntry
        ensures e in IndexOfStore(primary) - EntryFor(key, primary[key])
                <==> e.pkey != key && e in IndexOfStore(primary)
      {
        InIndex(primary, e);
      }
    } else {
      forall e: IndexEntry | e in IndexOfStore(primary) ensures e.pkey != key {
        InIndex(primary, e);
      }
    }
  }

  class InventoryDb {
    var primary: map<bytes, bytes>
    var secondary: set<IndexEntry>

    // The index holds one entry for each stored record, none stale and none missing.
    ghost predicate Valid()
      reads this
    {
      AllReadable(primary) && secondary == IndexOfStore(primary)
    }

    constructor ()
      ensures Valid() && primary == map[]
    {
      primary, secondary := map[], {};
    }

    /**
     A put on the associated primary: the index entry of an overwritten record
     goes, the entry of the new one comes. No entry is made where the callback
     refuses.
     */
    method Put(key: bytes, data: bytes)
      requires Valid() && Readable(data)
      modifies this
      ensures Valid()
      ensures primary == old(primary)[key := data]
    {
      IndexAfterPut(primary, key, data);
      if key in primary {
        secondary := secondary - EntryFor(key, primary[key]);
      }
      secondary := secondary + EntryFor(key, data);
      primary := primary[key := data];
    }
  }

  /* ----- Cursors ----- */

  // The keys a cursor at `pos` has not reached; an unpositioned cursor is before the first.
  function Beyond(keys: set<bytes>, pos: Option<bytes>): set<bytes> {
    set k | k in keys && (pos.None? || Less(pos.value, k))
  }

  method LeastOf(keys: set<bytes>) returns (k: bytes)
    requires keys != {}
    ensures k == Least(keys)
  {
    LeastExists(keys);
    k :| k in keys && forall x :: x in keys && x != k ==> Less(k, x);
    LeastUnique(keys, k);
  }

  // Past the least of what is left, all the rest is left.
  lemma StepBeyond(keys: set<bytes>, pos: Option<bytes>)
    requires Beyond(keys, pos) != {}
    ensures var k := Least(Beyond(keys, pos)); Beyond(keys, Some(k)) == Beyond(keys, pos) - {k}
  {
    var left := Beyond(keys, pos);
    var k := Least(left);
    LeastIsLeast(left);
    LessIrreflexive(k);
    forall x ensures x in Beyond(keys, Some(k)) <==> x in left && x != k {
      if x in keys && Less(k, x) && pos.Some? {
        LessTransitive(pos.value, k, x);
      }
    }
  }

  /** A cursor on the primary: DB_NEXT. */
  class PrimaryCursor {
    const db: InventoryDb
    var pos: Option<bytes>

    constructor (db: InventoryDb)
      ensures this.db == db && pos == None
    {
      this.db := db;
      pos := None;
    }

    method Next() returns (data: Option<bytes>)
      modifies this
      ensures data.Some? <==> Beyond(db.primary.Keys, old(pos)) != {}
      ensures data.Some? ==>
                var k := Least(Beyond(db.primary.Keys, old(pos)));
                data.value == db.primary[k] && pos == Some(k)
      ensures data.None? ==> pos == old(pos)
    {
      var left := Beyond(db.primary.Keys, pos);
      if left == {} { return None; }
      var k := LeastOf(left);
      pos := Some(k);
      return Some(db.primary[k]);
    }
  }

  // The primary keys of the index's duplicates of `name`.
  function Duplicates(secondary: set<IndexEntry>, name: bytes): set<bytes> {
    set e | e in secondary && e.name == name :: e.pkey
  }

  /** A cursor on the index: DB_SET and DB_NEXT_DUP, both of which deliver the primary record. */
  class IndexCursor {
    const db: InventoryDb
    var name: bytes
    var pos: Option<bytes>

    constructor (db: InventoryDb)
      ensures this.db == db && pos == None
    {
      this.db := db;
      name, pos := [], None;
    }

    method Set(key: bytes) returns (data: Option<bytes>)
      requires db.Valid()
      modifies this
      ensures name == key
      ensures data.Some? <==> Duplicates(db.secondary, key) != {}
      ensures data.None? ==> pos == None
      ensures data.Some? ==>
                var k := Least(Duplicates(db.secondary, key));
                k in db.primary && data.value == db.primary[k] && pos == Some(k)
    {
      name, pos := key, None;
      assert Beyond(Duplicates(db.secondary, name), None) == Duplicates(db.secondary, name);
      data := NextDup();
    }

    method NextDup() returns (data: Option<bytes>)
      requires db.Valid()
      modifies this
      ensures name == old(name)
      ensures data.Some? <==> Beyond(Duplicates(db.secondary, name), old(pos)) != {}
      ensures data.None? ==> pos == old(pos)
      ensures data.Some? ==>
                var k := Least(Beyond(Duplicates(db.secondary, name), old(pos)));
                k in db.primary && data.value == db.primary[k] && pos == Some(k)
    {
      var left := Beyond(Duplicates(db.secondary, name), pos);
      if left == {} { return None; }
      var k := LeastOf(left);
      assert IndexEntry(name, k) in db.secondary;
      pos := Some(k);
      return Some(db.primary[k]);
    }
  }
}
