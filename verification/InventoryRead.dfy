/**
 Showing records (excxx_example_database_read.cpp): the scan of the whole
 inventory and the lookup of one item name through the index.
 */
module InventoryRead {
  import opened Bytes
  import opened InventoryCodec
  import opened InventoryStore
  import opened DbCalls

  ghost predicate AllDecodable(primary: map<bytes, bytes>) {
    forall k {:trigger Decode(primary[k])} :: k in primary ==> Decode(primary[k]).Some?
  }

  // The record a cursor shows when it stands on `k`.
  ghost function Show(primary: map<bytes, bytes>, k: bytes): seq<Record> {
    if k in primary && Decode(primary[k]).Some? then [Decode(primary[k]).value.record] else []
  }

  // What is shown under `ks`, in that order.
  ghost function Records(primary: map<bytes, bytes>, ks: seq<bytes>): seq<Record> {
    if ks == [] then [] else Show(primary, ks[0]) + Records(primary, ks[1..])
  }

  /** Every stored record in key order. */
  ghost function Scan(primary: map<bytes, bytes>): seq<Record> {
    Records(primary, Sorted(primary.Keys))
  }

  ghost function WithName(rs: seq<Record>, name: bytes): seq<Record> {
    if rs == [] then [] else (if rs[0].name == name then [rs[0]] else []) + WithName(rs[1..], name)
  }

  lemma {:induction false} WithNameSelects(rs: seq<Record>, name: bytes, r: Record)
    ensures r in WithName(rs, name) <==> r in rs && r.name == name
  {
    if rs != [] {
      WithNameSelects(rs[1..], name, r);
      assert rs == [rs[0]] + rs[1..];
    }
  }

  /* ----- The cursor loops ----- */

  // A cursor that has delivered `n` of the keys in order stands on the last of them.
  ghost function PosAfter(keys: set<bytes>, n: nat): Option<bytes>
    requires n <= |Sorted(keys)|
  {
    if n == 0 then None else Some(Sorted(keys)[n - 1])
  }

  lemma {:induction false} KeysLeft(keys: set<bytes>, n: nat)
    requires n <= |Sorted(keys)|
    ensures Sorted(Beyond(keys, PosAfter(keys, n))) == Sorted(keys)[n..]
  {
    if n == 0 {
      assert Beyond(keys, None) == keys;
    } else {
      KeysLeft(keys, n - 1);
      StepBeyond(keys, PosAfter(keys, n - 1));
    }
  }

  // The next step of that cursor delivers key number `n`, or ends.
  lemma NextKey(keys: set<bytes>, n: nat)
    requires n <= |Sorted(keys)|
    ensures Beyond(keys, PosAfter(keys, n)) == {} <==> n == |Sorted(keys)|
    ensures n < |Sorted(keys)| ==> Least(Beyond(keys, PosAfter(keys, n))) == Sorted(keys)[n]
  {
    KeysLeft(keys, n);
  }

  // What is shown under the first `n` of `ks`.
  ghost function RecordsUpTo(primary: map<bytes, bytes>, ks: seq<bytes>, n: nat): seq<Record>
    requires n <= |ks|
  {
    if n == 0 then [] else RecordsUpTo(primary, ks, n - 1) + Show(primary, ks[n - 1])
  }

  lemma {:induction false} UpToIsRecords(primary: map<bytes, bytes>, ks: seq<bytes>, n: nat)
    requires n <= |ks|
    ensures RecordsUpTo(primary, ks, n) + Records(primary, ks[n..]) == Records(primary, ks)
  {
    if n > 0 {
      UpToIsRecords(primary, ks, n - 1);
      assert ks[n - 1..][1..] == ks[n..];
    }
  }

  // The first `n` of the records under `ks` have been shown.
  ghost predicate Shown(shown: seq<Record>, primary: map<bytes, bytes>, ks: seq<bytes>, n: nat) {
    n <= |ks| && shown == RecordsUpTo(primary, ks, n)
  }

  lemma PartShown(shown: seq<Record>, primary: map<bytes, bytes>, ks: seq<bytes>, n: nat)
    requires Shown(shown, primary, ks, n)
    ensures shown <= Records(primary, ks)
    ensures n == |ks| ==> shown == Records(primary, ks)
  {
    UpToIsRecords(primary, ks, n);
  }

  // A cursor call delivered record number `n` of `ks`, or ended the walk.
  ghost predicate Delivered(primary: map<bytes, bytes>, ks: seq<bytes>, n: nat, data: Option<bytes>) {
    n <= |ks| && if n == |ks| then data.None? else ks[n] in primary && data == Some(primary[ks[n]])
  }

  // A cursor call has delivered record number `n` of `keys`, in order, and left the cursor there.
  ghost predicate Stepped(
    primary: map<bytes, bytes>, keys: set<bytes>, n: nat, data: Option<bytes>, pos: Option<bytes>) {
    && Delivered(primary, Sorted(keys), n, data)
    && pos == PosAfter(keys, if n < |Sorted(keys)| then n + 1 else n)
  }

  // One pass of either loop: the record delivered is shown, then its vendor is looked up.
  method ShowRecord(data: bytes, calls: Calls, shown: seq<Record>,
                    ghost primary: map<bytes, bytes>, ghost ks: seq<bytes>, ghost n: nat)
    returns (shown1: seq<Record>, threw: bool)
    requires AllDecodable(primary) && Delivered(primary, ks, n, Some(data)) && Shown(shown, primary, ks, n)
    modifies calls
    ensures calls.faults == old(calls.faults) + if threw then 1 else 0
    ensures Shown(shown1, primary, ks, n + 1)
  {
    assert Decode(primary[ks[n]]).Some?;
    var inventoryItem := new InventoryData.FromBuffer(data);
    shown1 := shown + [inventoryItem.Value()];
    threw := calls.Throws();
  }

  // The next cursor call on the primary, after `n` deliveries.
  method GetNext(cursor: PrimaryCursor, calls: Calls, ghost n: nat) returns (threw: bool, data: Option<bytes>)
    requires n <= |Sorted(cursor.db.primary.Keys)| && cursor.pos == PosAfter(cursor.db.primary.Keys, n)
    modifies cursor, calls
    ensures calls.faults == old(calls.faults) + if threw then 1 else 0
    ensures !threw ==> Stepped(cursor.db.primary, cursor.db.primary.Keys, n, data, cursor.pos)
  {
    NextKey(cursor.db.primary.Keys, n);
    data := None;
    threw := calls.Throws();
    if !threw { data := cursor.Next(); }
  }

  // The next cursor call on the index: DB_SET at first, DB_NEXT_DUP after `n` deliveries.
  method GetDup(cursor: IndexCursor, calls: Calls, key: bytes, first: bool, ghost n: nat)
    returns (threw: bool, data: Option<bytes>)
    requires cursor.db.Valid() && (first ==> n == 0) && (!first ==> cursor.name == key)
    requires n <= |Sorted(Duplicates(cursor.db.secondary, key))|
    requires cursor.pos == PosAfter(Duplicates(cursor.db.secondary, key), n)
    modifies cursor, calls
    ensures calls.faults == old(calls.faults) + if threw then 1 else 0
    ensures !threw ==> cursor.name == key
    ensures !threw ==> Stepped(cursor.db.primary, Duplicates(cursor.db.secondary, key), n, data, cursor.pos)
  {
    ghost var keys := Duplicates(cursor.db.secondary, key);
    NextKey(keys, n);
    data := None;
    threw := calls.Throws();
    if !threw {
      if first {
        assert Beyond(keys, None) == keys;
        data := cursor.Set(key);
      } else {
        data := cursor.NextDup();
      }
    }
  }

  /**
   Shows every record in key order, each followed by the lookup of its vendor.
   A call that throws ends the loop; what was shown by then is a first part.
   */
  method ShowAllRecords(db: InventoryDb, calls: Calls)
    returns (shown: seq<Record>, threw: bool)
    requires AllDecodable(db.primary)
    modifies calls
    ensures threw <==> calls.faults > old(calls.faults)
    ensures shown <= Scan(db.primary) && (!threw ==> shown == Scan(db.primary))
  {
    shown := [];
    var cursor := new PrimaryCursor(db);
    ghost var keys := db.primary.Keys;
    ghost var ks := Sorted(keys);
    ghost var n := 0;
    var data := None;
    threw := calls.Throws();
    if !threw { threw, data := GetNext(cursor, calls, n); }
    while !threw && data.Some?
      invariant fresh(cursor) && cursor.db == db
      invariant calls.faults == old(calls.faults) + if threw then 1 else 0
      invariant Shown(shown, db.primary, ks, n)
      invariant !threw ==> Stepped(db.primary, keys, n, data, cursor.pos)
      decreases |ks| - n
    {
      shown, threw := ShowRecord(data.value, calls, shown, db.primary, ks, n);
      n := n + 1;
      if !threw { threw, data := GetNext(cursor, calls, n); }
    }
    PartShown(shown, db.primary, ks, n);
    if !threw { threw := calls.Throws(); }
  }

  // The walk over the index duplicates of `key`.
  method ShowDuplicates(db: InventoryDb, calls: Calls, key: bytes)
    returns (shown: seq<Record>, threw: bool)
    requires db.Valid() && AllDecodable(db.primary)
    modifies calls
    ensures threw <==> calls.faults > old(calls.faults)
    ensures shown <= Records(db.primary, Sorted(Duplicates(db.secondary, key)))
    ensures !threw ==> shown == Records(db.primary, Sorted(Duplicates(db.secondary, key)))
  {
    shown := [];
    var cursor := new IndexCursor(db);
    ghost var keys := Duplicates(db.secondary, key);
    ghost var ks := Sorted(keys);
    ghost var n := 0;
    var data := None;
    threw := calls.Throws();
    if !threw { threw, data := GetDup(cursor, calls, key, true, n); }
    while !threw && data.Some?
      invariant fresh(cursor) && cursor.db == db && (!threw ==> cursor.name == key)
      invariant calls.faults == old(calls.faults) + if threw then 1 else 0
      invariant Shown(shown, db.primary, ks, n)
      invariant !threw ==> Stepped(db.primary, keys, n, data, cursor.pos)
      decreases |ks| - n
    {
      shown, threw := ShowRecord(data.value, calls, shown, db.primary, ks, n);
      n := n + 1;
      if !threw { threw, data := GetDup(cursor, calls, key, false, n); }
    }
    PartShown(shown, db.primary, ks, n);
    if !threw { threw := calls.Throws(); }
  }

  /**
   Shows the records of `itemName` through the index, each followed by the
   lookup of its vendor; none when the first lookup finds none.
   */
  method ShowItem(db: InventoryDb, calls: Calls, itemName: bytes)
    returns (shown: seq<Record>, threw: bool)
    requires db.Valid() && AllDecodable(db.primary)
    modifies calls
    ensures threw <==> calls.faults > old(calls.faults)
    ensures shown <= WithName(Scan(db.primary), itemName)
    ensures !threw ==> shown == WithName(Scan(db.primary), itemName)
  {
    LookupIsFilteredScan(db.primary, itemName);
    shown, threw := ShowDuplicates(db, calls, Terminated(itemName));
  }

  /* ----- The index against the scan ----- */

  ghost predicate HasName(primary: map<bytes, bytes>, k: bytes, name: bytes) {
    k in primary && Decode(primary[k]).Some? && Decode(primary[k]).value.record.name == name
  }

  ghost function Named(primary: map<bytes, bytes>, keys: set<bytes>, name: bytes): set<bytes> {
    set k | k in keys && HasName(primary, k, name)
  }

  lemma WithNameOfShow(primary: map<bytes, bytes>, k: bytes, more: seq<Record>, name: bytes)
    ensures WithName(Show(primary, k) + more, name)
            == (if HasName(primary, k, name) then Show(primary, k) else []) + WithName(more, name)
  {
    if Show(primary, k) != [] {
      assert (Show(primary, k) + more)[1..] == more;
    } else {
      assert [] + more == more;
    }
  }

  lemma {:induction false} FilterOfSorted(primary: map<bytes, bytes>, keys: set<bytes>, name: bytes)
    ensures WithName(Records(primary, Sorted(keys)), name) == Records(primary, Sorted(Named(primary, keys, name)))
    decreases |keys|
  {
    var named := Named(primary, keys, name);
    if keys == {} {
      assert named == {};
    } else {
      var k := Least(keys);
      var rest := keys - {k};
      FilterOfSorted(primary, rest, name);
      WithNameOfShow(primary, k, Records(primary, Sorted(rest)), name);
      if HasName(primary, k, name) {
        LeastIsLeast(keys);
        LeastUnique(named, k);
        assert named - {k} == Named(primary, rest, name);
      } else {
        assert named == Named(primary, rest, name);
      }
    }
  }

  lemma DuplicatesAreNamed(primary: map<bytes, bytes>, name: bytes)
    requires AllReadable(primary) && AllDecodable(primary)
    ensures Duplicates(IndexOfStore(primary), Terminated(name)) == Named(primary, primary.Keys, name)
  {
    forall k
      ensures k in Named(primary, primary.Keys, name) <==> k in Duplicates(IndexOfStore(primary), Terminated(name))
    {
      InIndex(primary, IndexEntry(Terminated(name), k));
      if k in primary {
        ItemNameIsDecodedName(primary[k]);
        TerminatedInjective(Decode(primary[k]).value.record.name, name);
      }
    }
  }

  /** Walking the index duplicates of a name shows what filtering the full scan would. */
  lemma LookupIsFilteredScan(primary: map<bytes, bytes>, name: bytes)
    requires AllReadable(primary) && AllDecodable(primary)
    ensures Records(primary, Sorted(Duplicates(IndexOfStore(primary), Terminated(name))))
            == WithName(Scan(primary), name)
  {
    DuplicatesAreNamed(primary, name);
    FilterOfSorted(primary, primary.Keys, name);
  }
}
