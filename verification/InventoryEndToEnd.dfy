/**
 Loading a file and then showing records: what the read program prints is what
 a plain look through the loaded lines would select.
 */
module InventoryEndToEnd {
  import opened Bytes
  import opened LineParser
  import opened InventoryCodec
  import opened InventoryStore
  import opened InventoryRead
  import opened InventoryLoad
  import opened DbCalls

  // The store a load of `lines` leaves when it starts from an empty database.
  ghost function Loaded(lines: seq<bytes>, lib: Numbers): map<bytes, bytes> {
    LoadLines(map[], lines, lib).primary
  }

  // Every record the lines stand for is NUL-free.
  ghost predicate NulFreeLines(lines: seq<bytes>, lib: Numbers) {
    forall i :: 0 <= i < |lines| && lines[i] != [] ==> NulFree(ParseLine(lines[i], lib))
  }

  // Each of `ks` is stored as a record with that key.
  ghost predicate KeysMatch(primary: map<bytes, bytes>, ks: seq<bytes>) {
    forall i :: 0 <= i < |ks| ==>
                  && ks[i] in primary && Decode(primary[ks[i]]).Some?
                  && KeyOf(Decode(primary[ks[i]]).value.record) == ks[i]
  }

  ghost predicate SkusIncrease(rs: seq<Record>) {
    forall i, j :: 0 <= i < j < |rs| ==> Less(rs[i].sku, rs[j].sku)
  }

  /** Any completed load leaves only bytes the index callback and the reader stay inside of. */
  lemma LoadedIsDecodable(lines: seq<bytes>, lib: Numbers)
    requires AllFit(lines, lib)
    ensures AllReadable(Loaded(lines, lib)) && AllDecodable(Loaded(lines, lib))
  {
    forall k | k in Loaded(lines, lib)
      ensures Readable(Loaded(lines, lib)[k]) && Decode(Loaded(lines, lib)[k]).Some?
    {
      LoadedExactly(lines, k, lib);
      var i :| WritesLast(lines, i, k, lib);
      EncodedIsDecodable(ParseLine(lines[i], lib));
      ItemNameOfEncoded(ParseLine(lines[i], lib));
    }
  }

  /** Lines of a text without NUL stand for NUL-free records. */
  lemma NulFreeText(text: bytes, lib: Numbers)
    requires NUL !in text
    ensures NulFreeLines(Split(text, '\n'), lib)
  {
    var lines := Split(text, NEWLINE);
    SplitAddsNothing(text, NEWLINE, NUL);
    forall i | 0 <= i < |lines| ensures NulFree(ParseLine(lines[i], lib)) {
      SplitAddsNothing(lines[i], POUND, NUL);
    }
  }

  // What is stored under `k` is the record its last line stands for.
  lemma LoadedRecord(lines: seq<bytes>, k: bytes, lib: Numbers)
    requires AllFit(lines, lib) && NulFreeLines(lines, lib) && k in Loaded(lines, lib)
    ensures exists i :: WritesLast(lines, i, k, lib) && Show(Loaded(lines, lib), k) == [ParseLine(lines[i], lib)]
  {
    LoadedExactly(lines, k, lib);
    var i :| WritesLast(lines, i, k, lib);
    RoundTripIff(ParseLine(lines[i], lib));
    assert WritesLast(lines, i, k, lib) && Show(Loaded(lines, lib), k) == [ParseLine(lines[i], lib)];
  }

  lemma {:induction false} RecordsInOrder(primary: map<bytes, bytes>, ks: seq<bytes>)
    requires KeysMatch(primary, ks)
    ensures |Records(primary, ks)| == |ks|
    ensures forall i :: 0 <= i < |ks| ==> KeyOf(Records(primary, ks)[i]) == ks[i]
    ensures forall i :: 0 <= i < |ks| ==> [Records(primary, ks)[i]] == Show(primary, ks[i])
  {
    if ks != [] {
      RecordsInOrder(primary, ks[1..]);
    }
  }

  lemma LoadedKeysMatch(lines: seq<bytes>, lib: Numbers)
    requires AllFit(lines, lib) && NulFreeLines(lines, lib)
    ensures KeysMatch(Loaded(lines, lib), Sorted(Loaded(lines, lib).Keys))
  {
    var ks := Sorted(Loaded(lines, lib).Keys);
    SortedLists(Loaded(lines, lib).Keys);
    forall i | 0 <= i < |ks|
      ensures ks[i] in Loaded(lines, lib) && Show(Loaded(lines, lib), ks[i]) != []
      ensures KeyOf(Show(Loaded(lines, lib), ks[i])[0]) == ks[i]
    {
      assert ks[i] in ks;
      LoadedRecord(lines, ks[i], lib);
    }
  }

  lemma SkusOfScan(lines: seq<bytes>, lib: Numbers)
    requires AllFit(lines, lib) && NulFreeLines(lines, lib)
    ensures SkusIncrease(Scan(Loaded(lines, lib)))
  {
    var m := Loaded(lines, lib);
    var ks := Sorted(m.Keys);
    LoadedKeysMatch(lines, lib);
    RecordsInOrder(m, ks);
    SortedIncreases(m.Keys);
    forall i, j | 0 <= i < j < |ks| ensures Less(Scan(m)[i].sku, Scan(m)[j].sku) {
      TerminatorKeepsOrder(Scan(m)[i].sku, Scan(m)[j].sku);
      assert KeyOf(Scan(m)[i]) == ks[i] && KeyOf(Scan(m)[j]) == ks[j];
    }
  }

  lemma DecidedByFirstDifference(rs: seq<Record>, i: nat, j: nat)
    requires SkusIncrease(rs) && i < j < |rs|
    ensures var a, b := rs[i].sku, rs[j].sku;
            exists n: nat :: n <= |a| && n < |b| && a[..n] == b[..n] && (n == |a| || a[n] < b[n])
  {
    LessIsFirstDifference(rs[i].sku, rs[j].sku);
  }

  /**
   The scan shows one record per SKU, the SKUs strictly increasing: of any two,
   in the first byte in which they differ the earlier is smaller, or it ends
   there.
   */
  lemma ScanIncreases(lines: seq<bytes>, lib: Numbers, i: nat, j: nat)
    requires AllFit(lines, lib) && NulFreeLines(lines, lib)
    requires i < j < |Scan(Loaded(lines, lib))|
    ensures var a, b := Scan(Loaded(lines, lib))[i].sku, Scan(Loaded(lines, lib))[j].sku;
            exists n: nat :: n <= |a| && n < |b| && a[..n] == b[..n] && (n == |a| || a[n] < b[n])
  {
    SkusOfScan(lines, lib);
    DecidedByFirstDifference(Scan(Loaded(lines, lib)), i, j);
  }

  /** The scan shows exactly the records of the last lines of their SKUs. */
  lemma ScanShowsLastWriters(lines: seq<bytes>, lib: Numbers, r: Record)
    requires AllFit(lines, lib) && NulFreeLines(lines, lib)
    ensures r in Scan(Loaded(lines, lib))
            <==> exists i :: WritesLast(lines, i, KeyOf(r), lib) && ParseLine(lines[i], lib) == r
  {
    var m := Loaded(lines, lib);
    var ks := Sorted(m.Keys);
    LoadedKeysMatch(lines, lib);
    RecordsInOrder(m, ks);
    SortedLists(m.Keys);
    if r in Scan(m) {
      var n :| 0 <= n < |ks| && Scan(m)[n] == r;
      assert ks[n] in ks && KeyOf(r) == ks[n] && [r] == Show(m, ks[n]);
      LoadedRecord(lines, ks[n], lib);
    }
    if i :| WritesLast(lines, i, KeyOf(r), lib) && ParseLine(lines[i], lib) == r {
      LoadedExactly(lines, KeyOf(r), lib);
      RoundTripIff(r);
      assert Show(m, KeyOf(r)) == [r] && KeyOf(r) in ks;
      var n :| 0 <= n < |ks| && ks[n] == KeyOf(r);
      assert [Scan(m)[n]] == Show(m, ks[n]);
    }
  }

  lemma {:induction false} FilterKeepsOrder(rs: seq<Record>, name: bytes)
    requires SkusIncrease(rs)
    ensures SkusIncrease(WithName(rs, name))
  {
    if rs != [] {
      FilterKeepsOrder(rs[1..], name);
      var more := WithName(rs[1..], name);
      forall j | 0 <= j < |more| ensures Less(rs[0].sku, more[j].sku) {
        WithNameSelects(rs[1..], name, more[j]);
        var n :| 0 <= n < |rs[1..]| && rs[1..][n] == more[j];
        assert rs[n + 1] == more[j];
      }
    }
  }

  /**
   Parse, marshal, index, look up and unmarshal together: after loading `text`
   into an empty database, the lookup of `name` shows exactly the records with
   that name among the last lines of each SKU, each once, the SKUs increasing
   bytewise. `ShowItem` returns this sequence.
   */
  lemma LookupAfterLoad(text: bytes, lib: Numbers, name: bytes)
    requires NulFreeLines(Split(text, '\n'), lib) && AllFit(Split(text, '\n'), lib)
    ensures var lines := Split(text, '\n');
            var load := LoadLines(map[], lines, lib);
            var rs := WithName(Scan(load.primary), name);
            && load.ok && AllReadable(load.primary) && AllDecodable(load.primary)
            && SkusIncrease(rs)
            && forall r :: r in rs <==>
                             r.name == name
                             && exists i :: WritesLast(lines, i, KeyOf(r), lib) && ParseLine(lines[i], lib) == r
  {
    var lines := Split(text, NEWLINE);
    LoadsIffAllFit(map[], lines, lib);
    LoadedIsDecodable(lines, lib);
    SkusOfScan(lines, lib);
    FilterKeepsOrder(Scan(Loaded(lines, lib)), name);
    forall r
      ensures r in WithName(Scan(Loaded(lines, lib)), name) <==>
                r.name == name
                && exists i :: WritesLast(lines, i, KeyOf(r), lib) && ParseLine(lines[i], lib) == r
    {
      WithNameSelects(Scan(Loaded(lines, lib)), name, r);
      ScanShowsLastWriters(lines, lib, r);
    }
  }

  /** That order, for any two of the records shown: the first byte in which their SKUs differ decides. */
  lemma LookupIncreases(text: bytes, lib: Numbers, name: bytes, i: nat, j: nat)
    requires NulFreeLines(Split(text, '\n'), lib) && AllFit(Split(text, '\n'), lib)
    requires i < j < |WithName(Scan(LoadLines(map[], Split(text, '\n'), lib).primary), name)|
    ensures var rs := WithName(Scan(LoadLines(map[], Split(text, '\n'), lib).primary), name);
            var a, b := rs[i].sku, rs[j].sku;
            exists n: nat :: n <= |a| && n < |b| && a[..n] == b[..n] && (n == |a| || a[n] < b[n])
  {
    var lines := Split(text, NEWLINE);
    SkusOfScan(lines, lib);
    FilterKeepsOrder(Scan(Loaded(lines, lib)), name);
    DecidedByFirstDifference(WithName(Scan(Loaded(lines, lib)), name), i, j);
  }

  /* ----- The same in terms of the fields that were written ----- */

  // A file of rows: each is an empty line or has at least six fields, and the four strings of a
  // record are NUL-free and fit its buffer.
  ghost predicate GoodRows(rows: seq<seq<bytes>>) {
    && (forall i :: 0 <= i < |rows| ==> |rows[i]| >= 6 || rows[i] == [[]])
    && (forall i, k :: 0 <= i < |rows| && 0 <= k < |rows[i]| ==> '#' !in rows[i][k] && '\n' !in rows[i][k])
    && forall i :: 0 <= i < |rows| && |rows[i]| >= 6 ==>
                     && '\0' !in rows[i][0] + rows[i][1] + rows[i][4] + rows[i][5]
                     && |rows[i][0]| + |rows[i][1]| + |rows[i][4]| + |rows[i][5]| + 20 <= 500
  }

  // The lines of that file.
  ghost predicate AreLines(lines: seq<bytes>, rows: seq<seq<bytes>>) {
    |lines| == |rows| && forall i :: 0 <= i < |rows| ==> |rows[i]| >= 1 && lines[i] == Join(rows[i], '#')
  }

  // The record of a row.
  function RowRecord(row: seq<bytes>, lib: Numbers): Record
    requires |row| >= 6
  {
    Record(name := row[0], sku := row[1],
           price := lib.strtod(row[2] + ['\0']), quantity := lib.strtol(row[3] + ['\0']),
           category := row[4], vendor := row[5])
  }

  lemma RowLine(lines: seq<bytes>, rows: seq<seq<bytes>>, i: nat, lib: Numbers)
    requires GoodRows(rows) && AreLines(lines, rows) && i < |rows|
    ensures '\n' !in lines[i] && (lines[i] == [] <==> rows[i] == [[]])
    ensures |rows[i]| >= 6 ==>
              var r := ParseLine(lines[i], lib); r == RowRecord(rows[i], lib) && NulFree(r) && Fits(r)
  {
    JoinAddsNothing(rows[i], POUND, NEWLINE);
    ParsedFields(rows[i], lib);
    if |rows[i]| >= 6 {
      assert forall x: byte :: x in rows[i][0] || x in rows[i][1] || x in rows[i][4] || x in rows[i][5] ==>
          x in rows[i][0] + rows[i][1] + rows[i][4] + rows[i][5];
    }
  }

  lemma RowsAreLines(lines: seq<bytes>, rows: seq<seq<bytes>>, lib: Numbers)
    requires rows != [] && GoodRows(rows) && AreLines(lines, rows)
    ensures Split(Join(lines, '\n'), '\n') == lines
    ensures AllFit(lines, lib) && NulFreeLines(lines, lib)
    ensures forall i :: 0 <= i < |rows| && |rows[i]| >= 6 ==> ParseLine(lines[i], lib) == RowRecord(rows[i], lib)
  {
    forall i | 0 <= i < |rows|
      ensures '\n' !in lines[i]
      ensures lines[i] != [] ==> NulFree(ParseLine(lines[i], lib)) && Fits(ParseLine(lines[i], lib))
      ensures |rows[i]| >= 6 ==> ParseLine(lines[i], lib) == RowRecord(rows[i], lib)
    {
      RowLine(lines, rows, i, lib);
    }
    SplitInvertsJoin(lines, NEWLINE);
  }

  // A row's line is the last to write its SKU when no later row of six fields has that SKU.
  lemma LastRow(lines: seq<bytes>, rows: seq<seq<bytes>>, i: nat, sku: bytes, lib: Numbers)
    requires rows != [] && GoodRows(rows) && AreLines(lines, rows) && i < |rows|
    ensures WritesLast(lines, i, Terminated(sku), lib)
            <==> && |rows[i]| >= 6 && rows[i][1] == sku
                 && forall j :: i < j < |rows| && |rows[j]| >= 6 ==> rows[j][1] != sku
  {
    RowsAreLines(lines, rows, lib);
    forall j | 0 <= j < |rows|
      ensures Writes(lines, j, Terminated(sku), lib) <==> |rows[j]| >= 6 && rows[j][1] == sku
    {
      RowLine(lines, rows, j, lib);
      if |rows[j]| >= 6 { TerminatedInjective(rows[j][1], sku); }
    }
  }

  // Row `i` has the record `r`, and no later row has its SKU.
  ghost predicate RowIs(rows: seq<seq<bytes>>, i: nat, r: Record, lib: Numbers) {
    && i < |rows| && |rows[i]| >= 6 && r == RowRecord(rows[i], lib)
    && forall j :: i < j < |rows| && |rows[j]| >= 6 ==> rows[j][1] != rows[i][1]
  }

  lemma RowWrites(lines: seq<bytes>, rows: seq<seq<bytes>>, r: Record, lib: Numbers)
    requires rows != [] && GoodRows(rows) && AreLines(lines, rows)
    ensures (exists i :: WritesLast(lines, i, KeyOf(r), lib) && ParseLine(lines[i], lib) == r)
            <==> exists i :: RowIs(rows, i, r, lib)
  {
    forall i: nat | i < |rows|
      ensures WritesLast(lines, i, KeyOf(r), lib) && ParseLine(lines[i], lib) == r <==> RowIs(rows, i, r, lib)
    {
      RowsAreLines(lines, rows, lib);
      LastRow(lines, rows, i, r.sku, lib);
    }
    if i :| WritesLast(lines, i, KeyOf(r), lib) && ParseLine(lines[i], lib) == r {
      assert RowIs(rows, i, r, lib);
    }
  }

  /**
   The lookup in terms of the file's fields alone. Each row is an empty line or
   has at least six fields: name, SKU, price, quantity, category and vendor come
   first. What is shown are the records of the rows that have the name in their
   first field and whose SKU no later row has; their SKUs increase bytewise.
   */
  lemma LookupOfRows(lines: seq<bytes>, rows: seq<seq<bytes>>, lib: Numbers, name: bytes)
    requires rows != [] && GoodRows(rows) && AreLines(lines, rows)
    ensures var rs := WithName(Scan(LoadLines(map[], Split(Join(lines, '\n'), '\n'), lib).primary), name);
            && SkusIncrease(rs)
            && forall r :: r in rs <==> r.name == name && exists i :: RowIs(rows, i, r, lib)
  {
    RowsAreLines(lines, rows, lib);
    LookupAfterLoad(Join(lines, '\n'), lib, name);
    forall r ensures (exists i :: WritesLast(lines, i, KeyOf(r), lib) && ParseLine(lines[i], lib) == r)
                     <==> exists i :: RowIs(rows, i, r, lib)
    {
      RowWrites(lines, rows, r, lib);
    }
  }

  /**
   The two programs one after the other: the load of a file into an empty
   database and the lookup of a name. If no call throws, that sequence is shown.
   */
  method LoadThenShow(text: bytes, lib: Numbers, name: bytes, ghost lines: seq<bytes>, ghost rows: seq<seq<bytes>>)
    returns (faults: nat, shown: seq<Record>)
    requires rows != [] && GoodRows(rows) && AreLines(lines, rows) && text == Join(lines, '\n') && |text| < NPOS
    ensures faults == 0 ==> SkusIncrease(shown)
    ensures faults == 0 ==> forall r :: r in shown <==> r.name == name && exists i :: RowIs(rows, i, r, lib)
  {
    var db := new InventoryDb();
    var calls := new Calls();
    var outcome, done := LoadInventoryDB(db, calls, true, text, lib);
    shown := [];
    if calls.faults == 0 {
      RowsAreLines(lines, rows, lib);
      assert lines[..|lines|] == lines;
      assert outcome.Loaded? && done == |lines|;
      LookupAfterLoad(text, lib, name);
      LookupOfRows(lines, rows, lib, name);
      var threw;
      shown, threw := ShowItem(db, calls, name);
    }
    faults := calls.faults;
  }

  lemma JoinSix(parts: seq<bytes>)
    requires |parts| == 6
    ensures Join(parts, '#') == parts[0] + ['#'] + parts[1] + ['#'] + parts[2] + ['#'] + parts[3] + ['#'] + parts[4]
                                + ['#'] + parts[5]
  {
    var p := parts;
    assert Join(p[4..], '#') == p[4] + ['#'] + p[5];
    assert p[2..][1..] == p[3..] && p[3..][1..] == p[4..] && p[1..][1..] == p[2..];
    assert Join(p[2..], '#') == p[2] + ['#'] + (p[3] + ['#'] + Join(p[4..], '#'));
    assert Join(p, '#') == p[0] + ['#'] + (p[1] + ['#'] + Join(p[2..], '#'));
  }

  lemma OnlyRecord(rs: seq<Record>, r: Record, some: bool)
    requires SkusIncrease(rs) && forall x :: x in rs <==> some && x == r
    ensures rs == if some then [r] else []
  {
    if rs == [] {
      assert some ==> r in rs;
    } else {
      assert rs[0] in rs;
      if |rs| > 1 {
        assert rs[1] in rs;
        LessIrreflexive(r.sku);
        assert false;
      }
    }
  }

  lemma LookupOfRow(parts: seq<bytes>, lib: Numbers, name: bytes)
    requires |parts| == 6 && GoodRows([parts])
    ensures WithName(Scan(LoadLines(map[], Split(Join(parts, '#'), '\n'), lib).primary), name)
            == if name == parts[0] then [RowRecord(parts, lib)] else []
  {
    var rows, lines := [parts], [Join(parts, '#')];
    var r := RowRecord(parts, lib);
    LookupOfRows(lines, rows, lib, name);
    var rs := WithName(Scan(LoadLines(map[], Split(Join(lines, '\n'), '\n'), lib).primary), name);
    forall x ensures x in rs <==> name == parts[0] && x == r {
      assert RowIs(rows, 0, r, lib);
    }
    OnlyRecord(rs, r, name == parts[0]);
  }

  /** For a file of one line: looking up its name shows its record, looking up another name shows nothing. */
  lemma LookupOfOneLine(parts: seq<bytes>, lib: Numbers, name: bytes)
    requires |parts| == 6 && GoodRows([parts])
    ensures var text := parts[0] + ['#'] + parts[1] + ['#'] + parts[2] + ['#'] + parts[3] + ['#'] + parts[4]
                        + ['#'] + parts[5];
            WithName(Scan(LoadLines(map[], Split(text, '\n'), lib).primary), name)
            == if name == parts[0] then
                 [Record(name := parts[0], sku := parts[1],
                         price := lib.strtod(parts[2] + ['\0']), quantity := lib.strtol(parts[3] + ['\0']),
                         category := parts[4], vendor := parts[5])]
               else []
  {
    JoinSix(parts);
    LookupOfRow(parts, lib, name);
  }
}
