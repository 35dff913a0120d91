/**
 Loading inventory lines (excxx_example_database_load.cpp): each non-empty line
 is parsed, marshalled and put under its SKU.
 */
module InventoryLoad {
  import opened Bytes
  import opened LineParser
  import opened InventoryCodec
  import opened InventoryStore
  import opened DbCalls

  // The C library's number readers, applied to a field as `c_str()` presents it.
  datatype Numbers = Numbers(strtod: bytes -> Double, strtol: bytes -> Long)

  /** The record a line stands for. */
  function ParseLine(line: bytes, lib: Numbers): Record {
    Record(
      Field(line, 0), Field(line, 1),
      lib.strtod(Terminated(Field(line, 2))), lib.strtol(Terminated(Field(line, 3))),
      Field(line, 4), Field(line, 5))
  }

  function KeyOf(r: Record): bytes {
    Terminated(r.sku)
  }

  /**
   Which field goes where: name, SKU, price, quantity, category, vendor. Fields
   after the sixth are ignored; where there are fewer, the last one stands for
   each that is missing.
   */
  lemma ParsedFields(parts: seq<bytes>, lib: Numbers)
    requires |parts| >= 1 && forall i :: 0 <= i < |parts| ==> '#' !in parts[i]
    ensures var f := seq(6, i requires 0 <= i => parts[if i < |parts| then i else |parts| - 1]);
            ParseLine(Join(parts, '#'), lib)
            == Record(name := f[0], sku := f[1],
                      price := lib.strtod(f[2] + ['\0']), quantity := lib.strtol(f[3] + ['\0']),
                      category := f[4], vendor := f[5])
  {
    SplitInvertsJoin(parts, POUND);
  }

  datatype LoadResult = LoadResult(ok: bool, primary: map<bytes, bytes>)

  // The store after `lines`; a record that does not fit its buffer ends the load.
  function LoadLines(primary: map<bytes, bytes>, lines: seq<bytes>, lib: Numbers): LoadResult
    decreases |lines|
  {
    if lines == [] then LoadResult(true, primary)
    else if lines[0] == [] then LoadLines(primary, lines[1..], lib)
    else
      var r := ParseLine(lines[0], lib);
      if Fits(r) then LoadLines(primary[KeyOf(r) := Encode(r)], lines[1..], lib) else LoadResult(false, primary)
  }

  /* ----- The program ----- */

  /** An open `std::ifstream`. */
  class InputFile {
    const text: bytes
    var pos: nat
    var eof: bool

    // `n` lines have been read; `eof` is set by the read of the last.
    ghost predicate AtLine(n: nat)
      reads this
    {
      var lines := Split(text, NEWLINE);
      && pos <= |text|
      && if eof then n == |lines| else n < |lines| && Split(text[pos..], NEWLINE) == lines[n..]
    }

    constructor (text: bytes)
      ensures AtLine(0) && this.text == text && pos == 0 && !eof
    {
      this.text := text;
      pos, eof := 0, false;
      new;
      assert text[0..] == text;
    }

    // `std::getline`: line number `n`; reading the last one, which no newline ends, sets `eof`.
    method GetLine(ghost n: nat) returns (line: bytes)
      requires AtLine(n) && !eof
      modifies this
      ensures n < |Split(text, '\n')| && line == Split(text, '\n')[n]
      ensures AtLine(n + 1) && (eof <==> n + 1 == |Split(text, '\n')|)
      ensures |line| <= |text|
    {
      var rest := text[pos..];
      LineAt(text, pos, n);
      if NEWLINE in rest {
        var k := IndexOf(rest, NEWLINE);
        line := rest[..k];
        pos := pos + k + 1;
      } else {
        line := rest;
        pos := |text|;
        eof := true;
      }
    }
  }

  // Where line `n` ends, when the text from `pos` on holds the lines from `n` on.
  lemma LineAt(text: bytes, pos: nat, n: nat)
    requires pos <= |text| && n < |Split(text, NEWLINE)|
    requires Split(text[pos..], NEWLINE) == Split(text, NEWLINE)[n..]
    ensures var rest, lines := text[pos..], Split(text, NEWLINE);
            if NEWLINE in rest then
              var k := IndexOf(rest, NEWLINE);
              && lines[n] == rest[..k] && n + 1 < |lines|
              && Split(text[pos + k + 1..], NEWLINE) == lines[n + 1..]
            else n + 1 == |lines| && lines[n] == rest
  {
    var rest, lines := text[pos..], Split(text, NEWLINE);
    var left := lines[n..];
    assert left[0] == lines[n] && left[1..] == lines[n + 1..];
    if NEWLINE in rest {
      var k := IndexOf(rest, NEWLINE);
      assert text[pos + k + 1..] == rest[k + 1..];
      assert left == [rest[..k]] + Split(rest[k + 1..], NEWLINE);
    } else {
      assert left == [rest];
    }
  }

  // Six successive fields of `line`, in the order the setters take them.
  method ParseInto(inventoryData: InventoryData, line: bytes, lib: Numbers)
    requires |line| < NPOS
    modifies inventoryData`name, inventoryData`sku, inventoryData`price,
             inventoryData`quantity, inventoryData`category, inventoryData`vendor
    ensures inventoryData.Value() == ParseLine(line, lib)
  {
    var stringBuf := new StdString(line);
    var substring := new StdString([]);
    TakeField(stringBuf, substring, line, 0);
    inventoryData.name := substring.value;
    TakeField(stringBuf, substring, line, 1);
    inventoryData.sku := substring.value;
    TakeField(stringBuf, substring, line, 2);
    inventoryData.price := lib.strtod(Terminated(substring.value));
    TakeField(stringBuf, substring, line, 3);
    inventoryData.quantity := lib.strtol(Terminated(substring.value));
    TakeField(stringBuf, substring, line, 4);
    inventoryData.category := substring.value;
    TakeField(stringBuf, substring, line, 5);
    inventoryData.vendor := substring.value;
  }

  datatype LoadOutcome = Loaded | CannotOpen | Overrun | Threw

  // One more line, when the lines before it loaded.
  lemma {:induction false} LoadOneMore(primary: map<bytes, bytes>, lines: seq<bytes>, line: bytes, lib: Numbers)
    requires LoadLines(primary, lines, lib).ok
    ensures LoadLines(primary, lines + [line], lib) == LoadLines(LoadLines(primary, lines, lib).primary, [line], lib)
    decreases |lines|
  {
    if lines == [] {
      assert [] + [line] == [line];
    } else {
      assert (lines + [line])[1..] == lines[1..] + [line];
      LoadOneMore(AfterFirst(primary, lines[0], lib), lines[1..], line, lib);
    }
  }

  // `done` lines have been loaded into `after`.
  ghost predicate LoadedUpTo(
    before: map<bytes, bytes>, lines: seq<bytes>, done: nat, lib: Numbers, after: map<bytes, bytes>) {
    done <= |lines| && LoadLines(before, lines[..done], lib) == LoadResult(true, after)
  }

  lemma LoadedOneMore(
    before: map<bytes, bytes>, lines: seq<bytes>, done: nat, lib: Numbers,
    now: map<bytes, bytes>, next: map<bytes, bytes>)
    requires done < |lines| && LoadedUpTo(before, lines, done, lib, now)
    requires LoadLines(now, [lines[done]], lib) == LoadResult(true, next)
    ensures LoadedUpTo(before, lines, done + 1, lib, next)
  {
    assert lines[..done + 1] == lines[..done] + [lines[done]];
    LoadOneMore(before, lines[..done], lines[done], lib);
  }

  // Why a load ended after `done` lines.
  ghost predicate EndedBy(r: LoadOutcome, lines: seq<bytes>, done: nat, lib: Numbers) {
    match r
    case Loaded => done == |lines|
    case CannotOpen => done == 0
    case Overrun => done < |lines| && lines[done] != [] && !Fits(ParseLine(lines[done], lib))
    case Threw => done < |lines| && lines[done] != [] && Fits(ParseLine(lines[done], lib))
  }

  /**
   Loads a file. `done` lines have been stored when it ends: all of them, or
   those before a record that does not fit its buffer or whose put threw.
   */
  method LoadInventoryDB(inventoryDB: InventoryDb, calls: Calls, canOpen: bool, text: bytes, lib: Numbers)
    returns (r: LoadOutcome, ghost done: nat)
    requires inventoryDB.Valid() && |text| < NPOS
    modifies inventoryDB, calls
    ensures inventoryDB.Valid()
    ensures LoadedUpTo(old(inventoryDB.primary), Split(text, '\n'), done, lib, inventoryDB.primary)
    ensures EndedBy(r, Split(text, '\n'), done, lib)
    ensures r == CannotOpen <==> !canOpen
    ensures r == Threw <==> calls.faults > old(calls.faults)
  {
    done := 0;
    ghost var lines := Split(text, NEWLINE);
    if !canOpen { return CannotOpen, done; }
    var inventoryData := new InventoryData();
    var inFile := new InputFile(text);
    r := Loaded;
    while r == Loaded && !inFile.eof
      invariant inventoryData.Valid() && fresh(inventoryData) && fresh(inventoryData.databuf) && fresh(inFile)
      invariant inventoryDB.Valid() && calls.faults == old(calls.faults) + if r == Threw then 1 else 0
      invariant if r == Loaded then inFile.AtLine(done) else r != CannotOpen && EndedBy(r, lines, done, lib)
      invariant LoadedUpTo(old(inventoryDB.primary), lines, done, lib, inventoryDB.primary)
      decreases |lines| - done, r == Loaded
    {
      r := LoadLine(inventoryDB, calls, inventoryData, inFile, lib, old(inventoryDB.primary), done);
      if r == Loaded {
        done := done + 1;
      }
    }
  }

  // One pass of the loop: line number `done` is read and, unless empty, stored.
  method LoadLine(inventoryDB: InventoryDb, calls: Calls, inventoryData: InventoryData, inFile: InputFile, lib: Numbers,
                  ghost before: map<bytes, bytes>, ghost done: nat)
    returns (r: LoadOutcome)
    requires inventoryDB.Valid() && inventoryData.Valid()
    requires inFile.AtLine(done) && !inFile.eof && |inFile.text| < NPOS
    requires LoadedUpTo(before, Split(inFile.text, NEWLINE), done, lib, inventoryDB.primary)
    modifies inventoryDB, calls, inventoryData, inventoryData.databuf, inFile
    ensures inventoryDB.Valid() && r != CannotOpen
    ensures calls.faults == old(calls.faults) + if r == Threw then 1 else 0
    ensures r == Loaded ==> inFile.AtLine(done + 1)
    ensures r == Loaded ==> LoadedUpTo(before, Split(inFile.text, NEWLINE), done + 1, lib, inventoryDB.primary)
    ensures r != Loaded ==> inventoryDB.primary == old(inventoryDB.primary)
    ensures r != Loaded ==> EndedBy(r, Split(inFile.text, NEWLINE), done, lib)
  {
    inventoryData.Clear();
    r := Loaded;
    ghost var now := inventoryDB.primary;
    var stringBuf := inFile.GetLine(done);
    if stringBuf != [] {
      r := LoadOne(inventoryDB, calls, inventoryData, stringBuf, lib);
    }
    if r == Loaded {
      LoadedOneMore(before, Split(inFile.text, NEWLINE), done, lib, now, inventoryDB.primary);
    }
  }

  // The part of the loop that a non-empty line takes.
  method LoadOne(inventoryDB: InventoryDb, calls: Calls, inventoryData: InventoryData, line: bytes, lib: Numbers)
    returns (r: LoadOutcome)
    requires inventoryDB.Valid() && inventoryData.Valid() && |line| < NPOS && line != []
    modifies inventoryDB, calls, inventoryData, inventoryData.databuf
    ensures inventoryDB.Valid()
    ensures r == Loaded ==> LoadLines(old(inventoryDB.primary), [line], lib) == LoadResult(true, inventoryDB.primary)
    ensures r != Loaded ==> inventoryDB.primary == old(inventoryDB.primary)
    ensures r == Overrun <==> !Fits(ParseLine(line, lib))
    ensures calls.faults == old(calls.faults) + if r == Threw then 1 else 0
    ensures r != CannotOpen
  {
    ParseInto(inventoryData, line, lib);
    var ok := inventoryData.GetBuffer();
    if !ok { return Overrun; }
    EncodedIsDecodable(inventoryData.Value());
    ItemNameOfEncoded(inventoryData.Value());
    var threw := calls.Throws();
    if threw { return Threw; }
    inventoryDB.Put(Terminated(inventoryData.sku), inventoryData.databuf[..inventoryData.bufLen]);
    return Loaded;
  }

  /**
   Loading one line of at least six fields into any store: it fits exactly when
   the four strings leave room for their terminators and the two numbers, and
   then it is stored under its second field, terminated, and nothing else
   changes.
   */
  lemma LoadedRow(primary: map<bytes, bytes>, parts: seq<bytes>, lib: Numbers)
    requires |parts| >= 6 && forall i :: 0 <= i < |parts| ==> '#' !in parts[i]
    ensures var load := LoadLines(primary, [Join(parts, '#')], lib);
            && (load.ok <==> |parts[0]| + |parts[1]| + |parts[4]| + |parts[5]| + 20 <= 500)
            && load.primary
               == if load.ok then
                 primary[parts[1] + ['\0'] :=
                   Encode(Record(name := parts[0], sku := parts[1],
                                 price := lib.strtod(parts[2] + ['\0']), quantity := lib.strtol(parts[3] + ['\0']),
                                 category := parts[4], vendor := parts[5]))]
               else primary
  {
    var line := Join(parts, '#');
    ParsedFields(parts, lib);
    assert |line| > 0;
    assert LoadLines(primary[KeyOf(ParseLine(line, lib)) := Encode(ParseLine(line, lib))], [line][1..], lib).ok;
  }

  /* ----- The load as last writer wins ----- */

  // Line `i` carries a record, under the key `k`.
  ghost predicate Writes(lines: seq<bytes>, i: int, k: bytes, lib: Numbers) {
    0 <= i < |lines| && lines[i] != [] && KeyOf(ParseLine(lines[i], lib)) == k
  }

  // Line `i` is the last one to write the key `k`.
  ghost predicate WritesLast(lines: seq<bytes>, i: int, k: bytes, lib: Numbers) {
    Writes(lines, i, k, lib) && forall j :: i < j < |lines| ==> !Writes(lines, j, k, lib)
  }

  ghost predicate AllFit(lines: seq<bytes>, lib: Numbers) {
    forall i :: 0 <= i < |lines| && lines[i] != [] ==> Fits(ParseLine(lines[i], lib))
  }

  // What `LoadLines` does with the first line, when it goes on.
  ghost function AfterFirst(primary: map<bytes, bytes>, line: bytes, lib: Numbers): map<bytes, bytes> {
    if line == [] then primary else primary[KeyOf(ParseLine(line, lib)) := Encode(ParseLine(line, lib))]
  }

  lemma AllFitSplit(lines: seq<bytes>, lib: Numbers)
    requires lines != []
    ensures AllFit(lines, lib) <==> (lines[0] != [] ==> Fits(ParseLine(lines[0], lib))) && AllFit(lines[1..], lib)
  {
    assert forall i :: 0 < i < |lines| ==> lines[i] == lines[1..][i - 1];
  }

  /** A load completes exactly when every record fits its buffer. */
  lemma {:induction false} LoadsIffAllFit(primary: map<bytes, bytes>, lines: seq<bytes>, lib: Numbers)
    ensures LoadLines(primary, lines, lib).ok <==> AllFit(lines, lib)
    decreases |lines|
  {
    if lines != [] {
      AllFitSplit(lines, lib);
      LoadsIffAllFit(AfterFirst(primary, lines[0], lib), lines[1..], lib);
    }
  }

  lemma WritesSplit(lines: seq<bytes>, i: int, k: bytes, lib: Numbers)
    requires lines != [] && i != 0
    ensures Writes(lines, i, k, lib) <==> Writes(lines[1..], i - 1, k, lib)
  {
  }

  // A key no line writes is left as it was.
  lemma {:induction false} UnwrittenIsKept(primary: map<bytes, bytes>, lines: seq<bytes>, k: bytes, lib: Numbers)
    requires AllFit(lines, lib) && forall i :: !Writes(lines, i, k, lib)
    ensures var after := LoadLines(primary, lines, lib).primary;
            (k in after <==> k in primary) && (k in primary ==> after[k] == primary[k])
    decreases |lines|
  {
    if lines != [] {
      AllFitSplit(lines, lib);
      forall i ensures !Writes(lines[1..], i, k, lib) {
        if i != -1 { WritesSplit(lines, i + 1, k, lib); }
      }
      assert !Writes(lines, 0, k, lib);
      UnwrittenIsKept(AfterFirst(primary, lines[0], lib), lines[1..], k, lib);
    }
  }

  // The last line to write a key decides what is stored there.
  lemma {:induction false} LastWriterWins(primary: map<bytes, bytes>, lines: seq<bytes>, i: int, k: bytes, lib: Numbers)
    requires AllFit(lines, lib) && WritesLast(lines, i, k, lib)
    ensures var after := LoadLines(primary, lines, lib).primary;
            k in after && after[k] == Encode(ParseLine(lines[i], lib))
    decreases |lines|
  {
    AllFitSplit(lines, lib);
    forall j | j != -1 ensures Writes(lines[1..], j, k, lib) <==> Writes(lines, j + 1, k, lib) {
      WritesSplit(lines, j + 1, k, lib);
    }
    var next := AfterFirst(primary, lines[0], lib);
    if i == 0 {
      UnwrittenIsKept(next, lines[1..], k, lib);
    } else {
      LastWriterWins(next, lines[1..], i - 1, k, lib);
    }
  }

  lemma {:induction false} SomeLineWritesLast(lines: seq<bytes>, i: int, k: bytes, lib: Numbers) returns (last: int)
    requires Writes(lines, i, k, lib)
    ensures WritesLast(lines, last, k, lib)
    decreases |lines| - i
  {
    if j :| i < j < |lines| && Writes(lines, j, k, lib) {
      last := SomeLineWritesLast(lines, j, k, lib);
    } else {
      last := i;
    }
  }

  /** From an empty store, a key is stored exactly when a line writes it, with that key's last record. */
  lemma LoadedExactly(lines: seq<bytes>, k: bytes, lib: Numbers)
    requires AllFit(lines, lib)
    ensures var after := LoadLines(map[], lines, lib).primary;
            && (k in after <==> exists i :: WritesLast(lines, i, k, lib))
            && forall i :: WritesLast(lines, i, k, lib) ==> k in after && after[k] == Encode(ParseLine(lines[i], lib))
  {
    if i :| Writes(lines, i, k, lib) {
      var last := SomeLineWritesLast(lines, i, k, lib);
      forall j | WritesLast(lines, j, k, lib) {
        LastWriterWins(map[], lines, j, k, lib);
      }
    } else {
      UnwrittenIsKept(map[], lines, k, lib);
    }
  }
}
