/**
 The byte form of an inventory record: `InventoryData::getBuffer`, the
 constructor from a stored buffer, and `get_item_name`
 (gettingStartedCommon.hpp). `sizeof(double)` and `sizeof(long)` are 8, a price
 is its eight bytes, a quantity is stored least significant byte first.
 */
module InventoryCodec {
  import opened Bytes

  const SIZEOF_DOUBLE: nat := 8
  const SIZEOF_LONG: nat := 8
  const STRINGS_AT: nat := SIZEOF_DOUBLE + SIZEOF_LONG
  const CAPACITY: nat := 500

  const ZERO_BITS: bytes := seq(SIZEOF_DOUBLE, _ => NUL)

  type Double = b: bytes | |b| == 8 witness ZERO_BITS
  type Long = q: int | -0x8000_0000_0000_0000 <= q < 0x8000_0000_0000_0000

  datatype Record = Record(name: bytes, sku: bytes, price: Double, quantity: Long, category: bytes, vendor: bytes)

  /* ----- Quantities ----- */

  function Pow256(k: nat): (p: nat)
    ensures p >= 1
  {
    if k == 0 then 1 else 256 * Pow256(k - 1)
  }

  function LittleEndian(n: nat, k: nat): (b: bytes)
    ensures |b| == k
    decreases n, k
  {
    if k == 0 then [] else [(n % 256) as char] + LittleEndian(n / 256, k - 1)
  }

  function FromLittleEndian(b: bytes): (n: nat)
    ensures n < Pow256(|b|)
  {
    if b == [] then 0 else b[0] as int + 256 * FromLittleEndian(b[1..])
  }

  lemma {:induction false} LittleEndianRoundTrip(n: nat, k: nat)
    requires n < Pow256(k)
    ensures FromLittleEndian(LittleEndian(n, k)) == n
  {
    if k > 0 {
      LittleEndianRoundTrip(n / 256, k - 1);
      assert LittleEndian(n, k)[1..] == LittleEndian(n / 256, k - 1);
    }
  }

  // Two's complement.
  function LongBytes(q: Long): (b: bytes)
    ensures |b| == SIZEOF_LONG
  {
    LittleEndian(if q >= 0 then q else q + 0x1_0000_0000_0000_0000, SIZEOF_LONG)
  }

  function LongOf(b: bytes): Long
    requires |b| == SIZEOF_LONG
  {
    WordRange();
    var n := FromLittleEndian(b);
    if n < 0x8000_0000_0000_0000 then n else n - 0x1_0000_0000_0000_0000
  }

  lemma WordRange()
    ensures Pow256(SIZEOF_LONG) == 0x1_0000_0000_0000_0000
  {
  }

  lemma LongRoundTrip(q: Long)
    ensures LongOf(LongBytes(q)) == q
  {
    WordRange();
    var n := if q >= 0 then q else q + 0x1_0000_0000_0000_0000;
    LittleEndianRoundTrip(n, SIZEOF_LONG);
    assert FromLittleEndian(LongBytes(q)) == n;
  }

  lemma LowestByte(x: nat, n: nat)
    requires x < 256
    ensures (x + 256 * n) % 256 == x && (x + 256 * n) / 256 == n
  {
  }

  lemma {:induction false} BytesRoundTrip(b: bytes)
    ensures LittleEndian(FromLittleEndian(b), |b|) == b
  {
    if b != [] {
      BytesRoundTrip(b[1..]);
      LowestByte(b[0] as int, FromLittleEndian(b[1..]));
      assert LittleEndian(FromLittleEndian(b), |b|) == [b[0]] + b[1..];
    }
  }

  // Any eight bytes are the bytes of the quantity read from them.
  lemma WordIsLongBytes(b: bytes)
    requires |b| == SIZEOF_LONG
    ensures LongBytes(LongOf(b)) == b
  {
    WordRange();
    BytesRoundTrip(b);
  }

  lemma Peel(b: bytes, k: nat)
    requires k < |b|
    ensures FromLittleEndian(b[k..]) == b[k] as int + 256 * FromLittleEndian(b[k + 1..])
  {
    assert b[k..][1..] == b[k + 1..];
  }

  // The first byte is the least significant one.
  lemma WordValue(b: bytes)
    requires |b| == 8
    ensures FromLittleEndian(b)
            == b[0] as int + 0x100 * b[1] as int + 0x1_0000 * b[2] as int + 0x100_0000 * b[3] as int
               + 0x1_0000_0000 * b[4] as int + 0x100_0000_0000 * b[5] as int
               + 0x1_0000_0000_0000 * b[6] as int + 0x100_0000_0000_0000 * b[7] as int
  {
    Peel(b, 7);
    Peel(b, 6);
    Peel(b, 5);
    Peel(b, 4);
    Peel(b, 3);
    Peel(b, 2);
    Peel(b, 1);
    Peel(b, 0);
    assert b[0..] == b && FromLittleEndian(b[8..]) == 0;
  }

  /** The eight bytes of a quantity are its two's complement word, least significant byte first. */
  lemma LongLayout(q: Long)
    ensures var b := LongBytes(q);
            b[0] as int + 0x100 * b[1] as int + 0x1_0000 * b[2] as int + 0x100_0000 * b[3] as int
            + 0x1_0000_0000 * b[4] as int + 0x100_0000_0000 * b[5] as int
            + 0x1_0000_0000_0000 * b[6] as int + 0x100_0000_0000_0000 * b[7] as int
            == if q < 0 then q + 0x1_0000_0000_0000_0000 else q
  {
    var n := if q >= 0 then q else q + 0x1_0000_0000_0000_0000;
    WordRange();
    LittleEndianRoundTrip(n, SIZEOF_LONG);
    WordValue(LongBytes(q));
  }

  /* ----- Encoding and decoding as functions ----- */

  function Encode(r: Record): (b: bytes)
    ensures |b| == EncodedSize(r)
  {
    r.price + LongBytes(r.quantity)
    + Terminated(r.name) + Terminated(r.sku) + Terminated(r.category) + Terminated(r.vendor)
  }

  function EncodedSize(r: Record): nat {
    STRINGS_AT + (|r.name| + 1) + (|r.sku| + 1) + (|r.category| + 1) + (|r.vendor| + 1)
  }

  predicate Fits(r: Record) {
    EncodedSize(r) <= CAPACITY
  }

  predicate NulFree(r: Record) {
    NUL !in r.name && NUL !in r.sku && NUL !in r.category && NUL !in r.vendor
  }

  // The C string at the front of `buf` and the bytes past its terminator; None when there is
  // no terminator, where the program would read on beyond the buffer.
  datatype StringRead = StringRead(s: bytes, rest: bytes)

  function ReadString(buf: bytes): (r: Option<StringRead>)
    ensures r.Some? ==> |r.value.s| + 1 + |r.value.rest| == |buf|
  {
    if buf == [] then None
    else if buf[0] == NUL then Some(StringRead([], buf[1..]))
    else match ReadString(buf[1..])
      case None => None
      case Some(r) => Some(StringRead([buf[0]] + r.s, r.rest))
  }

  datatype Strings = Strings(name: bytes, sku: bytes, category: bytes, vendor: bytes, rest: bytes)

  // Four strings, each where the one before it ended.
  function ReadStrings(buf: bytes): (r: Option<Strings>)
    ensures r.Some? ==>
              var f := r.value; |f.name| + |f.sku| + |f.category| + |f.vendor| + 4 + |f.rest| == |buf|
  {
    match ReadString(buf)
    case None => None
    case Some(name) =>
      match ReadString(name.rest)
      case None => None
      case Some(sku) =>
        match ReadString(sku.rest)
        case None => None
        case Some(category) =>
          match ReadString(category.rest)
          case None => None
          case Some(vendor) => Some(Strings(name.s, sku.s, category.s, vendor.s, vendor.rest))
  }

  // A record read from the front of a buffer, and what follows it there.
  datatype Decoded = Decoded(record: Record, rest: bytes)

  /** What the constructor reads from `buf`. */
  function Decode(buf: bytes): (d: Option<Decoded>)
    ensures d.Some? ==> EncodedSize(d.value.record) + |d.value.rest| == |buf|
  {
    if |buf| < STRINGS_AT then None else
    match ReadStrings(buf[STRINGS_AT..])
    case None => None
    case Some(f) =>
      var quantity := LongOf(buf[SIZEOF_DOUBLE..STRINGS_AT]);
      Some(Decoded(Record(f.name, f.sku, buf[..SIZEOF_DOUBLE], quantity, f.category, f.vendor), f.rest))
  }

  /* ----- The codec's laws ----- */

  lemma {:induction false} ReadsBack(s: bytes, after: bytes)
    requires NUL !in s
    ensures ReadString(Terminated(s) + after) == Some(StringRead(s, after))
  {
    var buf := Terminated(s) + after;
    if s == [] {
      assert buf[1..] == after;
    } else {
      assert buf[1..] == Terminated(s[1..]) + after;
      assert s == [s[0]] + s[1..];
      ReadsBack(s[1..], after);
    }
  }

  // What is read is the bytes up to the first NUL.
  lemma {:induction false} ReadStringMeaning(buf: bytes)
    ensures ReadString(buf).Some? <==> NUL in buf
    ensures ReadString(buf).Some? ==>
              var r := ReadString(buf).value; NUL !in r.s && buf == Terminated(r.s) + r.rest
  {
    if buf != [] && buf[0] != NUL {
      ReadStringMeaning(buf[1..]);
      assert buf == [buf[0]] + buf[1..];
    }
  }

  lemma DecodedIsNulFree(buf: bytes)
    requires Decode(buf).Some?
    ensures NulFree(Decode(buf).value.record)
  {
    var b0 := buf[STRINGS_AT..];
    ReadStringMeaning(b0);
    var b1 := ReadString(b0).value.rest;
    ReadStringMeaning(b1);
    var b2 := ReadString(b1).value.rest;
    ReadStringMeaning(b2);
    ReadStringMeaning(ReadString(b2).value.rest);
  }

  // The strings of a record, one after the other, and what follows.
  function Packed(r: Record, tail: bytes): bytes {
    Terminated(r.name) + (Terminated(r.sku) + (Terminated(r.category) + (Terminated(r.vendor) + tail)))
  }

  lemma Layout(r: Record, tail: bytes)
    ensures Encode(r) + tail == (r.price + LongBytes(r.quantity)) + Packed(r, tail)
  {
  }

  lemma StringsInARow(a: bytes, b: bytes, c: bytes, d: bytes, rest: bytes)
    ensures Terminated(a) + (Terminated(b) + (Terminated(c) + (Terminated(d) + rest)))
            == a + ['\0'] + b + ['\0'] + c + ['\0'] + d + ['\0'] + rest
  {
  }

  /**
   Where everything is: the price in the first eight bytes, the quantity in the
   next eight, then name, SKU, category and vendor, each with its terminator.
   */
  lemma EncodedLayout(r: Record)
    ensures |Encode(r)| == |r.name| + |r.sku| + |r.category| + |r.vendor| + 20
    ensures Encode(r)[..8] == r.price && LongOf(Encode(r)[8..16]) == r.quantity
    ensures Encode(r)[16..] == r.name + ['\0'] + r.sku + ['\0'] + r.category + ['\0'] + r.vendor + ['\0']
  {
    assert Encode(r) + [] == Encode(r);
    Layout(r, []);
    NumbersReadBack(r, Packed(r, []));
    StringsInARow(r.name, r.sku, r.category, r.vendor, []);
  }

  lemma StringsRead(buf: bytes)
    requires ReadStrings(buf).Some?
    ensures var f := ReadStrings(buf).value;
            buf == Terminated(f.name) + (Terminated(f.sku) + (Terminated(f.category) + (Terminated(f.vendor) + f.rest)))
  {
    ReadStringMeaning(buf);
    var name := ReadString(buf).value;
    ReadStringMeaning(name.rest);
    var sku := ReadString(name.rest).value;
    ReadStringMeaning(sku.rest);
    ReadStringMeaning(ReadString(sku.rest).value.rest);
  }

  /**
   What is read from any buffer: a price from the first eight bytes, a quantity
   from the next eight, then four strings, each up to the next NUL.
   */
  lemma DecodedLayout(buf: bytes)
    requires Decode(buf).Some?
    ensures var r, rest := Decode(buf).value.record, Decode(buf).value.rest;
            && |buf| >= 16 && buf[..8] == r.price && buf[8..16] == LongBytes(r.quantity)
            && '\0' !in r.name && '\0' !in r.sku && '\0' !in r.category && '\0' !in r.vendor
            && buf[16..] == r.name + ['\0'] + r.sku + ['\0'] + r.category + ['\0'] + r.vendor + ['\0'] + rest
  {
    DecodedIsNulFree(buf);
    WordIsLongBytes(buf[8..16]);
    StringsRead(buf[16..]);
    var f := ReadStrings(buf[16..]).value;
    StringsInARow(f.name, f.sku, f.category, f.vendor, f.rest);
  }

  lemma StringsReadBack(r: Record, tail: bytes)
    requires NulFree(r)
    ensures ReadStrings(Packed(r, tail)) == Some(Strings(r.name, r.sku, r.category, r.vendor, tail))
  {
    var afterCategory := Terminated(r.vendor) + tail;
    var afterSku := Terminated(r.category) + afterCategory;
    ReadsBack(r.name, Terminated(r.sku) + afterSku);
    ReadsBack(r.sku, afterSku);
    ReadsBack(r.category, afterCategory);
    ReadsBack(r.vendor, tail);
  }

  lemma NumbersReadBack(r: Record, rest: bytes)
    ensures var buf := (r.price + LongBytes(r.quantity)) + rest;
            && buf[..SIZEOF_DOUBLE] == r.price
            && LongOf(buf[SIZEOF_DOUBLE..STRINGS_AT]) == r.quantity
            && buf[STRINGS_AT..] == rest
  {
    var buf := (r.price + LongBytes(r.quantity)) + rest;
    assert buf[SIZEOF_DOUBLE..STRINGS_AT] == LongBytes(r.quantity);
    LongRoundTrip(r.quantity);
  }

  /** A NUL-free record is recovered whatever bytes follow it: the form is self-delimiting. */
  lemma DecodesWithTail(r: Record, tail: bytes)
    requires NulFree(r)
    ensures Decode(Encode(r) + tail) == Some(Decoded(r, tail))
  {
    Layout(r, tail);
    NumbersReadBack(r, Packed(r, tail));
    StringsReadBack(r, tail);
  }

  // A read that starts before the end of a terminated string leaves what follows that string.
  lemma {:induction false} ReadKeepsWhatFollows(before: bytes, s: bytes, after: bytes) returns (left: bytes)
    ensures ReadString(before + (Terminated(s) + after)).Some?
    ensures ReadString(before + (Terminated(s) + after)).value.rest == left + after
    decreases |before| + |s|
  {
    var buf := before + (Terminated(s) + after);
    if before == [] {
      if s == [] {
        left := [];
        assert buf[1..] == left + after;
      } else if s[0] == NUL {
        left := Terminated(s[1..]);
        assert buf[1..] == left + after;
      } else {
        left := ReadKeepsWhatFollows([], s[1..], after);
        assert buf[1..] == [] + (Terminated(s[1..]) + after);
      }
    } else if before[0] == NUL {
      left := before[1..] + Terminated(s);
      assert buf[1..] == left + after;
    } else {
      left := ReadKeepsWhatFollows(before[1..], s, after);
      assert buf[1..] == before[1..] + (Terminated(s) + after);
    }
  }

  lemma StringsReadable(r: Record)
    ensures ReadStrings(Packed(r, [])).Some?
  {
    var afterCategory := Terminated(r.vendor) + [];
    var afterSku := Terminated(r.category) + afterCategory;
    var afterName := Terminated(r.sku) + afterSku;
    assert [] + Packed(r, []) == Packed(r, []);
    var l1 := ReadKeepsWhatFollows([], r.name, afterName);
    var l2 := ReadKeepsWhatFollows(l1, r.sku, afterSku);
    var l3 := ReadKeepsWhatFollows(l2, r.category, afterCategory);
    var l4 := ReadKeepsWhatFollows(l3, r.vendor, []);
  }

  /** Whatever its strings contain, reading an encoded record back stays inside its bytes. */
  lemma EncodedIsDecodable(r: Record)
    ensures Decode(Encode(r)).Some?
  {
    assert Encode(r) + [] == Encode(r);
    Layout(r, []);
    NumbersReadBack(r, Packed(r, []));
    StringsReadable(r);
  }

  /** Unmarshalling restores the record, and ends where marshalling did, exactly when no string holds a NUL. */
  lemma RoundTripIff(r: Record)
    ensures Decode(Encode(r)) == Some(Decoded(r, [])) <==> NulFree(r)
  {
    assert Encode(r) + [] == Encode(r);
    if NulFree(r) {
      DecodesWithTail(r, []);
    } else {
      EncodedIsDecodable(r);
      DecodedIsNulFree(Encode(r));
    }
  }

  /** Equal bytes with any continuations come from equal records: injective and prefix-free. */
  lemma EncodingIsPrefixFree(r1: Record, tail1: bytes, r2: Record, tail2: bytes)
    requires NulFree(r1) && NulFree(r2)
    requires Encode(r1) + tail1 == Encode(r2) + tail2
    ensures r1 == r2 && tail1 == tail2
  {
    DecodesWithTail(r1, tail1);
    DecodesWithTail(r2, tail2);
  }

  /* ----- The class ----- */

  class InventoryData {
    var category: bytes
    var name: bytes
    var vendor: bytes
    var sku: bytes
    var price: Double
    var quantity: Long
    var bufLen: nat
    const databuf: array<byte>

    ghost predicate Valid() {
      databuf.Length == CAPACITY
    }

    function Value(): Record
      reads this
    {
      Record(name, sku, price, quantity, category, vendor)
    }

    constructor ()
      ensures Valid() && fresh(databuf)
      ensures Value() == Record([], [], ZERO_BITS, 0, [], [])
    {
      databuf := new byte[CAPACITY](_ => NUL);
      price, quantity, category, name, vendor, sku := ZERO_BITS, 0, [], [], [], [];
      bufLen := 0;
    }

    /** From the bytes of a database record; the caller's buffer must hold all that is read. */
    constructor FromBuffer(buf: bytes)
      requires Decode(buf).Some?
      ensures Valid() && fresh(databuf)
      ensures Value() == Decode(buf).value.record
      ensures bufLen + |Decode(buf).value.rest| == |buf|
    {
      databuf := new byte[CAPACITY](_ => NUL);
      price := buf[..SIZEOF_DOUBLE];
      bufLen := SIZEOF_DOUBLE;
      quantity := LongOf(buf[SIZEOF_DOUBLE..STRINGS_AT]);
      bufLen := SIZEOF_DOUBLE + SIZEOF_LONG;
      new;
      // `read.rest` is the buffer from `bufLen` on.
      var read := ReadString(buf[bufLen..]).value;
      name := read.s;
      bufLen := bufLen + |name| + 1;
      read := ReadString(read.rest).value;
      sku := read.s;
      bufLen := bufLen + |sku| + 1;
      read := ReadString(read.rest).value;
      category := read.s;
      bufLen := bufLen + |category| + 1;
      read := ReadString(read.rest).value;
      vendor := read.s;
      bufLen := bufLen + |vendor| + 1;
    }

    // A zero price is eight zero bytes.
    method Clear()
      modifies this
      ensures Value() == Record([], [], ZERO_BITS, 0, [], [])
    {
      price, quantity, category, name, vendor, sku := ZERO_BITS, 0, [], [], [], [];
    }

    // `b` has been written and the rest of the buffer is still zero.
    ghost predicate Holds(b: bytes)
      reads this, databuf
      requires Valid()
    {
      && bufLen == |b| <= CAPACITY
      && databuf[..bufLen] == b
      && forall i :: bufLen <= i < CAPACITY ==> databuf[i] == NUL
    }

    // `memcpy` of `s` to the cursor, which it advances; false when it would leave the array.
    method Copy(s: bytes, ghost written: bytes) returns (ok: bool)
      requires Valid() && Holds(written)
      modifies this`bufLen, databuf
      ensures ok <==> |written| + |s| <= CAPACITY
      ensures Holds(if ok then written + s else written)
    {
      ok := bufLen + |s| <= CAPACITY;
      if ok {
        forall i | 0 <= i < |s| {
          databuf[bufLen + i] := s[i];
        }
        bufLen := bufLen + |s|;
        assert databuf[..bufLen] == written + s;
      }
    }

    method PackString(s: bytes, ghost written: bytes) returns (ok: bool)
      requires Valid() && Holds(written)
      modifies this`bufLen, databuf
      ensures ok <==> |written| + |s| + 1 <= CAPACITY
      ensures Holds(if ok then written + Terminated(s) else written)
    {
      ok := Copy(Terminated(s), written);
    }

    /**
     Fills the buffer. True exactly when every write stays inside the 500 bytes;
     then the buffer is the encoded record followed by zeros.
     */
    method GetBuffer() returns (ok: bool)
      requires Valid()
      modifies this`bufLen, databuf
      ensures ok <==> |name| + |sku| + |category| + |vendor| + 20 <= 500
      ensures ok ==> Holds(Encode(Value()))
    {
      forall i | 0 <= i < CAPACITY {
        databuf[i] := NUL;
      }
      bufLen := 0;
      ghost var b0 := price + LongBytes(quantity);
      ok := Copy(price, []);
      ok := Copy(LongBytes(quantity), price);
      ok := PackString(name, b0);
      if !ok { return; }
      ghost var b1 := b0 + Terminated(name);
      ok := PackString(sku, b1);
      if !ok { return; }
      ghost var b2 := b1 + Terminated(sku);
      ok := PackString(category, b2);
      if !ok { return; }
      ok := PackString(vendor, b2 + Terminated(category));
    }
  }

  /* ----- get_item_name ----- */

  // `strlen` stays inside the record's bytes, or is not reached.
  predicate Readable(data: bytes) {
    STRINGS_AT <= |data| ==> ReadString(data[STRINGS_AT..]).Some?
  }

  /** The secondary key of stored bytes, terminator included; None when the callback refuses. */
  function ItemName(data: bytes): (key: Option<bytes>)
    requires Readable(data)
  {
    if STRINGS_AT > |data| then None else Some(Terminated(ReadString(data[STRINGS_AT..]).value.s))
  }

  /** Reading at the fixed offset agrees with unmarshalling the whole record. */
  lemma ItemNameIsDecodedName(data: bytes)
    requires Decode(data).Some?
    ensures Readable(data) && ItemName(data) == Some(Terminated(Decode(data).value.record.name))
  {
  }

  /**
   The callback refuses exactly data shorter than the fixed offset of 16; its key
   is otherwise what stands there up to and including the first NUL.
   */
  lemma ItemNameLayout(data: bytes)
    requires |data| >= 16 ==> '\0' in data[16..]
    ensures Readable(data) && (ItemName(data).None? <==> |data| < 16)
    ensures ItemName(data).Some? ==>
              var key := ItemName(data).value;
              && 1 <= |key| <= |data| - 16 && key == data[16..16 + |key|]
              && key[|key| - 1] == '\0' && '\0' !in key[..|key| - 1]
  {
    if |data| >= 16 {
      ReadStringMeaning(data[16..]);
    }
  }

  lemma TerminatedInjective(a: bytes, b: bytes)
    ensures Terminated(a) == Terminated(b) <==> a == b
  {
    assert Terminated(a)[..|a|] == a && Terminated(b)[..|b|] == b;
  }

  /** The callback finds the record's own name exactly when that name holds no NUL. */
  lemma ItemNameOfEncoded(r: Record)
    ensures Readable(Encode(r))
    ensures ItemName(Encode(r)) == Some(Terminated(r.name)) <==> NUL !in r.name
  {
    EncodedIsDecodable(r);
    ItemNameIsDecodedName(Encode(r));
    DecodedIsNulFree(Encode(r));
    TerminatedInjective(r.name, Decode(Encode(r)).value.record.name);
    if NUL !in r.name {
      assert Encode(r) + [] == Encode(r);
      Layout(r, []);
      NumbersReadBack(r, Packed(r, []));
      ReadsBack(r.name, Terminated(r.sku) + (Terminated(r.category) + (Terminated(r.vendor) + [])));
    }
  }
}
