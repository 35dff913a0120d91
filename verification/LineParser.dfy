/**
 `#`-separated inventory lines: `getNextPound` and the six calls that take a
 line apart (excxx_example_database_load.cpp).
 */
module LineParser {
  import opened Bytes

  const POUND: byte := '#'
  const NEWLINE: byte := '\n'

  // `std::string::npos`; adding one to it wraps to zero in a 64-bit `size_t`.
  const NPOS: nat := 0xFFFF_FFFF_FFFF_FFFF

  /* ----- Splitting and joining ----- */

  /** The fields of `s` between occurrences of `d`; `n` delimiters make `n + 1` fields. */
  function Split(s: bytes, d: byte): (parts: seq<bytes>)
    ensures |parts| >= 1
  {
    if d !in s then [s] else [s[..IndexOf(s, d)]] + Split(s[IndexOf(s, d) + 1..], d)
  }

  function Join(parts: seq<bytes>, d: byte): bytes
    requires |parts| >= 1
  {
    if |parts| == 1 then parts[0] else parts[0] + [d] + Join(parts[1..], d)
  }

  ghost predicate FreeOf(parts: seq<bytes>, d: byte) {
    forall i :: 0 <= i < |parts| ==> d !in parts[i]
  }

  lemma {:induction false} JoinInvertsSplit(s: bytes, d: byte)
    ensures FreeOf(Split(s, d), d) && Join(Split(s, d), d) == s
  {
    if d in s {
      var n := IndexOf(s, d);
      IndexOfIsFirst(s, d);
      JoinInvertsSplit(s[n + 1..], d);
      assert Split(s, d)[1..] == Split(s[n + 1..], d);
      assert s == s[..n] + [d] + s[n + 1..];
    }
  }

  lemma SplitFirst(field: bytes, d: byte, after: bytes)
    requires d !in field
    ensures Split(field + [d] + after, d) == [field] + Split(after, d)
  {
    IndexOfFirst(field, d, after);
    var s := field + [d] + after;
    assert s[|field|] == d && s[..|field|] == field && s[|field| + 1..] == after;
  }

  lemma {:induction false} SplitInvertsJoin(parts: seq<bytes>, d: byte)
    requires |parts| >= 1 && FreeOf(parts, d)
    ensures Split(Join(parts, d), d) == parts
  {
    if |parts| > 1 {
      var more := Join(parts[1..], d);
      SplitInvertsJoin(parts[1..], d);
      SplitFirst(parts[0], d, more);
      assert Join(parts, d) == parts[0] + [d] + more;
      assert parts == [parts[0]] + parts[1..];
    }
  }

  // Every byte of a field is a byte of the string it was cut from.
  lemma {:induction false} SplitAddsNothing(s: bytes, d: byte, x: byte)
    requires x !in s
    ensures FreeOf(Split(s, d), x)
  {
    if d in s {
      SplitAddsNothing(s[IndexOf(s, d) + 1..], d, x);
    }
  }

  // Nor does joining add any byte but the delimiter.
  lemma {:induction false} JoinAddsNothing(parts: seq<bytes>, d: byte, x: byte)
    requires |parts| >= 1 && FreeOf(parts, x) && x != d
    ensures x !in Join(parts, d)
  {
    if |parts| > 1 {
      JoinAddsNothing(parts[1..], d, x);
    }
  }

  /* ----- getNextPound ----- */

  /** A `std::string` object that callees overwrite through a reference. */
  class StdString {
    var value: bytes

    constructor (s: bytes)
      ensures value == s
    {
      value := s;
    }
  }

  // `s.find(d)`
  function FindOrNpos(s: bytes, d: byte): nat {
    if d in s then IndexOf(s, d) else NPOS
  }

  // The part of `s` that `assign(s, from, count)` copies; it throws when `from` is past the end.
  function Substring(s: bytes, from: nat, count: nat): bytes
    requires from <= |s|
  {
    s[from..if count < |s| - from then from + count else |s|]
  }

  /**
   The field before the first `#` goes to `substring`, the rest stays in
   `theString`. Without a `#` the position wraps to zero, so `theString` keeps
   its value and the next call delivers the same field again.
   */
  method GetNextPound(theString: StdString, substring: StdString) returns (pos: nat)
    requires theString != substring
    requires |theString.value| < NPOS
    modifies theString, substring
    ensures pos == NPOS <==> '#' !in old(theString.value)
    ensures pos != NPOS ==>
              old(theString.value) == substring.value + ['#'] + theString.value && '#' !in substring.value
    ensures pos == NPOS ==> old(theString.value) == substring.value == theString.value
    ensures substring.value == FirstField(old(theString.value))
    ensures theString.value == Remainder(old(theString.value))
  {
    pos := FindOrNpos(theString.value, POUND);
    if POUND in theString.value { IndexOfIsFirst(theString.value, POUND); }
    substring.value := Substring(theString.value, 0, pos);
    theString.value := Substring(theString.value, NextPos(pos), |theString.value|);
  }

  // `pos + 1` in a `size_t`.
  function NextPos(pos: nat): nat {
    (pos + 1) % (NPOS + 1)
  }

  function FirstField(s: bytes): bytes {
    if POUND in s then s[..IndexOf(s, POUND)] else s
  }

  // What one call leaves.
  function Remainder(s: bytes): (r: bytes)
    ensures |r| <= |s|
  {
    if POUND in s then s[IndexOf(s, POUND) + 1..] else s
  }

  /* ----- Successive calls on one line ----- */

  // What `i` calls leave of `line`.
  function Rest(line: bytes, i: nat): (r: bytes)
    ensures |r| <= |line|
  {
    if i == 0 then line else Remainder(Rest(line, i - 1))
  }

  // The index of the field that call number `i` takes from `n` fields: the last one repeats.
  function FieldIndex(i: nat, n: nat): (k: nat)
    requires n >= 1
    ensures k < n
  {
    if i < n then i else n - 1
  }

  /** What call number `i` of `GetNextPound` on one line should yield. */
  function Field(line: bytes, i: nat): bytes {
    var parts := Split(line, POUND);
    parts[FieldIndex(i, |parts|)]
  }

  // The fields left after one was taken.
  function DropField(parts: seq<bytes>): seq<bytes> {
    if |parts| > 1 then parts[1..] else parts
  }

  lemma RemainderSplits(s: bytes)
    ensures Split(Remainder(s), POUND) == DropField(Split(s, POUND))
  {
    if POUND in s {
      assert Split(s, POUND)[1..] == Split(Remainder(s), POUND);
    }
  }

  function Drops(parts: seq<bytes>, i: nat): seq<bytes> {
    if i == 0 then parts else DropField(Drops(parts, i - 1))
  }

  lemma {:induction false} DropsLeave(parts: seq<bytes>, i: nat)
    requires parts != []
    ensures Drops(parts, i) == parts[FieldIndex(i, |parts|)..]
  {
    if i > 0 {
      DropsLeave(parts, i - 1);
    }
  }

  lemma {:induction false} RestSplits(line: bytes, i: nat)
    ensures Split(Rest(line, i), POUND) == Drops(Split(line, POUND), i)
  {
    if i > 0 {
      RestSplits(line, i - 1);
      RemainderSplits(Rest(line, i - 1));
    }
  }

  /** Call number `i` yields field number `i` of the split, or the last one. */
  lemma CallYieldsField(line: bytes, i: nat)
    ensures FirstField(Rest(line, i)) == Field(line, i)
  {
    RestSplits(line, i);
    DropsLeave(Split(line, POUND), i);
  }

  // Call number `i` on what `i` calls have left of `line`.
  method TakeField(theString: StdString, substring: StdString, ghost line: bytes, ghost i: nat)
    requires theString != substring
    requires |line| < NPOS && theString.value == Rest(line, i)
    modifies theString, substring
    ensures substring.value == Field(line, i)
    ensures theString.value == Rest(line, i + 1)
  {
    var nextPound := GetNextPound(theString, substring);
    CallYieldsField(line, i);
  }

  // A line of at least six fields gives the first six, whatever follows them.
  lemma FieldsRecovered(parts: seq<bytes>, i: nat)
    requires |parts| >= 6 && i < 6 && FreeOf(parts, POUND)
    ensures Field(Join(parts, POUND), i) == parts[i]
  {
    SplitInvertsJoin(parts, POUND);
  }

  // A shorter line repeats its last field in every remaining position.
  lemma ShortLineRepeats(parts: seq<bytes>, i: nat)
    requires 1 <= |parts| <= i && FreeOf(parts, POUND)
    ensures Field(Join(parts, POUND), i) == parts[|parts| - 1]
  {
    SplitInvertsJoin(parts, POUND);
  }
}
