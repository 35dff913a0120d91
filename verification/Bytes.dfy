/**
 Byte strings, C strings, and the byte order Berkeley DB sorts keys by.
 */
module Bytes {

  // A C++ `char`: an eight-bit value.
  type byte = c: char | c as int < 256
  type bytes = seq<byte>

  const NUL: byte := '\0'

  datatype Option<+T> = None | Some(value: T)

  /** The position of the first `x` in `s`. */
  function IndexOf(s: bytes, x: byte): (n: nat)
    requires x in s
    ensures n < |s| && s[n] == x
  {
    if s[0] == x then 0 else 1 + IndexOf(s[1..], x)
  }

  lemma {:induction false} IndexOfFirst(before: bytes, x: byte, after: bytes)
    requires x !in before
    ensures IndexOf(before + [x] + after, x) == |before|
  {
    if before != [] {
      assert (before + [x] + after)[1..] == before[1..] + [x] + after;
      assert before[0] in before;
      IndexOfFirst(before[1..], x, after);
    }
  }

  lemma {:induction false} IndexOfIsFirst(s: bytes, x: byte)
    requires x in s
    ensures x !in s[..IndexOf(s, x)]
  {
    if s[0] != x {
      IndexOfIsFirst(s[1..], x);
      assert s[..IndexOf(s, x)] == [s[0]] + s[1..][..IndexOf(s[1..], x)];
    }
  }

  /** `s` as `c_str()` stores it: its bytes and the terminator. */
  function Terminated(s: bytes): (z: bytes)
    ensures |z| == |s| + 1
  {
    s + [NUL]
  }

  /* ----- Key order: bytewise, a proper prefix first ----- */

  predicate Less(a: bytes, b: bytes) {
    b != [] && (a == [] || a[0] < b[0] || (a[0] == b[0] && Less(a[1..], b[1..])))
  }

  // The first difference decides: up to it the strings agree, and there `a` ends or is smaller.
  lemma {:induction false} DifferenceDecides(a: bytes, b: bytes, n: nat)
    requires n <= |a| && n < |b| && a[..n] == b[..n] && (n == |a| || a[n] < b[n])
    ensures Less(a, b)
  {
    if n > 0 {
      assert a[0] == a[..n][0] && b[0] == b[..n][0];
      assert a[1..][..n - 1] == a[..n][1..] && b[1..][..n - 1] == b[..n][1..];
      DifferenceDecides(a[1..], b[1..], n - 1);
    }
  }

  lemma {:induction false} FirstDifference(a: bytes, b: bytes) returns (n: nat)
    requires Less(a, b)
    ensures n <= |a| && n < |b| && a[..n] == b[..n] && (n == |a| || a[n] < b[n])
  {
    n := 0;
    if a != [] && a[0] == b[0] {
      n := FirstDifference(a[1..], b[1..]);
      n := n + 1;
      assert a[..n] == [a[0]] + a[1..][..n - 1] && b[..n] == [b[0]] + b[1..][..n - 1];
    }
  }

  /** The order is the bytewise one: decided by the first difference, a proper prefix first. */
  lemma LessIsFirstDifference(a: bytes, b: bytes)
    ensures Less(a, b)
            <==> exists n: nat :: n <= |a| && n < |b| && a[..n] == b[..n] && (n == |a| || a[n] < b[n])
  {
    if Less(a, b) {
      var n := FirstDifference(a, b);
    }
    if n: nat :| n <= |a| && n < |b| && a[..n] == b[..n] && (n == |a| || a[n] < b[n]) {
      DifferenceDecides(a, b, n);
    }
  }

  lemma LessIrreflexive(a: bytes)
    ensures !Less(a, a)
  {
  }

  lemma {:induction false} LessTransitive(a: bytes, b: bytes, c: bytes)
    requires Less(a, b) && Less(b, c)
    ensures Less(a, c)
  {
    if a != [] && a[0] == b[0] && b[0] == c[0] {
      LessTransitive(a[1..], b[1..], c[1..]);
    }
  }

  lemma {:induction false} LessTotal(a: bytes, b: bytes)
    ensures Less(a, b) || a == b || Less(b, a)
  {
    if a != [] && b != [] && a[0] == b[0] {
      LessTotal(a[1..], b[1..]);
      assert a == [a[0]] + a[1..] && b == [b[0]] + b[1..];
    }
  }

  // Storing keys with their terminator does not change their order.
  lemma {:induction false} TerminatorKeepsOrder(a: bytes, b: bytes)
    ensures Less(Terminated(a), Terminated(b)) <==> Less(a, b)
  {
    if a != [] && b != [] {
      assert Terminated(a)[1..] == Terminated(a[1..]);
      assert Terminated(b)[1..] == Terminated(b[1..]);
      TerminatorKeepsOrder(a[1..], b[1..]);
    } else if a == [] && b != [] {
      assert Terminated(b)[1..] != [];
    } else if b == [] && a != [] {
      assert Terminated(b)[1..] == [];
    }
  }

  /* ----- Sorted enumeration of a finite set of keys ----- */

  ghost predicate IsLeast(k: bytes, keys: set<bytes>) {
    k in keys && forall x :: x in keys && x != k ==> Less(k, x)
  }

  lemma {:induction false} LeastExists(keys: set<bytes>)
    requires keys != {}
    ensures exists k :: IsLeast(k, keys)
    decreases |keys|
  {
    var k :| k in keys;
    var rest := keys - {k};
    if rest == {} {
      assert keys == {k};
      assert IsLeast(k, keys);
    } else {
      LeastExists(rest);
      var m :| IsLeast(m, rest);
      LessTotal(k, m);
      if Less(k, m) {
        forall x | x in keys && x != k ensures Less(k, x) {
          if x != m { LessTransitive(k, m, x); }
        }
        assert IsLeast(k, keys);
      } else {
        assert IsLeast(m, keys);
      }
    }
  }

  ghost function Least(keys: set<bytes>): (k: bytes)
    requires keys != {}
    ensures k in keys
  {
    LeastExists(keys);
    var k :| IsLeast(k, keys); k
  }

  lemma LeastIsLeast(keys: set<bytes>)
    requires keys != {}
    ensures IsLeast(Least(keys), keys)
  {
    LeastExists(keys);
  }

  lemma LeastUnique(keys: set<bytes>, k: bytes)
    requires IsLeast(k, keys)
    ensures k == Least(keys)
  {
    var m := Least(keys);
    LeastIsLeast(keys);
    if k != m {
      LessTransitive(k, m, k);
      LessIrreflexive(k);
    }
  }

  /** The keys of a B-tree in the order a cursor meets them. */
  ghost function Sorted(keys: set<bytes>): seq<bytes>
    decreases |keys|
  {
    if keys == {} then [] else [Least(keys)] + Sorted(keys - {Least(keys)})
  }

  lemma {:induction false} SortedLists(keys: set<bytes>)
    ensures |Sorted(keys)| == |keys|
    ensures forall k :: k in Sorted(keys) <==> k in keys
    decreases |keys|
  {
    if keys != {} {
      SortedLists(keys - {Least(keys)});
    }
  }

  ghost predicate Increasing(s: seq<bytes>) {
    forall i, j :: 0 <= i < j < |s| ==> Less(s[i], s[j])
  }

  lemma {:induction false} SortedIncreases(keys: set<bytes>)
    ensures Increasing(Sorted(keys))
    decreases |keys|
  {
    if keys != {} {
      LeastIsLeast(keys);
      SortedIncreases(keys - {Least(keys)});
      SortedLists(keys - {Least(keys)});
      var rest := Sorted(keys - {Least(keys)});
      forall j | 0 <= j < |rest| ensures Less(Least(keys), rest[j]) {
        assert rest[j] in rest;
      }
    }
  }
}
