/**
 The menu program when no call throws (bdb_vfs.cpp): what the keys entered,
 alone, decide about the three tables and the three vectors.
 */
module MenuKeys {
  import opened TripleMenu

  /* ----- What a table holds after whole loads ----- */

  // `values` over and over, `k` times.
  function Cycle(values: seq<string>, k: nat): seq<string> {
    if k == 0 then [] else Cycle(values, k - 1) + values
  }

  lemma {:induction false} CycleMeaning(values: seq<string>, k: nat)
    requires |values| == 3
    ensures |Cycle(values, k)| == 3 * k
    ensures forall x :: 0 <= x < 3 * k ==> Cycle(values, k)[x] == values[x % 3]
  {
    if k > 0 {
      CycleMeaning(values, k - 1);
      assert forall x :: 3 * (k - 1) <= x < 3 * k ==> x % 3 == x - 3 * (k - 1);
    }
  }

  lemma {:induction false} CyclesAppend(values: seq<string>, j: nat, k: nat)
    ensures Cycle(values, j) + Cycle(values, k) == Cycle(values, j + k)
  {
    if k > 0 {
      CyclesAppend(values, j, k - 1);
      assert Cycle(values, j) + Cycle(values, k) == Cycle(values, j) + Cycle(values, k - 1) + values;
    }
  }

  /* ----- Counting keys ----- */

  // The 2-keys between key `c` and key `n`.
  function Loads(keys: seq<int>, c: nat, n: nat): nat
    requires n <= |keys|
  {
    if n <= c + 1 then 0 else Loads(keys, c, n - 1) + if keys[n - 1] == 2 then 1 else 0
  }

  // The pairs of a 2-key and a later 3-key between key `c` and key `n`.
  function Shows(keys: seq<int>, c: nat, n: nat): nat
    requires n <= |keys|
  {
    if n <= c + 1 then 0 else Shows(keys, c, n - 1) + if keys[n - 1] == 3 then Loads(keys, c, n - 1) else 0
  }

  ghost function LoadKeys(keys: seq<int>, c: nat, n: nat): set<int>
    requires n <= |keys|
  {
    set i | c < i < n && keys[i] == 2
  }

  ghost function ShowPairs(keys: seq<int>, c: nat, n: nat): set<(int, int)>
    requires n <= |keys|
  {
    set i, j | c < i < j < n && keys[i] == 2 && keys[j] == 3 :: (i, j)
  }

  lemma {:induction false} LoadsCounted(keys: seq<int>, c: nat, n: nat)
    requires n <= |keys|
    ensures Loads(keys, c, n) == |LoadKeys(keys, c, n)|
    decreases n
  {
    if n <= c + 1 {
      assert LoadKeys(keys, c, n) == {};
    } else {
      LoadsCounted(keys, c, n - 1);
      if keys[n - 1] == 2 {
        assert LoadKeys(keys, c, n) == LoadKeys(keys, c, n - 1) + {n - 1};
      } else {
        assert LoadKeys(keys, c, n) == LoadKeys(keys, c, n - 1);
      }
    }
  }

  // The pairs whose later key is key `j`, as far as the earlier one is before key `n`.
  ghost function PairsWith(keys: seq<int>, c: nat, n: nat, j: nat): set<(int, int)>
    requires n <= |keys|
  {
    set i | c < i < n && keys[i] == 2 :: (i, j)
  }

  lemma {:induction false} PairsWithCounted(keys: seq<int>, c: nat, n: nat, j: nat)
    requires n <= |keys|
    ensures Loads(keys, c, n) == |PairsWith(keys, c, n, j)|
    decreases n
  {
    if n <= c + 1 {
      assert PairsWith(keys, c, n, j) == {};
    } else {
      PairsWithCounted(keys, c, n - 1, j);
      if keys[n - 1] == 2 {
        assert PairsWith(keys, c, n, j) == PairsWith(keys, c, n - 1, j) + {(n - 1, j)};
      } else {
        assert PairsWith(keys, c, n, j) == PairsWith(keys, c, n - 1, j);
      }
    }
  }

  lemma InShowPairs(keys: seq<int>, c: nat, n: nat, x: (int, int))
    requires n <= |keys|
    ensures x in ShowPairs(keys, c, n) <==> c < x.0 < x.1 < n && keys[x.0] == 2 && keys[x.1] == 3
  {
  }

  lemma InPairsWith(keys: seq<int>, c: nat, n: nat, j: nat, x: (int, int))
    requires n <= |keys|
    ensures x in PairsWith(keys, c, n, j) <==> c < x.0 < n && x.1 == j && keys[x.0] == 2
  {
  }

  lemma ShowPairsStep(keys: seq<int>, c: nat, n: nat)
    requires c < n < |keys|
    ensures |ShowPairs(keys, c, n + 1)| == |ShowPairs(keys, c, n)| + if keys[n] == 3 then Loads(keys, c, n) else 0
  {
    var before, after, added := ShowPairs(keys, c, n), ShowPairs(keys, c, n + 1), PairsWith(keys, c, n, n);
    PairsWithCounted(keys, c, n, n);
    forall x: (int, int)
      ensures x in after <==> x in before || (keys[n] == 3 && x in added)
      ensures !(x in before && x in added)
    {
      InShowPairs(keys, c, n, x);
      InShowPairs(keys, c, n + 1, x);
      InPairsWith(keys, c, n, n, x);
    }
    assert after == if keys[n] == 3 then before + added else before;
  }

  lemma {:induction false} ShowsCounted(keys: seq<int>, c: nat, n: nat)
    requires n <= |keys|
    ensures Shows(keys, c, n) == |ShowPairs(keys, c, n)|
    decreases n
  {
    if n <= c + 1 {
      assert ShowPairs(keys, c, n) == {};
    } else {
      ShowsCounted(keys, c, n - 1);
      ShowPairsStep(keys, c, n - 1);
    }
  }

  /* ----- The state after each key ----- */

  // Key `c` is the first that creates or closes, and key `d` the first from there on that closes.
  ghost predicate Phases(keys: seq<int>, c: nat, d: nat) {
    && c <= d <= |keys|
    && (forall i :: 0 <= i < c ==> keys[i] !in {1, 4, 5}) && (c < |keys| ==> keys[c] in {1, 4, 5})
    && (forall i :: c <= i < d ==> keys[i] !in {4, 5}) && (d < |keys| ==> keys[d] in {4, 5})
  }

  // Open tables after `loads` whole loads, vectors after prints of `shows` loads.
  function Filled(loads: nat, shows: nat): State {
    State(Open(Cycle(SUBJECTS, loads)), Open(Cycle(PREDICATES, loads)), Open(Cycle(OBJECTS, loads)),
          Cycle(SUBJECTS, shows), Cycle(PREDICATES, shows), Cycle(OBJECTS, shows))
  }

  // After the first `n` keys.
  function Expected(keys: seq<int>, c: nat, d: nat, n: nat): State
    requires n <= |keys| && d <= |keys|
  {
    if n <= c then INITIAL
    else if n <= d then Filled(Loads(keys, c, n), Shows(keys, c, n))
    else Filled(0, Shows(keys, c, d)).(s := Closed, p := Closed, o := Closed)
  }

  lemma FilledStep(loads: nat, shows: nat, e: Event)
    requires var st := Filled(loads, shows); Enabled(st, e) && Completed(st, e)
    ensures e.Create? ==> Do(Filled(loads, shows), e) == Filled(loads, shows)
    ensures e.Load? ==> Do(Filled(loads, shows), e) == Filled(loads + 1, shows)
    ensures e.Print? ==> Do(Filled(loads, shows), e) == Filled(loads, shows + loads)
    ensures e.Close? ==> Do(Filled(loads, shows), e) == Filled(0, shows).(s := Closed, p := Closed, o := Closed)
  {
    CycleMeaning(SUBJECTS, loads);
    CycleMeaning(PREDICATES, loads);
    CycleMeaning(OBJECTS, loads);
    CyclesAppend(SUBJECTS, shows, loads);
    CyclesAppend(PREDICATES, shows, loads);
    CyclesAppend(OBJECTS, shows, loads);
    if e.Print? && e.rows == 0 {
      assert loads == 0;
    }
    assert SUBJECTS[..3] == SUBJECTS && PREDICATES[..3] == PREDICATES && OBJECTS[..3] == OBJECTS;
  }

  lemma ExpectedStep(keys: seq<int>, c: nat, d: nat, n: nat, e: Event)
    requires Phases(keys, c, d) && n < |keys| && IsOfKey(e, keys[n])
    requires Enabled(Expected(keys, c, d, n), e) && Completed(Expected(keys, c, d, n), e)
    ensures Do(Expected(keys, c, d, n), e) == Expected(keys, c, d, n + 1)
  {
    if c < n <= d {
      FilledStep(Loads(keys, c, n), Shows(keys, c, n), e);
    }
  }

  lemma {:induction false} KeysDecide(keys: seq<int>, c: nat, d: nat, ss: seq<State>, es: seq<Event>, n: nat)
    requires Phases(keys, c, d) && Passed(keys, |keys|, ss, es) && ss[0] == INITIAL && n <= |keys|
    requires forall i :: 0 <= i < |keys| ==> Completed(ss[i], es[i])
    ensures ss[n] == Expected(keys, c, d, n)
  {
    if n > 0 {
      KeysDecide(keys, c, d, ss, es, n - 1);
      ExpectedStep(keys, c, d, n - 1, es[n - 1]);
    }
  }

  // In the end.
  lemma ExpectedIs(keys: seq<int>, c: nat, d: nat)
    requires Phases(keys, c, d)
    ensures var st, shows := Expected(keys, c, d, |keys|), Shows(keys, c, d);
            && st.subj == Cycle(SUBJECTS, shows) && st.pred == Cycle(PREDICATES, shows)
            && st.obj == Cycle(OBJECTS, shows)
            && (d < |keys| ==> st.s == st.p == st.o == Closed)
            && (c == d == |keys| ==> st.s == st.p == st.o == Unopened)
            && (c < d == |keys| ==> var loads := Loads(keys, c, d);
                                    && st.s == Open(Cycle(SUBJECTS, loads)) && st.p == Open(Cycle(PREDICATES, loads))
                                    && st.o == Open(Cycle(OBJECTS, loads)))
  {
  }

  // What rows cut from three such columns say.
  ghost predicate InsertedRows(k: nat, subjects: seq<string>, predicates: seq<string>, objects: seq<string>) {
    && |subjects| == |predicates| == |objects| == 3 * k
    && forall x :: 0 <= x < |subjects| ==>
                     && subjects[x] == ["I", "Kirill", "Katya"][x % 3]
                     && predicates[x] == ["am", "has", "sister of"][x % 3]
                     && objects[x] == ["Kirill.", "a sister.", "Kirill"][x % 3]
  }

  lemma CyclesAreRows(k: nat)
    ensures InsertedRows(k, Cycle(SUBJECTS, k), Cycle(PREDICATES, k), Cycle(OBJECTS, k))
  {
    CycleMeaning(SUBJECTS, k);
    CycleMeaning(PREDICATES, k);
    CycleMeaning(OBJECTS, k);
  }

  /**
   The whole program on any keys. Let key `c` be the first that creates or
   closes and key `d` the first from there on that closes. If no call throws, the
   vectors hold the three inserted rows once for every 2-key and later 3-key
   between them; the tables, while they are open, hold the rows once for every
   2-key; and before a create and after a close nothing is stored or shown.
   */
  method RunProgram(keys: seq<int>, ghost c: nat, ghost d: nat)
    returns (faults: nat, subjects: seq<string>, predicates: seq<string>, objects: seq<string>, s: Db, p: Db, o: Db)
    requires c <= d <= |keys|
    requires (forall i :: 0 <= i < c ==> keys[i] !in {1, 4, 5}) && (c < |keys| ==> keys[c] in {1, 4, 5})
    requires (forall i :: c <= i < d ==> keys[i] !in {4, 5}) && (d < |keys| ==> keys[d] in {4, 5})
    ensures |subjects| == |predicates| == |objects|
    ensures faults == 0 ==>
              |subjects| == 3 * |set i, j | c < i < j < d && keys[i] == 2 && keys[j] == 3 :: (i, j)|
    ensures faults == 0 ==>
              forall x :: 0 <= x < |subjects| ==>
                            && subjects[x] == ["I", "Kirill", "Katya"][x % 3]
                            && predicates[x] == ["am", "has", "sister of"][x % 3]
                            && objects[x] == ["Kirill.", "a sister.", "Kirill"][x % 3]
    ensures faults == 0 && d < |keys| ==> s == p == o == Closed
    ensures faults == 0 && c == d == |keys| ==> s == p == o == Unopened
    ensures faults == 0 && c < d == |keys| ==>
              && s.Open? && p.Open? && o.Open?
              && |s.rows| == |p.rows| == |o.rows| == 3 * |set i | c < i < |keys| && keys[i] == 2|
              && forall x :: 0 <= x < |s.rows| ==>
                               && s.rows[x] == ["I", "Kirill", "Katya"][x % 3]
                               && p.rows[x] == ["am", "has", "sister of"][x % 3]
                               && o.rows[x] == ["Kirill.", "a sister.", "Kirill"][x % 3]
  {
    var program := new Program();
    var before := program.calls.faults;
    var inRange, ss, es := program.Menu(keys);
    faults := program.calls.faults - before;
    subjects, predicates, objects := program.subjVector, program.predVector, program.objVector;
    s, p, o := program.dbS, program.dbP, program.dbO;
    if faults == 0 {
      KeysDecide(keys, c, d, ss, es, |keys|);
      ExpectedIs(keys, c, d);
      CyclesAreRows(Shows(keys, c, d));
      CyclesAreRows(Loads(keys, c, d));
      ShowsCounted(keys, c, d);
      LoadsCounted(keys, c, d);
      assert (set i, j | c < i < j < d && keys[i] == 2 && keys[j] == 3 :: (i, j)) == ShowPairs(keys, c, d);
      assert (set i | c < i < d && keys[i] == 2) == LoadKeys(keys, c, d);
    }
  }
}
