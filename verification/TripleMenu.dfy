/**
 The menu program over three Berkeley DB tables (bdb_vfs.cpp). Any database
 call may throw. A handle is opened at most once: `set_flags` throws once it is
 open, so a second create stops before it truncates, and puts and cursors need
 an open handle.
 */
module TripleMenu {
  import opened DbCalls

  // A database handle; an open one lists the duplicates of its single key in insertion order.
  datatype Db = Unopened | Open(rows: seq<string>) | Closed

  datatype State = State(s: Db, p: Db, o: Db, subj: seq<string>, pred: seq<string>, obj: seq<string>)

  const SUBJECTS: seq<string> := ["I", "Kirill", "Katya"]
  const PREDICATES: seq<string> := ["am", "has", "sister of"]
  const OBJECTS: seq<string> := ["Kirill.", "a sister.", "Kirill"]

  /* ----- Steps ----- */

  // One menu choice, with how far it got before a call threw or it returned.
  datatype Event =
    | Create(opens: nat)
    | Load(puts: nat)
    | Print(rows: nat, returned: bool)
    | Close(closed: nat)
    | Wrong          // any other key

  predicate AllOpen(st: State) {
    st.s.Open? && st.p.Open? && st.o.Open?
  }

  predicate AllUnopened(st: State) {
    st.s.Unopened? && st.p.Unopened? && st.o.Unopened?
  }

  predicate NoneClosed(st: State) {
    !st.s.Closed? && !st.p.Closed? && !st.o.Closed?
  }

  function Min3(a: nat, b: nat, c: nat): nat {
    if a <= b && a <= c then a else if b <= c then b else c
  }

  function FullRows(st: State): nat
    requires AllOpen(st)
  {
    Min3(|st.s.rows|, |st.p.rows|, |st.o.rows|)
  }

  predicate Enabled(st: State, e: Event) {
    match e
    case Create(opens) => opens <= 3 && (opens > 0 ==> AllUnopened(st))
    case Load(puts) =>
      puts <= 9 && (puts > 0 ==> st.s.Open?) && (puts > 3 ==> st.p.Open?) && (puts > 6 ==> st.o.Open?)
    case Print(rows, returned) =>
      && (rows > 0 || returned ==> AllOpen(st))
      && (AllOpen(st) ==> rows <= FullRows(st) && (returned ==> rows == FullRows(st)))
    case Close(closed) => closed <= 3
    case Wrong => true
  }

  // What the choice comes to when none of its calls throws.
  predicate Completed(st: State, e: Event) {
    match e
    case Create(opens) => AllUnopened(st) ==> opens == 3
    case Load(puts) => AllOpen(st) ==> puts == 9
    case Print(_, returned) => AllOpen(st) ==> returned
    case Close(closed) => NoneClosed(st) ==> closed == 3
    case Wrong => true
  }

  // How many of `puts` reach the table whose puts start after the first `from`.
  function PutsFrom(puts: nat, from: nat): (n: nat)
    ensures n <= 3
  {
    if puts <= from then 0 else if puts - from < 3 then puts - from else 3
  }

  function WithPuts(db: Db, values: seq<string>, n: nat): Db
    requires n <= |values|
  {
    if db.Open? then Open(db.rows + values[..n]) else db
  }

  function Do(st: State, e: Event): State
    requires Enabled(st, e)
  {
    match e
    case Create(opens) =>
      st.(s := if opens >= 1 then Open([]) else st.s,
          p := if opens >= 2 then Open([]) else st.p,
          o := if opens >= 3 then Open([]) else st.o)
    case Load(puts) =>
      st.(s := WithPuts(st.s, SUBJECTS, PutsFrom(puts, 0)),
          p := WithPuts(st.p, PREDICATES, PutsFrom(puts, 3)),
          o := WithPuts(st.o, OBJECTS, PutsFrom(puts, 6)))
    case Print(rows, _) =>
      if rows == 0 then st
      else st.(subj := st.subj + st.s.rows[..rows],
               pred := st.pred + st.p.rows[..rows],
               obj := st.obj + st.o.rows[..rows])
    case Close(closed) =>
      st.(s := if closed >= 1 then Closed else st.s,
          p := if closed >= 2 then Closed else st.p,
          o := if closed >= 3 then Closed else st.o)
    case Wrong => st
  }

  /* ----- The program ----- */

  class Program {
    const calls: Calls
    var dbS: Db
    var dbP: Db
    var dbO: Db
    var subjVector: seq<string>
    var predVector: seq<string>
    var objVector: seq<string>

    function Now(): State
      reads this
    {
      State(dbS, dbP, dbO, subjVector, predVector, objVector)
    }

    constructor ()
      ensures Now() == INITIAL && fresh(calls)
    {
      dbS, dbP, dbO := Unopened, Unopened, Unopened;
      subjVector, predVector, objVector := [], [], [];
      calls := new Calls();
    }

    // A choice returns 0 exactly when no call threw and no handle was in the wrong state for it.
    method CreateDb() returns (ret: int, ghost e: Event)
      modifies this, calls
      ensures Enabled(old(Now()), e) && Now() == Do(old(Now()), e)
      ensures e.Create? && (ret == 0 <==> e.opens == 3) && calls.faults >= old(calls.faults)
      ensures ret == 0 <==> calls.faults == old(calls.faults) && AllUnopened(old(Now()))
      ensures dbS == if e.opens >= 1 then Open([]) else old(dbS)
      ensures dbP == if e.opens >= 2 then Open([]) else old(dbP)
      ensures dbO == if e.opens >= 3 then Open([]) else old(dbO)
    {
      e := Create(0);
      var t := calls.Throws();
      if t || !dbS.Unopened? { return -1, e; }
      t := calls.Throws();
      if t || !dbP.Unopened? { return -1, e; }
      t := calls.Throws();
      if t || !dbO.Unopened? { return -1, e; }
      t := calls.Throws();
      if t { return -1, e; }
      dbS, e := Open([]), Create(1);
      t := calls.Throws();
      if t { return -1, e; }
      dbP, e := Open([]), Create(2);
      t := calls.Throws();
      if t { return -1, e; }
      dbO, e := Open([]), Create(3);
      return 0, e;
    }

    // `put` on a handle of a duplicate-keeping table; None when it throws.
    method Put(db: Db, value: string) returns (ok: bool, after: Db)
      modifies calls
      ensures calls.faults >= old(calls.faults) && (ok <==> calls.faults == old(calls.faults) && db.Open?)
      ensures ok ==> db.Open? && after == Open(db.rows + [value])
      ensures !ok ==> after == db
    {
      var t := calls.Throws();
      if t || !db.Open? { return false, db; }
      return true, Open(db.rows + [value]);
    }

    // Three puts into one table, one after the other.
    method PutAll(db: Db, values: seq<string>) returns (n: nat, after: Db)
      requires |values| == 3
      modifies calls
      ensures calls.faults >= old(calls.faults) && (n == 3 <==> calls.faults == old(calls.faults) && db.Open?)
      ensures n <= 3 && (n > 0 ==> db.Open?) && after == WithPuts(db, values, n)
    {
      var ok;
      assert db.Open? ==> db.rows + values[..0] == db.rows;
      ok, after := Put(db, values[0]);
      if !ok { return 0, after; }
      assert values[..1] == [values[0]];
      ok, after := Put(after, values[1]);
      if !ok { return 1, after; }
      assert after.rows == db.rows + values[..2];
      ok, after := Put(after, values[2]);
      if !ok { return 2, after; }
      assert after.rows == db.rows + values[..3];
      return 3, after;
    }

    method InsertDbData() returns (ret: int, ghost e: Event)
      modifies this, calls
      ensures Enabled(old(Now()), e) && Now() == Do(old(Now()), e)
      ensures e.Load? && (ret == 0 <==> e.puts == 9) && calls.faults >= old(calls.faults)
      ensures ret == 0 <==> calls.faults == old(calls.faults) && AllOpen(old(Now()))
      ensures var k := if e.puts < 3 then e.puts else 3;
              if k > 0 then dbS == Open(old(dbS).rows + ["I", "Kirill", "Katya"][..k]) else dbS == old(dbS)
      ensures var k := if e.puts < 3 then 0 else if e.puts < 6 then e.puts - 3 else 3;
              if k > 0 then dbP == Open(old(dbP).rows + ["am", "has", "sister of"][..k]) else dbP == old(dbP)
      ensures var k := if e.puts < 6 then 0 else if e.puts < 9 then e.puts - 6 else 3;
              if k > 0 then dbO == Open(old(dbO).rows + ["Kirill.", "a sister.", "Kirill"][..k]) else dbO == old(dbO)
    {
      assert forall db: Db, v: seq<string> :: |v| == 3 ==> WithPuts(db, v, 0) == db by {
        forall db: Db, v: seq<string> | |v| == 3 ensures WithPuts(db, v, 0) == db {
          assert db.Open? ==> db.rows + v[..0] == db.rows;
        }
      }
      var n;
      n, dbS := PutAll(dbS, SUBJECTS);
      e := Load(n);
      if n < 3 { return -1, e; }
      n, dbP := PutAll(dbP, PREDICATES);
      e := Load(3 + n);
      if n < 3 { return -1, e; }
      n, dbO := PutAll(dbO, OBJECTS);
      e := Load(6 + n);
      if n < 3 { return -1, e; }
      return 0, e;
    }

    // `get(DB_NEXT)` on a cursor that has delivered `i` rows.
    method Get(db: Db, i: nat) returns (threw: bool, found: bool)
      requires db.Open?
      modifies calls
      ensures calls.faults == old(calls.faults) + if threw then 1 else 0
      ensures !threw ==> (found <==> i < |db.rows|)
    {
      threw := calls.Throws();
      found := i < |db.rows|;
    }

    // One pass of the loop of `PrintDbData`: three cursors that have delivered `i` rows each.
    method PrintRow(i: nat) returns (threw: bool, found: bool)
      requires AllOpen(Now()) && i <= FullRows(Now())
      modifies `subjVector, `predVector, `objVector, calls
      ensures calls.faults == old(calls.faults) + if threw then 1 else 0
      ensures !threw ==> (found <==> i < FullRows(Now()))
      ensures if !threw && found then
                && subjVector == old(subjVector) + [dbS.rows[i]]
                && predVector == old(predVector) + [dbP.rows[i]]
                && objVector == old(objVector) + [dbO.rows[i]]
              else subjVector == old(subjVector) && predVector == old(predVector) && objVector == old(objVector)
    {
      threw, found := Get(dbS, i);
      if threw || !found { return; }
      threw, found := Get(dbP, i);
      if threw || !found { return; }
      threw, found := Get(dbO, i);
      if threw || !found { return; }
      subjVector := subjVector + [dbS.rows[i]];
      predVector := predVector + [dbP.rows[i]];
      objVector := objVector + [dbO.rows[i]];
    }

    method PrintDbData() returns (ret: int, ghost e: Event)
      modifies `subjVector, `predVector, `objVector, calls
      ensures Enabled(old(Now()), e) && Now() == Do(old(Now()), e)
      ensures e.Print? && (ret == 0 <==> e.returned) && calls.faults >= old(calls.faults)
      ensures ret == 0 <==> calls.faults == old(calls.faults) && AllOpen(old(Now()))
      ensures ret == 0 ==> e.rows == |dbS.rows| || e.rows == |dbP.rows| || e.rows == |dbO.rows|
      ensures e.rows > 0 ==>
                && e.rows <= |dbS.rows| && e.rows <= |dbP.rows| && e.rows <= |dbO.rows|
                && subjVector == old(subjVector) + dbS.rows[..e.rows]
                && predVector == old(predVector) + dbP.rows[..e.rows]
                && objVector == old(objVector) + dbO.rows[..e.rows]
      ensures e.rows == 0 ==>
                subjVector == old(subjVector) && predVector == old(predVector) && objVector == old(objVector)
    {
      e := Print(0, false);
      var t := calls.Throws();
      if t || !dbS.Open? { return -1, e; }
      t := calls.Throws();
      if t || !dbP.Open? { return -1, e; }
      t := calls.Throws();
      if t || !dbO.Open? { return -1, e; }
      var i := 0;
      var threw, found := false, true;
      while !threw && found
        invariant AllOpen(old(Now())) && i <= FullRows(old(Now()))
        invariant e == Print(i, false) && Now() == Do(old(Now()), e)
        invariant calls.faults == old(calls.faults) + if threw then 1 else 0
        invariant !threw && !found ==> i == FullRows(old(Now()))
        decreases FullRows(old(Now())) - i, !threw && found
      {
        threw, found := PrintRow(i);
        if !threw && found {
          OneMoreRow(old(Now()), i);
          i := i + 1;
          e := Print(i, false);
        }
      }
      if threw { return -1, e; }
      t := calls.Throws();
      if t { return -1, e; }
      t := calls.Throws();
      if t { return -1, e; }
      t := calls.Throws();
      if t { return -1, e; }
      e := Print(i, true);
      return 0, e;
    }

    // `close` releases an unopened handle too, and throws on one that was closed before.
    method CloseDb() returns (ret: int, ghost e: Event)
      modifies `dbS, `dbP, `dbO, calls
      ensures Enabled(old(Now()), e) && Now() == Do(old(Now()), e)
      ensures e.Close? && (ret == 0 ==> e.closed == 3) && calls.faults >= old(calls.faults)
      ensures ret == 0 <==> calls.faults == old(calls.faults) && NoneClosed(old(Now()))
      ensures dbS == if e.closed >= 1 then Closed else old(dbS)
      ensures dbP == if e.closed >= 2 then Closed else old(dbP)
      ensures dbO == if e.closed >= 3 then Closed else old(dbO)
    {
      var t := calls.Throws();
      t := t || dbS.Closed?;
      dbS, e := Closed, Close(1);
      if t { return -1, e; }
      t := calls.Throws();
      t := t || dbP.Closed?;
      dbP, e := Closed, Close(2);
      if t { return -1, e; }
      t := calls.Throws();
      t := t || dbO.Closed?;
      dbO, e := Closed, Close(3);
      if t { return -1, e; }
      return 0, e;
    }

    // The loop that gives predicate directory `i` the file of object `i`; false when `at(i)` throws.
    method CreateDbVfs() returns (inRange: bool, files: seq<(string, string)>, ghost e: Event)
      modifies `dbS, `dbP, `dbO, calls
      ensures inRange <==> |old(predVector)| <= |old(objVector)|
      ensures inRange ==> Enabled(old(Now()), e) && Now() == Do(old(Now()), e) && e.Close?
      ensures inRange ==> |files| == |predVector|
                          && forall i :: 0 <= i < |files| ==> files[i] == (predVector[i], objVector[i])
      ensures inRange && calls.faults == old(calls.faults) && NoneClosed(old(Now())) ==> e == Close(3)
      ensures !inRange ==> Now() == old(Now())
      ensures calls.faults >= old(calls.faults)
    {
      e := Close(0);
      var predicatesDirs := predVector;
      files := [];
      for i := 0 to |predicatesDirs|
        invariant i <= |objVector| && |files| == i
        invariant forall k :: 0 <= k < i ==> files[k] == (predVector[k], objVector[k])
      {
        if i >= |objVector| { return false, files, e; }
        files := files + [(predicatesDirs[i], objVector[i])];
      }
      var ret;
      ret, e := CloseDb();
      return true, files, e;
    }

    // One pass of the menu loop.
    method Choose(key: int) returns (inRange: bool, ghost e: Event)
      requires Invariant(Now())
      modifies this, calls
      ensures inRange && Invariant(Now())
      ensures Enabled(old(Now()), e) && Now() == Do(old(Now()), e) && IsOfKey(e, key)
      ensures calls.faults >= old(calls.faults)
      ensures calls.faults == old(calls.faults) ==> Completed(old(Now()), e)
    {
      var ret;
      inRange := true;
      ghost var before := Now();
      match key {
        case 1 => ret, e := CreateDb();
        case 2 => ret, e := InsertDbData();
        case 3 => ret, e := PrintDbData();
        case 4 => ret, e := CloseDb();
        case 5 =>
          var files;
          inRange, files, e := CreateDbVfs();
        case _ => e := Wrong;
      }
      StepKeepsInvariant(before, e);
    }

    /**
     The menu loop over the keys entered: `at(i)` never throws, whatever they are.
     The states it passes through form a run, with one event of the right kind for
     each key, which is completed if no call threw.
     */
    method Menu(keys: seq<int>) returns (inRange: bool, ghost ss: seq<State>, ghost es: seq<Event>)
      requires Invariant(Now())
      modifies this, calls
      ensures inRange && Invariant(Now())
      ensures |es| == |keys| && |ss| == |keys| + 1 && ss[0] == old(Now()) && ss[|keys|] == Now()
      ensures forall n :: 0 <= n < |keys| ==> Enabled(ss[n], es[n]) && ss[n + 1] == Do(ss[n], es[n])
      ensures forall n :: 0 <= n < |keys| ==>
                            && (es[n].Create? <==> keys[n] == 1)
                            && (es[n].Load? <==> keys[n] == 2)
                            && (es[n].Print? <==> keys[n] == 3)
                            && (es[n].Close? <==> keys[n] == 4 || keys[n] == 5)
      ensures old(Now()) == INITIAL ==> Run(ss, es)
      ensures calls.faults >= old(calls.faults)
      ensures calls.faults == old(calls.faults) ==> forall n :: 0 <= n < |keys| ==> Completed(ss[n], es[n])
    {
      ss, es := [Now()], [];
      inRange := true;
      for n := 0 to |keys|
        invariant inRange && Invariant(Now())
        invariant Passed(keys, n, ss, es) && ss[0] == old(Now()) && ss[n] == Now()
        invariant calls.faults >= old(calls.faults)
        invariant calls.faults == old(calls.faults) ==> forall i :: 0 <= i < n ==> Completed(ss[i], es[i])
      {
        ghost var e;
        inRange, e := Choose(keys[n]);
        PassedOneMore(keys, n, ss, es, e);
        ss, es := ss + [Now()], es + [e];
      }
    }
  }

  ghost predicate IsOfKey(e: Event, key: int) {
    && (e.Create? <==> key == 1) && (e.Load? <==> key == 2) && (e.Print? <==> key == 3)
    && (e.Close? <==> key == 4 || key == 5)
  }

  // The first `n` keys have taken the program through `ss` by the events `es`.
  ghost predicate Passed(keys: seq<int>, n: nat, ss: seq<State>, es: seq<Event>) {
    && |es| == n <= |keys| && |ss| == n + 1
    && forall i :: 0 <= i < n ==> Enabled(ss[i], es[i]) && ss[i + 1] == Do(ss[i], es[i]) && IsOfKey(es[i], keys[i])
  }

  lemma PassedOneMore(keys: seq<int>, n: nat, ss: seq<State>, es: seq<Event>, e: Event)
    requires Passed(keys, n, ss, es) && n < |keys| && Enabled(ss[n], e) && IsOfKey(e, keys[n])
    ensures Passed(keys, n + 1, ss + [Do(ss[n], e)], es + [e])
  {
    var ss1, es1 := ss + [Do(ss[n], e)], es + [e];
    forall i | 0 <= i < n + 1
      ensures Enabled(ss1[i], es1[i]) && ss1[i + 1] == Do(ss1[i], es1[i]) && IsOfKey(es1[i], keys[i])
    {
      if i < n {
        assert ss1[i] == ss[i] && ss1[i + 1] == ss[i + 1] && es1[i] == es[i];
      }
    }
  }

  lemma OneMoreRow(st: State, i: nat)
    requires AllOpen(st) && i < FullRows(st)
    ensures Do(st, Print(i + 1, false))
            == var b := Do(st, Print(i, false));
               b.(subj := b.subj + [st.s.rows[i]], pred := b.pred + [st.p.rows[i]], obj := b.obj + [st.o.rows[i]])
  {
    assert forall r: seq<string> :: i < |r| ==> r[..i + 1] == r[..i] + [r[i]];
  }

  /* ----- Every reachable state ----- */

  const INITIAL := State(Unopened, Unopened, Unopened, [], [], [])

  ghost predicate Run(ss: seq<State>, es: seq<Event>) {
    && |ss| == |es| + 1 && ss[0] == INITIAL
    && forall i :: 0 <= i < |es| ==> Enabled(ss[i], es[i]) && ss[i + 1] == Do(ss[i], es[i])
  }

  // The vectors have equal length, and of open tables a later one never holds more rows.
  ghost predicate Invariant(st: State) {
    && |st.subj| == |st.pred| == |st.obj|
    && (st.s.Open? && st.p.Open? ==> |st.s.rows| >= |st.p.rows|)
    && (AllOpen(st) ==> |st.p.rows| >= |st.o.rows|)
  }

  lemma StepKeepsInvariant(st: State, e: Event)
    requires Invariant(st) && Enabled(st, e)
    ensures Invariant(Do(st, e))
  {
  }

  /** In every reachable state the three vectors have equal length and subjects >= predicates >= objects. */
  lemma {:induction false} MenuInvariant(ss: seq<State>, es: seq<Event>, n: nat)
    requires Run(ss, es) && n < |ss|
    ensures Invariant(ss[n])
  {
    if n > 0 {
      MenuInvariant(ss, es, n - 1);
      StepKeepsInvariant(ss[n - 1], es[n - 1]);
    }
  }

  /** A print that does not throw appends exactly as many rows as there are objects. */
  lemma PrintShowsEveryObject(ss: seq<State>, es: seq<Event>, n: nat)
    requires Run(ss, es) && n < |es| && es[n].Print? && es[n].returned
    ensures es[n].rows == |ss[n].o.rows|
    ensures |ss[n + 1].obj| == |ss[n].obj| + |ss[n].o.rows|
    ensures ss[n + 1].obj == ss[n].obj + ss[n].o.rows
  {
    MenuInvariant(ss, es, n);
    assert ss[n].o.rows[..es[n].rows] == ss[n].o.rows;
  }

  /** A handle that was closed stays closed, and while none is open nothing is stored or shown. */
  lemma {:induction false} NothingAfterClose(ss: seq<State>, es: seq<Event>, k: nat, n: nat)
    requires Run(ss, es) && k < n <= |es| && es[k] == Close(3)
    ensures ss[n].s == ss[n].p == ss[n].o == Closed
    ensures ss[n].subj == ss[k].subj && ss[n].pred == ss[k].pred && ss[n].obj == ss[k].obj
  {
    assert ss[n] == Do(ss[n - 1], es[n - 1]) && Enabled(ss[n - 1], es[n - 1]);
    if k < n - 1 {
      NothingAfterClose(ss, es, k, n - 1);
    }
  }

  /** Nothing is stored or shown before a create has opened all three tables, whatever throws. */
  lemma {:induction false} NothingBeforeCreate(ss: seq<State>, es: seq<Event>, n: nat)
    requires Run(ss, es) && n <= |es| && forall k :: 0 <= k < n ==> es[k] != Create(3)
    ensures ss[n].subj == [] && ss[n].pred == [] && ss[n].obj == [] && !ss[n].o.Open?
  {
    if n > 0 {
      NothingBeforeCreate(ss, es, n - 1);
      assert ss[n] == Do(ss[n - 1], es[n - 1]) && Enabled(ss[n - 1], es[n - 1]);
    }
  }

  /* ----- What the rows say ----- */

  ghost predicate Genuine(a: string, b: string, c: string) {
    exists k :: 0 <= k < 3 && a == SUBJECTS[k] && b == PREDICATES[k] && c == OBJECTS[k]
  }

  lemma GenuineIff(i: nat, j: nat, k: nat)
    requires i < 3 && j < 3 && k < 3
    ensures Genuine(SUBJECTS[i], PREDICATES[j], OBJECTS[k]) <==> i == j == k
  {
    assert |SUBJECTS[0]| == 1 && |SUBJECTS[1]| == 6 && |SUBJECTS[2]| == 5;
    assert |PREDICATES[0]| == 2 && |PREDICATES[1]| == 3 && |PREDICATES[2]| == 9;
    assert |OBJECTS[0]| == 7 && |OBJECTS[1]| == 9 && |OBJECTS[2]| == 6;
  }

  // Rows `from` to `upTo` of the vectors are all triples the program inserts.
  ghost predicate AllGenuine(st: State, from: nat, upTo: nat)
    requires upTo <= |st.subj| && upTo <= |st.pred| && upTo <= |st.obj|
  {
    forall i :: from <= i < upTo ==> Genuine(st.subj[i], st.pred[i], st.obj[i])
  }

  /* ----- Blocks: what each load left in a table ----- */

  // The lengths of the blocks that the first `n` events have left in the table whose puts start
  // after the first `from`, in order; loads that did not reach the table leave none.
  function Blocks(es: seq<Event>, n: nat, from: nat): (b: seq<nat>)
    requires n <= |es|
  {
    if n == 0 then []
    else if es[n - 1].Load? && PutsFrom(es[n - 1].puts, from) > 0 then
      Blocks(es, n - 1, from) + [PutsFrom(es[n - 1].puts, from)]
    else Blocks(es, n - 1, from)
  }

  ghost predicate BlockSizes(b: seq<nat>) {
    forall i :: 0 <= i < |b| ==> 1 <= b[i] <= 3
  }

  lemma {:induction false} BlocksAreSmall(es: seq<Event>, n: nat, from: nat)
    requires n <= |es|
    ensures BlockSizes(Blocks(es, n, from))
  {
    if n > 0 { BlocksAreSmall(es, n - 1, from); }
  }

  // 0, 1, ..., k - 1.
  function Upto(k: nat): (l: seq<nat>)
    ensures |l| == k && forall i :: 0 <= i < k ==> l[i] == i
  {
    seq(k, i => i)
  }

  // Which of the three values each row of a table with these blocks holds.
  function Labels(b: seq<nat>): seq<nat> {
    if b == [] then [] else Upto(b[0]) + Labels(b[1..])
  }

  lemma {:induction false} LabelsAppend(b: seq<nat>, k: nat)
    ensures Labels(b + [k]) == Labels(b) + Upto(k)
  {
    if b == [] {
      assert [k][1..] == [];
    } else {
      assert (b + [k])[1..] == b[1..] + [k];
      LabelsAppend(b[1..], k);
    }
  }

  // `rows` holds the value that each label names.
  ghost predicate Spells(rows: seq<string>, labels: seq<nat>, values: seq<string>)
    requires |values| == 3
  {
    |rows| == |labels| && forall i :: 0 <= i < |rows| ==> labels[i] < 3 && rows[i] == values[labels[i]]
  }

  ghost predicate TableFollows(db: Db, b: seq<nat>, values: seq<string>)
    requires |values| == 3
  {
    (db.Unopened? ==> b == []) && (db.Open? ==> Spells(db.rows, Labels(b), values))
  }

  lemma TableStep(db: Db, b: seq<nat>, values: seq<string>, k: nat)
    requires |values| == 3 && 0 < k <= 3 && db.Open? && TableFollows(db, b, values)
    ensures TableFollows(WithPuts(db, values, k), b + [k], values)
  {
    LabelsAppend(b, k);
  }

  lemma WithNoPuts(db: Db, values: seq<string>)
    ensures WithPuts(db, values, 0) == db
  {
    assert values[..0] == [];
    assert db.Open? ==> db.rows + [] == db.rows;
  }

  lemma LoadFollows(db: Db, values: seq<string>, es: seq<Event>, n: nat, from: nat)
    requires n < |es| && es[n].Load? && |values| == 3
    requires PutsFrom(es[n].puts, from) > 0 ==> db.Open?
    requires TableFollows(db, Blocks(es, n, from), values)
    ensures TableFollows(WithPuts(db, values, PutsFrom(es[n].puts, from)), Blocks(es, n + 1, from), values)
  {
    var k := PutsFrom(es[n].puts, from);
    if k > 0 {
      TableStep(db, Blocks(es, n, from), values, k);
    } else {
      WithNoPuts(db, values);
    }
  }

  ghost predicate AllFollow(st: State, es: seq<Event>, n: nat)
    requires n <= |es|
  {
    && TableFollows(st.s, Blocks(es, n, 0), SUBJECTS)
    && TableFollows(st.p, Blocks(es, n, 3), PREDICATES)
    && TableFollows(st.o, Blocks(es, n, 6), OBJECTS)
  }

  lemma OtherStepsFollow(st: State, es: seq<Event>, n: nat)
    requires n < |es| && Enabled(st, es[n]) && !es[n].Load? && AllFollow(st, es, n)
    ensures AllFollow(Do(st, es[n]), es, n + 1)
  {
    assert Blocks(es, n + 1, 0) == Blocks(es, n, 0);
    assert Blocks(es, n + 1, 3) == Blocks(es, n, 3);
    assert Blocks(es, n + 1, 6) == Blocks(es, n, 6);
  }

  // In every reachable state an open table holds its blocks, one after the other.
  lemma {:induction false} TablesFollowBlocks(ss: seq<State>, es: seq<Event>, n: nat)
    requires Run(ss, es) && n < |ss|
    ensures AllFollow(ss[n], es, n)
  {
    if n > 0 {
      TablesFollowBlocks(ss, es, n - 1);
      var st, e := ss[n - 1], es[n - 1];
      if e.Load? {
        LoadFollows(st.s, SUBJECTS, es, n - 1, 0);
        LoadFollows(st.p, PREDICATES, es, n - 1, 3);
        LoadFollows(st.o, OBJECTS, es, n - 1, 6);
      } else {
        OtherStepsFollow(st, es, n - 1);
      }
    }
  }

  /* ----- When tables pair up ----- */

  // Every block of `b` before the last equals the block of `a` at its position, and the last is
  // no longer than its counterpart.
  ghost predicate Match(b: seq<nat>, a: seq<nat>) {
    && |b| <= |a|
    && (forall i :: 0 <= i < |b| - 1 ==> b[i] == a[i])
    && (b != [] ==> b[|b| - 1] <= a[|b| - 1])
  }

  lemma MatchStep(b: seq<nat>, a: seq<nat>)
    requires b != [] && a != []
    ensures Match(b, a) <==> if |b| == 1 then b[0] <= a[0] else b[0] == a[0] && Match(b[1..], a[1..])
  {
    if |b| > 1 && b[0] == a[0] && Match(b[1..], a[1..]) {
      forall i | 0 < i < |b| - 1 ensures b[i] == a[i] {
        assert b[1..][i - 1] == a[1..][i - 1];
      }
    }
  }

  lemma PrefixCons(x: seq<nat>, y: seq<nat>, z: seq<nat>)
    ensures x + y <= x + z <==> y <= z
  {
    if |y| <= |z| {
      assert (x + z)[..|x + y|] == x + z[..|y|];
      assert (x + y)[|x|..] == y && (x + z[..|y|])[|x|..] == z[..|y|];
    }
  }

  /** Labels agree as far as they go exactly when the blocks match. */
  lemma {:induction false} PrefixIffMatch(b: seq<nat>, a: seq<nat>)
    requires BlockSizes(b) && BlockSizes(a)
    ensures Labels(b) <= Labels(a) <==> Match(b, a)
  {
    if b != [] && a != [] {
      MatchStep(b, a);
      var lb, la := Labels(b), Labels(a);
      var rb, ra := Labels(b[1..]), Labels(a[1..]);
      if b[0] == a[0] {
        PrefixCons(Upto(b[0]), rb, ra);
        PrefixIffMatch(b[1..], a[1..]);
        assert |b| == 1 ==> b[1..] == [];
      } else if b[0] < a[0] {
        if |b| == 1 {
          assert b[1..] == [] && lb == Upto(b[0]);
        } else {
          assert b[1..][0] >= 1;
          assert lb[b[0]] == 0 && la[b[0]] == b[0];
        }
      } else {
        assert lb[a[0]] == a[0];
        if |a| > 1 {
          assert a[1..][0] >= 1;
          assert la[a[0]] == 0;
        } else {
          assert a[1..] == [] && la == Upto(a[0]);
        }
      }
    }
  }

  // The blocks of the first `r` rows.
  function Trim(b: seq<nat>, r: nat): seq<nat> {
    if b == [] || r == 0 then []
    else if b[0] >= r then [r]
    else [b[0]] + Trim(b[1..], r - b[0])
  }

  lemma {:induction false} TrimSizes(b: seq<nat>, r: nat)
    requires BlockSizes(b)
    ensures BlockSizes(Trim(b, r))
  {
    if b != [] && r > b[0] {
      TrimSizes(b[1..], r - b[0]);
    }
  }

  lemma {:induction false} TrimLabels(b: seq<nat>, r: nat)
    requires r <= |Labels(b)|
    ensures Labels(Trim(b, r)) == Labels(b)[..r]
  {
    if b != [] && r > 0 {
      var first, more := Upto(b[0]), Labels(b[1..]);
      assert Labels(b) == first + more;
      if b[0] >= r {
        assert [r][1..] == [];
        assert Labels([r]) == Upto(r) + [] == (first + more)[..r];
      } else {
        TrimLabels(b[1..], r - b[0]);
        var t := Trim(b[1..], r - b[0]);
        assert ([b[0]] + t)[1..] == t;
        assert Labels([b[0]] + t) == first + Labels(t);
        assert (first + more)[..r] == first + more[..r - b[0]];
      }
    }
  }

  lemma {:induction false} TrimAll(b: seq<nat>)
    requires BlockSizes(b)
    ensures Trim(b, |Labels(b)|) == b
  {
    if b != [] {
      TrimAll(b[1..]);
      if |b| > 1 {
        assert b[1..][0] >= 1;
      } else {
        assert b[1..] == [];
      }
    }
  }

  // The rows a print has shown pair up: the objects' blocks match the subjects' and the predicates'.
  ghost predicate PrintMatches(es: seq<Event>, n: nat)
    requires n < |es| && es[n].Print?
  {
    var shown := Trim(Blocks(es, n, 6), es[n].rows);
    Match(shown, Blocks(es, n, 0)) && Match(shown, Blocks(es, n, 3))
  }

  // Rows cut from three tables are genuine exactly when the labels agree.
  lemma CutGenuineIff(st: State, ls: seq<nat>, lp: seq<nat>, lo: seq<nat>, r: nat)
    requires AllOpen(st) && Spells(st.s.rows, ls, SUBJECTS)
    requires Spells(st.p.rows, lp, PREDICATES) && Spells(st.o.rows, lo, OBJECTS)
    requires r <= |ls| && r <= |lp| && r <= |lo|
    ensures (forall i :: 0 <= i < r ==> Genuine(st.s.rows[i], st.p.rows[i], st.o.rows[i]))
            <==> lo[..r] <= ls && lo[..r] <= lp
  {
    forall i | 0 <= i < r
      ensures Genuine(st.s.rows[i], st.p.rows[i], st.o.rows[i]) <==> ls[i] == lp[i] == lo[i]
    {
      GenuineIff(ls[i], lp[i], lo[i]);
    }
    assert lo[..r] <= ls <==> forall i :: 0 <= i < r ==> lo[i] == ls[i];
    assert lo[..r] <= lp <==> forall i :: 0 <= i < r ==> lo[i] == lp[i];
  }

  /** In every run, the rows a print appends are all inserted triples exactly when the blocks match. */
  lemma PrintGenuineIff(ss: seq<State>, es: seq<Event>, n: nat)
    requires Run(ss, es) && n < |es| && es[n].Print?
    ensures |ss[n + 1].subj| == |ss[n + 1].pred| == |ss[n + 1].obj| == |ss[n].subj| + es[n].rows
    ensures AllGenuine(ss[n + 1], |ss[n].subj|, |ss[n + 1].subj|) <==> PrintMatches(es, n)
  {
    var st, r, b := ss[n], es[n].rows, Blocks(es, n, 6);
    MenuInvariant(ss, es, n);
    MenuInvariant(ss, es, n + 1);
    if r > 0 {
      TablesFollowBlocks(ss, es, n);
      BlocksAreSmall(es, n, 0);
      BlocksAreSmall(es, n, 3);
      BlocksAreSmall(es, n, 6);
      TrimSizes(b, r);
      TrimLabels(b, r);
      PrefixIffMatch(Trim(b, r), Blocks(es, n, 0));
      PrefixIffMatch(Trim(b, r), Blocks(es, n, 3));
      CutGenuineIff(st, Labels(Blocks(es, n, 0)), Labels(Blocks(es, n, 3)), Labels(b), r);
      AppendedRows(st, r, es[n].returned);
    }
  }

  lemma AppendedRows(st: State, r: nat, returned: bool)
    requires AllOpen(st) && Enabled(st, Print(r, returned)) && r > 0
    requires |st.subj| == |st.pred| == |st.obj|
    ensures var after := Do(st, Print(r, returned));
            && |after.subj| == |after.pred| == |after.obj| == |st.subj| + r
            && (AllGenuine(after, |st.subj|, |after.subj|)
                <==> forall i :: 0 <= i < r ==> Genuine(st.s.rows[i], st.p.rows[i], st.o.rows[i]))
  {
    var after, d := Do(st, Print(r, returned)), |st.subj|;
    if AllGenuine(after, d, d + r) {
      forall i | 0 <= i < r ensures Genuine(st.s.rows[i], st.p.rows[i], st.o.rows[i]) {
        AppendedRow(st, r, returned, i);
      }
    }
    if forall i :: 0 <= i < r ==> Genuine(st.s.rows[i], st.p.rows[i], st.o.rows[i]) {
      forall j | d <= j < d + r ensures Genuine(after.subj[j], after.pred[j], after.obj[j]) {
        AppendedRow(st, r, returned, j - d);
      }
    }
  }

  lemma AppendedRow(st: State, r: nat, returned: bool, i: nat)
    requires AllOpen(st) && Enabled(st, Print(r, returned)) && i < r
    requires |st.subj| == |st.pred| == |st.obj|
    ensures var after, k := Do(st, Print(r, returned)), |st.subj| + i;
            after.subj[k] == st.s.rows[i] && after.pred[k] == st.p.rows[i] && after.obj[k] == st.o.rows[i]
  {
  }

  /** A print that does not throw appends inserted triples only exactly when all the objects' blocks match. */
  lemma WholePrintGenuineIff(ss: seq<State>, es: seq<Event>, n: nat)
    requires Run(ss, es) && n < |es| && es[n].Print? && es[n].returned
    ensures |ss[n + 1].subj| == |ss[n + 1].pred| == |ss[n + 1].obj|
    ensures AllGenuine(ss[n + 1], |ss[n].subj|, |ss[n + 1].subj|)
            <==> Match(Blocks(es, n, 6), Blocks(es, n, 0)) && Match(Blocks(es, n, 6), Blocks(es, n, 3))
  {
    PrintGenuineIff(ss, es, n);
    PrintShowsEveryObject(ss, es, n);
    TablesFollowBlocks(ss, es, n);
    BlocksAreSmall(es, n, 6);
    TrimAll(Blocks(es, n, 6));
  }

  /** In every reachable state, all rows of the vectors are inserted triples exactly when every print so far matched. */
  lemma {:induction false} VectorsGenuineIff(ss: seq<State>, es: seq<Event>, n: nat)
    requires Run(ss, es) && n <= |es|
    ensures |ss[n].subj| == |ss[n].pred| == |ss[n].obj|
    ensures AllGenuine(ss[n], 0, |ss[n].subj|) <==> forall k :: 0 <= k < n && es[k].Print? ==> PrintMatches(es, k)
  {
    MenuInvariant(ss, es, n);
    if n > 0 {
      VectorsGenuineIff(ss, es, n - 1);
      var st, e := ss[n - 1], es[n - 1];
      var d := |st.subj|;
      if e.Print? {
        PrintGenuineIff(ss, es, n - 1);
      }
      assert st.subj <= ss[n].subj && st.pred <= ss[n].pred && st.obj <= ss[n].obj;
      assert AllGenuine(ss[n], 0, d) <==> AllGenuine(st, 0, d);
      assert AllGenuine(ss[n], 0, |ss[n].subj|) <==> AllGenuine(ss[n], 0, d) && AllGenuine(ss[n], d, |ss[n].subj|);
    }
  }

  /* ----- Two corollaries ----- */

  // No load has stopped in the middle of a table.
  ghost predicate LoadsFillTables(es: seq<Event>) {
    forall i :: 0 <= i < |es| && es[i].Load? ==> es[i].puts % 3 == 0
  }

  lemma {:induction false} FullBlocks(es: seq<Event>, n: nat, from: nat)
    requires LoadsFillTables(es) && n <= |es| && from % 3 == 0
    ensures forall i :: 0 <= i < |Blocks(es, n, from)| ==> Blocks(es, n, from)[i] == 3
  {
    if n > 0 { FullBlocks(es, n - 1, from); }
  }

  lemma {:induction false} LaterTablesHaveFewerBlocks(es: seq<Event>, n: nat, from: nat, later: nat)
    requires n <= |es| && from <= later
    ensures |Blocks(es, n, later)| <= |Blocks(es, n, from)|
  {
    if n > 0 { LaterTablesHaveFewerBlocks(es, n - 1, from, later); }
  }

  lemma {:induction false} TrimFull(b: seq<nat>, a: seq<nat>, r: nat)
    requires |b| <= |a| && (forall i :: 0 <= i < |b| ==> b[i] == 3) && (forall i :: 0 <= i < |a| ==> a[i] == 3)
    ensures Match(Trim(b, r), a)
  {
    if b != [] && r > 3 {
      TrimFull(b[1..], a[1..], r - 3);
      assert Trim(b, r)[1..] == Trim(b[1..], r - 3);
      MatchStep(Trim(b, r), a);
    }
  }

  /** As long as loads stop only between tables, every row of the vectors is one of the triples inserted. */
  lemma RowsAreGenuine(ss: seq<State>, es: seq<Event>, n: nat)
    requires Run(ss, es) && LoadsFillTables(es) && n <= |es|
    ensures |ss[n].subj| == |ss[n].pred| == |ss[n].obj|
    ensures AllGenuine(ss[n], 0, |ss[n].subj|)
  {
    forall k | 0 <= k < n && es[k].Print? ensures PrintMatches(es, k) {
      FullBlocks(es, k, 0);
      FullBlocks(es, k, 3);
      FullBlocks(es, k, 6);
      LaterTablesHaveFewerBlocks(es, k, 0, 6);
      LaterTablesHaveFewerBlocks(es, k, 3, 6);
      TrimFull(Blocks(es, k, 6), Blocks(es, k, 0), es[k].rows);
      TrimFull(Blocks(es, k, 6), Blocks(es, k, 3), es[k].rows);
    }
    VectorsGenuineIff(ss, es, n);
  }

  // What a load that stopped after `puts` puts and then a whole one leave in a table.
  function AbortBlocks(puts: nat, from: nat): seq<nat> {
    if PutsFrom(puts, from) > 0 then [PutsFrom(puts, from), 3] else [3]
  }

  lemma BlocksAfterAbort(es: seq<Event>, puts: nat, from: nat)
    requires |es| == 4 && es[0] == Create(3) && es[1] == Load(puts) && es[2] == Load(9) && from <= 6
    ensures Blocks(es, 3, from) == AbortBlocks(puts, from)
  {
    assert Blocks(es, 1, from) == [];
    assert Blocks(es, 2, from) == if PutsFrom(puts, from) > 0 then [PutsFrom(puts, from)] else [];
  }

  lemma AbortMatchIff(puts: nat)
    requires puts <= 9
    ensures Match(AbortBlocks(puts, 6), AbortBlocks(puts, 0)) && Match(AbortBlocks(puts, 6), AbortBlocks(puts, 3))
            <==> puts % 3 == 0
  {
    var s, p, o := AbortBlocks(puts, 0), AbortBlocks(puts, 3), AbortBlocks(puts, 6);
    if |o| == 1 {
      assert Match(o, s) <==> o[0] <= s[0];
      assert Match(o, p) <==> o[0] <= p[0];
    } else {
      assert Match(o, s) <==> o[0] == s[0];
      assert Match(o, p) <==> o[0] == p[0];
    }
  }

  /**
   After a load that stopped after `puts` puts and then a whole one, a print
   mis-pairs rows exactly if the first stopped inside a table.
   */
  lemma AbortMispairsIff(ss: seq<State>, es: seq<Event>, puts: nat)
    requires Run(ss, es) && puts <= 9
    requires |es| == 4 && es[0] == Create(3) && es[1] == Load(puts) && es[2] == Load(9)
    requires es[3].Print? && es[3].returned
    ensures |ss[4].subj| == |ss[4].pred| == |ss[4].obj|
    ensures AllGenuine(ss[4], |ss[3].subj|, |ss[4].subj|) <==> puts % 3 == 0
  {
    WholePrintGenuineIff(ss, es, 3);
    BlocksAfterAbort(es, puts, 0);
    BlocksAfterAbort(es, puts, 3);
    BlocksAfterAbort(es, puts, 6);
    AbortMatchIff(puts);
  }
}
