/**
 The join of triples with node texts into three columns, and the loop that
 indexes one column by the length of another (sqlite/db.cpp, sqlite/main.cpp).
 */
module TripleJoin {

  // A row of `triple`: three node ids. A row of `node`: an id and its text.
  datatype Triple = Triple(s: string, p: string, o: string)
  datatype Node = Node(id: string, str: string)

  datatype Role = Subject | Predicate | Object

  function Component(t: Triple, role: Role): string {
    match role
    case Subject => t.s
    case Predicate => t.p
    case Object => t.o
  }

  // The `else if` chain lets a node of the triple reach only the first role its id fills.
  predicate Reaches(t: Triple, role: Role) {
    match role
    case Subject => true
    case Predicate => t.p != t.s
    case Object => t.o != t.s && t.o != t.p
  }

  predicate PairwiseDistinct(t: Triple) {
    t.s != t.p && t.s != t.o && t.p != t.o
  }

  /* ----- What the columns hold ----- */

  // The texts of those of the first `n` nodes called `id`, in table order.
  function Texts(nodes: seq<Node>, n: nat, id: string): seq<string>
    requires n <= |nodes|
  {
    if n == 0 then []
    else Texts(nodes, n - 1, id) + if nodes[n - 1].id == id then [nodes[n - 1].str] else []
  }

  // The nodes of that name among the first `n`.
  ghost function Called(nodes: seq<Node>, n: nat, id: string): set<nat>
    requires n <= |nodes|
  {
    set j: nat | j < n && nodes[j].id == id
  }

  lemma CalledStep(nodes: seq<Node>, n: nat, id: string)
    requires n < |nodes|
    ensures n !in Called(nodes, n, id)
    ensures Called(nodes, n + 1, id) == Called(nodes, n, id) + if nodes[n].id == id then {n} else {}
  {
  }

  lemma {:induction false} TextAt(nodes: seq<Node>, n: nat, id: string, k: nat)
    requires n <= |nodes|
    ensures |Texts(nodes, n, id)| == |Called(nodes, n, id)|
    ensures k < n && nodes[k].id == id ==>
              var i := |Called(nodes, k, id)|; i < |Texts(nodes, n, id)| && Texts(nodes, n, id)[i] == nodes[k].str
    decreases n
  {
    if n == 0 {
      assert Called(nodes, n, id) == {};
    } else {
      TextAt(nodes, n - 1, id, k);
      CalledStep(nodes, n - 1, id);
      var before := Texts(nodes, n - 1, id);
      assert before <= Texts(nodes, n, id);
    }
  }

  /** There is one text for each node of that name, and the text of a node comes after those of the nodes before it. */
  lemma TextsMeaning(nodes: seq<Node>, id: string, k: nat)
    requires k < |nodes| && nodes[k].id == id
    ensures |Texts(nodes, |nodes|, id)| == |set j | 0 <= j < |nodes| && nodes[j].id == id|
    ensures var i := |set j | 0 <= j < k && nodes[j].id == id|;
            i < |Texts(nodes, |nodes|, id)| && Texts(nodes, |nodes|, id)[i] == nodes[k].str
  {
    TextAt(nodes, |nodes|, id, k);
    assert Called(nodes, |nodes|, id) == set j | 0 <= j < |nodes| && nodes[j].id == id;
    assert Called(nodes, k, id) == set j | 0 <= j < k && nodes[j].id == id;
  }

  // What the first `n` nodes add to the column of `role` for one triple.
  function Contribution(t: Triple, nodes: seq<Node>, n: nat, role: Role): seq<string>
    requires n <= |nodes|
  {
    if Reaches(t, role) then Texts(nodes, n, Component(t, role)) else []
  }

  // The column of `role` after the first `m` triples.
  function ColumnOf(triples: seq<Triple>, m: nat, nodes: seq<Node>, role: Role): seq<string>
    requires m <= |triples|
  {
    if m == 0 then []
    else ColumnOf(triples, m - 1, nodes, role) + Contribution(triples[m - 1], nodes, |nodes|, role)
  }

  function Column(triples: seq<Triple>, nodes: seq<Node>, role: Role): seq<string> {
    ColumnOf(triples, |triples|, nodes, role)
  }

  // `column` after the inner loop has passed the first `n` nodes.
  function Scanned(column: seq<string>, t: Triple, nodes: seq<Node>, n: nat, role: Role): seq<string>
    requires n <= |nodes|
  {
    if n == 0 then column
    else if Reaches(t, role) && nodes[n - 1].id == Component(t, role) then
      Scanned(column, t, nodes, n - 1, role) + [nodes[n - 1].str]
    else Scanned(column, t, nodes, n - 1, role)
  }

  lemma {:induction false} ScannedAppends(column: seq<string>, t: Triple, nodes: seq<Node>, n: nat, role: Role)
    requires n <= |nodes|
    ensures Scanned(column, t, nodes, n, role) == column + Contribution(t, nodes, n, role)
  {
    if n > 0 {
      ScannedAppends(column, t, nodes, n - 1, role);
    }
  }

  // `column` after the outer loop has passed the first `m` triples.
  function Joined(column: seq<string>, triples: seq<Triple>, m: nat, nodes: seq<Node>, role: Role): seq<string>
    requires m <= |triples|
  {
    if m == 0 then column
    else Scanned(Joined(column, triples, m - 1, nodes, role), triples[m - 1], nodes, |nodes|, role)
  }

  lemma {:induction false} JoinedAppends(
    column: seq<string>, triples: seq<Triple>, m: nat, nodes: seq<Node>, role: Role)
    requires m <= |triples|
    ensures Joined(column, triples, m, nodes, role) == column + ColumnOf(triples, m, nodes, role)
  {
    if m > 0 {
      JoinedAppends(column, triples, m - 1, nodes, role);
      ScannedAppends(Joined(column, triples, m - 1, nodes, role), triples[m - 1], nodes, |nodes|, role);
    }
  }

  class DB {
    var S: seq<string>
    var P: seq<string>
    var O: seq<string>

    constructor ()
      ensures S == [] && P == [] && O == []
    {
      S, P, O := [], [], [];
    }

    /** Appends to each column, for any tables: ids may repeat, be missing or coincide. */
    method GetAllTriplesText(triples: seq<Triple>, nodes: seq<Node>)
      modifies this
      ensures S == old(S) + Column(triples, nodes, Subject)
      ensures P == old(P) + Column(triples, nodes, Predicate)
      ensures O == old(O) + Column(triples, nodes, Object)
    {
      for i := 0 to |triples|
        invariant S == Joined(old(S), triples, i, nodes, Subject)
        invariant P == Joined(old(P), triples, i, nodes, Predicate)
        invariant O == Joined(old(O), triples, i, nodes, Object)
      {
        var t := triples[i];
        ghost var S0, P0, O0 := S, P, O;
        for j := 0 to |nodes|
          invariant S == Scanned(S0, t, nodes, j, Subject)
          invariant P == Scanned(P0, t, nodes, j, Predicate)
          invariant O == Scanned(O0, t, nodes, j, Object)
        {
          var str := nodes[j];
          if t.s == str.id {
            S := S + [str.str];
          } else if t.p == str.id {
            P := P + [str.str];
          } else if t.o == str.id {
            O := O + [str.str];
          }
        }
      }
      JoinedAppends(old(S), triples, |triples|, nodes, Subject);
      JoinedAppends(old(P), triples, |triples|, nodes, Predicate);
      JoinedAppends(old(O), triples, |triples|, nodes, Object);
    }
  }

  /* ----- Unique and complete node ids ----- */

  ghost predicate UniqueIds(nodes: seq<Node>) {
    forall i, j :: 0 <= i < j < |nodes| ==> nodes[i].id != nodes[j].id
  }

  ghost predicate HasNode(nodes: seq<Node>, id: string) {
    exists i :: 0 <= i < |nodes| && nodes[i].id == id
  }

  ghost predicate HasNodes(t: Triple, nodes: seq<Node>) {
    HasNode(nodes, t.s) && HasNode(nodes, t.p) && HasNode(nodes, t.o)
  }

  ghost predicate Complete(triples: seq<Triple>, nodes: seq<Node>) {
    forall i :: 0 <= i < |triples| ==> HasNodes(triples[i], nodes)
  }

  lemma {:induction false} NoNodeNoText(nodes: seq<Node>, n: nat, id: string)
    requires n <= |nodes| && forall i :: 0 <= i < n ==> nodes[i].id != id
    ensures Texts(nodes, n, id) == []
  {
    if n > 0 {
      NoNodeNoText(nodes, n - 1, id);
    }
  }

  // With unique ids a node's text stands alone, wherever the node is in the table.
  lemma {:induction false} OneText(nodes: seq<Node>, n: nat, i: nat)
    requires UniqueIds(nodes) && i < n <= |nodes|
    ensures Texts(nodes, n, nodes[i].id) == [nodes[i].str]
  {
    if i < n - 1 {
      OneText(nodes, n - 1, i);
    } else {
      NoNodeNoText(nodes, i, nodes[i].id);
    }
  }

  lemma NodeHasOneText(nodes: seq<Node>, id: string)
    requires UniqueIds(nodes) && HasNode(nodes, id)
    ensures |Texts(nodes, |nodes|, id)| == 1
  {
    var i :| 0 <= i < |nodes| && nodes[i].id == id;
    OneText(nodes, |nodes|, i);
  }

  // How many of the first `m` triples reach `role`.
  function Count(triples: seq<Triple>, m: nat, role: Role): (n: nat)
    requires m <= |triples|
    ensures n <= m
  {
    if m == 0 then 0 else Count(triples, m - 1, role) + if Reaches(triples[m - 1], role) then 1 else 0
  }

  lemma ContributesOne(t: Triple, nodes: seq<Node>, role: Role)
    requires UniqueIds(nodes) && HasNodes(t, nodes)
    ensures |Contribution(t, nodes, |nodes|, role)| == if Reaches(t, role) then 1 else 0
  {
    NodeHasOneText(nodes, Component(t, role));
  }

  // With unique and complete node ids a column holds one text for each triple that reaches its role.
  lemma {:induction false} ColumnLength(triples: seq<Triple>, m: nat, nodes: seq<Node>, role: Role)
    requires UniqueIds(nodes) && Complete(triples, nodes) && m <= |triples|
    ensures |ColumnOf(triples, m, nodes, role)| == Count(triples, m, role)
  {
    if m > 0 {
      ColumnLength(triples, m - 1, nodes, role);
      ContributesOne(triples[m - 1], nodes, role);
      var before, entry := ColumnOf(triples, m - 1, nodes, role), Contribution(triples[m - 1], nodes, |nodes|, role);
      assert ColumnOf(triples, m, nodes, role) == before + entry;
    }
  }

  ghost function Reaching(triples: seq<Triple>, m: nat, role: Role): set<nat>
    requires m <= |triples|
  {
    set i: nat | i < m && Reaches(triples[i], role)
  }

  lemma ReachingStep(triples: seq<Triple>, m: nat, role: Role)
    requires m < |triples|
    ensures m !in Reaching(triples, m, role)
    ensures Reaching(triples, m + 1, role)
            == Reaching(triples, m, role) + if Reaches(triples[m], role) then {m} else {}
  {
  }

  lemma {:induction false} CountIsCardinality(triples: seq<Triple>, m: nat, role: Role)
    requires m <= |triples|
    ensures Count(triples, m, role) == |Reaching(triples, m, role)|
  {
    if m > 0 {
      CountIsCardinality(triples, m - 1, role);
      ReachingStep(triples, m - 1, role);
    }
  }

  // What the `else if` chain comes to for the first `m` triples, in their ids alone.
  lemma Counts(triples: seq<Triple>, m: nat)
    requires m <= |triples|
    ensures Count(triples, m, Subject) == m
    ensures Count(triples, m, Predicate) == |set i | 0 <= i < m && triples[i].p != triples[i].s|
    ensures Count(triples, m, Object)
            == |set i | 0 <= i < m && triples[i].o != triples[i].s && triples[i].o != triples[i].p|
  {
    CountIsCardinality(triples, m, Predicate);
    CountIsCardinality(triples, m, Object);
    CountIsAll(triples, m, Subject);
    assert Reaching(triples, m, Predicate) == set i | 0 <= i < m && triples[i].p != triples[i].s;
    assert Reaching(triples, m, Object)
        == set i | 0 <= i < m && triples[i].o != triples[i].s && triples[i].o != triples[i].p;
  }

  /** The exact column lengths: all triples, those with p other than s, those with o other than both. */
  lemma ColumnLengths(triples: seq<Triple>, nodes: seq<Node>)
    requires UniqueIds(nodes) && Complete(triples, nodes)
    ensures |Column(triples, nodes, Subject)| == |triples|
    ensures |Column(triples, nodes, Predicate)| == |set i | 0 <= i < |triples| && triples[i].p != triples[i].s|
    ensures |Column(triples, nodes, Object)|
            == |set i | 0 <= i < |triples| && triples[i].o != triples[i].s && triples[i].o != triples[i].p|
  {
    Counts(triples, |triples|);
    ColumnLength(triples, |triples|, nodes, Subject);
    ColumnLength(triples, |triples|, nodes, Predicate);
    ColumnLength(triples, |triples|, nodes, Object);
  }

  /**
   For any tables, what one more triple adds: the texts of its subject; those of
   its predicate unless that is its subject; those of its object unless that is
   its subject or its predicate.
   */
  lemma ChainAdds(triples: seq<Triple>, m: nat, nodes: seq<Node>)
    requires m < |triples|
    ensures var s, p, o := triples[m].s, triples[m].p, triples[m].o;
            && ColumnOf(triples, m + 1, nodes, Subject)
               == ColumnOf(triples, m, nodes, Subject) + Texts(nodes, |nodes|, s)
            && (p != s ==> ColumnOf(triples, m + 1, nodes, Predicate)
                           == ColumnOf(triples, m, nodes, Predicate) + Texts(nodes, |nodes|, p))
            && (p == s ==> ColumnOf(triples, m + 1, nodes, Predicate) == ColumnOf(triples, m, nodes, Predicate))
            && (o != s && o != p ==> ColumnOf(triples, m + 1, nodes, Object)
                                     == ColumnOf(triples, m, nodes, Object) + Texts(nodes, |nodes|, o))
            && (o == s || o == p ==> ColumnOf(triples, m + 1, nodes, Object) == ColumnOf(triples, m, nodes, Object))
  {
  }

  lemma {:induction false} CountIsAll(triples: seq<Triple>, m: nat, role: Role)
    requires m <= |triples|
    ensures Count(triples, m, role) == m <==> forall i :: 0 <= i < m ==> Reaches(triples[i], role)
  {
    if m > 0 {
      CountIsAll(triples, m - 1, role);
      assert (forall i :: 0 <= i < m ==> Reaches(triples[i], role))
             <==> (forall i :: 0 <= i < m - 1 ==> Reaches(triples[i], role)) && Reaches(triples[m - 1], role);
    }
  }

  /** The three columns have equal length exactly when every triple's ids are pairwise distinct. */
  lemma AlignedIffDistinct(triples: seq<Triple>, nodes: seq<Node>)
    requires UniqueIds(nodes) && Complete(triples, nodes)
    ensures |Column(triples, nodes, Subject)| == |Column(triples, nodes, Predicate)| == |Column(triples, nodes, Object)|
            <==> forall i :: 0 <= i < |triples| ==> PairwiseDistinct(triples[i])
  {
    var m := |triples|;
    forall role: Role ensures |Column(triples, nodes, role)| == Count(triples, m, role) {
      ColumnLength(triples, m, nodes, role);
    }
    CountIsAll(triples, m, Subject);
    CountIsAll(triples, m, Predicate);
    CountIsAll(triples, m, Object);
    forall i | 0 <= i < m
      ensures PairwiseDistinct(triples[i]) <==> Reaches(triples[i], Predicate) && Reaches(triples[i], Object)
      ensures Reaches(triples[i], Subject)
    {
    }
  }

  /* ----- Whose entry is where ----- */

  // Triple `t` has put entry `i` into the column of `role`.
  predicate Owns(triples: seq<Triple>, role: Role, t: int, i: int) {
    0 <= t < |triples| && Reaches(triples[t], role) && Count(triples, t, role) == i
  }

  lemma {:induction false} CountGrows(triples: seq<Triple>, m: nat, n: nat, role: Role)
    requires m <= n <= |triples|
    ensures Count(triples, m, role) <= Count(triples, n, role)
  {
    if m < n {
      CountGrows(triples, m, n - 1, role);
    }
  }

  lemma OwnerIsUnique(triples: seq<Triple>, role: Role, t: int, u: int, i: int)
    requires Owns(triples, role, t, i) && Owns(triples, role, u, i)
    ensures t == u
  {
    if t < u {
      CountGrows(triples, t + 1, u, role);
    } else if u < t {
      CountGrows(triples, u + 1, t, role);
    }
  }

  lemma {:induction false} OwnerExists(triples: seq<Triple>, m: nat, role: Role, i: nat) returns (t: nat)
    requires m <= |triples| && i < Count(triples, m, role)
    ensures t < m && Owns(triples, role, t, i)
  {
    if Count(triples, m - 1, role) == i {
      t := m - 1;
    } else {
      t := OwnerExists(triples, m - 1, role, i);
    }
  }

  lemma OwnedIsCounted(triples: seq<Triple>, role: Role, t: nat, i: nat)
    requires Owns(triples, role, t, i)
    ensures i < Count(triples, |triples|, role)
  {
    CountGrows(triples, t + 1, |triples|, role);
  }

  lemma {:induction false} ColumnKeepsEntries(triples: seq<Triple>, m: nat, nodes: seq<Node>, role: Role, n: nat)
    requires m <= n <= |triples|
    ensures ColumnOf(triples, m, nodes, role) <= ColumnOf(triples, n, nodes, role)
  {
    if m < n {
      ColumnKeepsEntries(triples, m, nodes, role, n - 1);
      var before, entry := ColumnOf(triples, n - 1, nodes, role), Contribution(triples[n - 1], nodes, |nodes|, role);
      assert before <= before + entry == ColumnOf(triples, n, nodes, role);
    }
  }

  /** For any tables, a predicate that is also the object, but not the subject, goes to the predicates only. */
  lemma PredicateBeforeObject(triples: seq<Triple>, nodes: seq<Node>, m: nat)
    requires m < |triples| && triples[m].s != triples[m].p == triples[m].o
    ensures ColumnOf(triples, m, nodes, Predicate) + Texts(nodes, |nodes|, triples[m].p)
            <= Column(triples, nodes, Predicate)
    ensures ColumnOf(triples, m + 1, nodes, Object) == ColumnOf(triples, m, nodes, Object)
  {
    ChainAdds(triples, m, nodes);
    ColumnKeepsEntries(triples, m + 1, nodes, Predicate, |triples|);
  }

  // With unique and complete node ids, an entry is the one text of its owner's component.
  lemma OwnedEntry(triples: seq<Triple>, nodes: seq<Node>, role: Role, t: nat, i: nat)
    requires UniqueIds(nodes) && Complete(triples, nodes) && Owns(triples, role, t, i)
    ensures i < |Column(triples, nodes, role)|
    ensures Texts(nodes, |nodes|, Component(triples[t], role)) == [Column(triples, nodes, role)[i]]
  {
    var before := ColumnOf(triples, t, nodes, role);
    var entry := Contribution(triples[t], nodes, |nodes|, role);
    ColumnLength(triples, t, nodes, role);
    ContributesOne(triples[t], nodes, role);
    ColumnKeepsEntries(triples, t + 1, nodes, role, |triples|);
    assert (before + entry)[i] == entry[0];
    assert entry == [entry[0]];
  }

  lemma NodeOfEntry(triples: seq<Triple>, nodes: seq<Node>, role: Role, t: nat, k: nat)
    requires UniqueIds(nodes) && Complete(triples, nodes) && t < |triples| && k < |nodes|
    requires Reaches(triples[t], role) && nodes[k].id == Component(triples[t], role)
    ensures Count(triples, t, role) < |Column(triples, nodes, role)|
    ensures Column(triples, nodes, role)[Count(triples, t, role)] == nodes[k].str
  {
    OwnedEntry(triples, nodes, role, t, Count(triples, t, role));
    OneText(nodes, |nodes|, k);
  }

  /**
   With unique and complete node ids: whose text is where. The subject's text of
   triple `t` is at position `t`; its predicate's, unless that is the subject,
   after those of the earlier triples whose predicate is not their subject; its
   object's likewise.
   */
  lemma EntryIsText(triples: seq<Triple>, nodes: seq<Node>, t: nat, k: nat)
    requires UniqueIds(nodes) && Complete(triples, nodes) && t < |triples| && k < |nodes|
    ensures nodes[k].id == triples[t].s ==>
              t < |Column(triples, nodes, Subject)| && Column(triples, nodes, Subject)[t] == nodes[k].str
    ensures nodes[k].id == triples[t].p != triples[t].s ==>
              var i := |set u | 0 <= u < t && triples[u].p != triples[u].s|;
              i < |Column(triples, nodes, Predicate)| && Column(triples, nodes, Predicate)[i] == nodes[k].str
    ensures nodes[k].id == triples[t].o && triples[t].o != triples[t].s && triples[t].o != triples[t].p ==>
              var i := |set u | 0 <= u < t && triples[u].o != triples[u].s && triples[u].o != triples[u].p|;
              i < |Column(triples, nodes, Object)| && Column(triples, nodes, Object)[i] == nodes[k].str
  {
    Counts(triples, t);
    if nodes[k].id == triples[t].s {
      NodeOfEntry(triples, nodes, Subject, t, k);
    }
    if nodes[k].id == triples[t].p != triples[t].s {
      NodeOfEntry(triples, nodes, Predicate, t, k);
    }
    if nodes[k].id == triples[t].o && triples[t].o != triples[t].s && triples[t].o != triples[t].p {
      NodeOfEntry(triples, nodes, Object, t, k);
    }
  }

  lemma AllReachCount(triples: seq<Triple>, m: nat, role: Role)
    requires m <= |triples| && forall j :: 0 <= j < m ==> Reaches(triples[j], role)
    ensures Count(triples, m, role) == m
  {
    CountIsAll(triples, m, role);
  }

  /** Pairwise distinct ids put the texts of a triple's subject, predicate and object at its own position. */
  lemma ColumnsAreTexts(triples: seq<Triple>, nodes: seq<Node>, i: nat)
    requires UniqueIds(nodes) && Complete(triples, nodes) && i < |triples|
    requires forall j :: 0 <= j < |triples| ==> PairwiseDistinct(triples[j])
    ensures |Column(triples, nodes, Subject)| == |triples|
    ensures |Column(triples, nodes, Predicate)| == |triples|
    ensures |Column(triples, nodes, Object)| == |triples|
    ensures forall k :: 0 <= k < |nodes| ==>
                          && (nodes[k].id == triples[i].s ==> Column(triples, nodes, Subject)[i] == nodes[k].str)
                          && (nodes[k].id == triples[i].p ==> Column(triples, nodes, Predicate)[i] == nodes[k].str)
                          && (nodes[k].id == triples[i].o ==> Column(triples, nodes, Object)[i] == nodes[k].str)
  {
    forall role: Role
      ensures Count(triples, i, role) == i && |Column(triples, nodes, role)| == |triples|
      ensures forall k :: 0 <= k < |nodes| && nodes[k].id == Component(triples[i], role) ==>
                            Column(triples, nodes, role)[i] == nodes[k].str
    {
      TextsInPlace(triples, nodes, role, i);
    }
  }

  lemma TextsInPlace(triples: seq<Triple>, nodes: seq<Node>, role: Role, i: nat)
    requires UniqueIds(nodes) && Complete(triples, nodes) && i < |triples|
    requires forall j :: 0 <= j < |triples| ==> PairwiseDistinct(triples[j])
    ensures Count(triples, i, role) == i && |Column(triples, nodes, role)| == |triples|
    ensures forall k :: 0 <= k < |nodes| && nodes[k].id == Component(triples[i], role) ==>
                          Column(triples, nodes, role)[i] == nodes[k].str
  {
    forall j | 0 <= j < |triples| ensures Reaches(triples[j], role) {
      assert PairwiseDistinct(triples[j]);
    }
    AllReachCount(triples, i, role);
    AllReachCount(triples, |triples|, role);
    ColumnLength(triples, |triples|, nodes, role);
    forall k | 0 <= k < |nodes| && nodes[k].id == Component(triples[i], role)
      ensures Column(triples, nodes, role)[i] == nodes[k].str
    {
      NodeOfEntry(triples, nodes, role, i, k);
    }
  }

  /* ----- The order of the node table ----- */

  lemma TextsIgnoreOrder(nodes: seq<Node>, shuffled: seq<Node>, id: string)
    requires UniqueIds(nodes) && UniqueIds(shuffled) && multiset(nodes) == multiset(shuffled)
    ensures Texts(nodes, |nodes|, id) == Texts(shuffled, |shuffled|, id)
  {
    if i :| 0 <= i < |nodes| && nodes[i].id == id {
      OneText(nodes, |nodes|, i);
      assert nodes[i] in multiset(shuffled);
      var j :| 0 <= j < |shuffled| && shuffled[j] == nodes[i];
      OneText(shuffled, |shuffled|, j);
    } else {
      forall j | 0 <= j < |shuffled| ensures shuffled[j].id != id {
        assert shuffled[j] in multiset(nodes);
      }
      NoNodeNoText(nodes, |nodes|, id);
      NoNodeNoText(shuffled, |shuffled|, id);
    }
  }

  /** With unique ids the columns do not depend on the order of the node table. */
  lemma {:induction false} ColumnsIgnoreOrder(
    triples: seq<Triple>, m: nat, nodes: seq<Node>, shuffled: seq<Node>, role: Role)
    requires UniqueIds(nodes) && UniqueIds(shuffled) && multiset(nodes) == multiset(shuffled)
    requires m <= |triples|
    ensures ColumnOf(triples, m, nodes, role) == ColumnOf(triples, m, shuffled, role)
  {
    if m > 0 {
      ColumnsIgnoreOrder(triples, m - 1, nodes, shuffled, role);
      TextsIgnoreOrder(nodes, shuffled, Component(triples[m - 1], role));
    }
  }

  /* ----- The consumer ----- */

  datatype Attached = Attached(dir: string, file: string)
  datatype Outcome = Done(files: seq<Attached>) | OutOfRange(files: seq<Attached>)

  // Directory `i`, named after predicate `i`, receives a file named after object `i`.
  function Pairs(P: seq<string>, O: seq<string>, n: nat): (r: seq<Attached>)
    requires n <= |P| && n <= |O|
    ensures |r| == n && forall i :: 0 <= i < n ==> r[i] == Attached(P[i], O[i])
  {
    seq(n, i requires 0 <= i < n => Attached(P[i], O[i]))
  }

  // What attaching the objects comes to.
  function Attach(P: seq<string>, O: seq<string>): Outcome {
    if |P| <= |O| then Done(Pairs(P, O, |P|)) else OutOfRange(Pairs(P, O, |O|))
  }

  /** `O.at(i)` throws exactly when there are fewer objects than predicate directories. */
  method AttachObjects(db: DB) returns (r: Outcome)
    ensures r == Attach(db.P, db.O)
    ensures r.Done? <==> |db.P| <= |db.O|
    ensures |r.files| == if |db.P| <= |db.O| then |db.P| else |db.O|
    ensures forall i :: 0 <= i < |r.files| ==> r.files[i].dir == db.P[i] && r.files[i].file == db.O[i]
  {
    var predicatesDirs := [];
    for k := 0 to |db.P|
      invariant predicatesDirs == db.P[..k]
    {
      predicatesDirs := predicatesDirs + [db.P[k]];
    }
    var files := [];
    for i := 0 to |predicatesDirs|
      invariant i <= |db.O| && files == Pairs(db.P, db.O, i)
    {
      if i >= |db.O| { return OutOfRange(files); }
      files := files + [Attached(predicatesDirs[i], db.O[i])];
    }
    return Done(files);
  }

  /* ----- The join and its consumer together ----- */

  // The files the program makes of the two tables.
  function Mounted(triples: seq<Triple>, nodes: seq<Node>): Outcome {
    Attach(Column(triples, nodes, Predicate), Column(triples, nodes, Object))
  }

  /** The program from a fresh `DB`, for any tables. */
  method Mount(triples: seq<Triple>, nodes: seq<Node>) returns (r: Outcome)
    ensures r == Mounted(triples, nodes)
  {
    var db := new DB();
    db.GetAllTriplesText(triples, nodes);
    assert [] + Column(triples, nodes, Predicate) == Column(triples, nodes, Predicate);
    assert [] + Column(triples, nodes, Object) == Column(triples, nodes, Object);
    r := AttachObjects(db);
  }

  // Every index is in range exactly when no fewer triples reach the object role than the predicate role.
  lemma InRangeByCounts(triples: seq<Triple>, nodes: seq<Node>)
    requires UniqueIds(nodes) && Complete(triples, nodes)
    ensures Mounted(triples, nodes).Done?
            <==> Count(triples, |triples|, Predicate) <= Count(triples, |triples|, Object)
  {
    ColumnLength(triples, |triples|, nodes, Predicate);
    ColumnLength(triples, |triples|, nodes, Object);
  }

  /**
   Every `O.at(i)` is in range exactly when no fewer triples have an object that
   is neither their subject nor their predicate than have a predicate that is
   not their subject.
   */
  lemma InRangeIff(triples: seq<Triple>, nodes: seq<Node>)
    requires UniqueIds(nodes) && Complete(triples, nodes)
    ensures Mounted(triples, nodes).Done?
            <==> |set i | 0 <= i < |triples| && triples[i].p != triples[i].s|
                 <= |set i | 0 <= i < |triples| && triples[i].o != triples[i].s && triples[i].o != triples[i].p|
  {
    InRangeByCounts(triples, nodes);
    Counts(triples, |triples|);
  }

  // Directory `i` and file `i` come from one triple, for every directory.
  ghost predicate PairsOwn(triples: seq<Triple>) {
    forall t, i :: Owns(triples, Predicate, t, i) ==> Owns(triples, Object, t, i)
  }

  predicate SameReach(t: Triple) {
    Reaches(t, Predicate) <==> Reaches(t, Object)
  }

  ghost predicate EvenUpTo(triples: seq<Triple>, t: int) {
    t < |triples| && forall u :: 0 <= u <= t ==> SameReach(triples[u])
  }

  // Up to the last triple with a directory, no triple reaches one of the two roles without the other.
  ghost predicate EvenUpToLastPredicate(triples: seq<Triple>) {
    forall t :: 0 <= t < |triples| && Reaches(triples[t], Predicate) ==> EvenUpTo(triples, t)
  }

  lemma {:induction false} SameCounts(triples: seq<Triple>, m: nat)
    requires m <= |triples| && forall u :: 0 <= u < m ==> SameReach(triples[u])
    ensures Count(triples, m, Predicate) == Count(triples, m, Object)
  {
    if m > 0 {
      SameCounts(triples, m - 1);
    }
  }

  lemma EvenOwns(triples: seq<Triple>, t: nat, i: nat)
    requires EvenUpToLastPredicate(triples) && Owns(triples, Predicate, t, i)
    ensures Owns(triples, Object, t, i)
  {
    assert EvenUpTo(triples, t) && SameReach(triples[t]);
    SameCounts(triples, t);
  }

  lemma {:induction false} PairsOwnIsEven(triples: seq<Triple>, t: nat, u: nat)
    requires PairsOwn(triples) && t < |triples| && Reaches(triples[t], Predicate) && u <= t
    ensures EvenUpTo(triples, u)
  {
    if u > 0 {
      PairsOwnIsEven(triples, t, u - 1);
    }
    SameCounts(triples, u);
    var i := Count(triples, u, Predicate);
    if Reaches(triples[u], Predicate) {
      assert Owns(triples, Predicate, u, i);
    } else if Reaches(triples[u], Object) {
      CountGrows(triples, u, t, Predicate);
      var v := OwnerExists(triples, t + 1, Predicate, i);
      assert Owns(triples, Object, u, i);
      OwnerIsUnique(triples, Object, u, v, i);
    }
  }

  /**
   Each directory receives its own triple's object exactly when, up to the last
   triple whose predicate is not its subject, every triple reaches both roles or
   neither.
   */
  lemma PairsOwnIff(triples: seq<Triple>)
    ensures PairsOwn(triples) <==> EvenUpToLastPredicate(triples)
  {
    if PairsOwn(triples) {
      forall t: nat | t < |triples| && Reaches(triples[t], Predicate)
        ensures EvenUpTo(triples, t)
      {
        PairsOwnIsEven(triples, t, t);
      }
    }
    if EvenUpToLastPredicate(triples) {
      forall t, i | Owns(triples, Predicate, t, i) ensures Owns(triples, Object, t, i) {
        EvenOwns(triples, t, i);
      }
    }
  }

  lemma EvenCounts(triples: seq<Triple>)
    requires EvenUpToLastPredicate(triples)
    ensures Count(triples, |triples|, Predicate) <= Count(triples, |triples|, Object)
  {
    var n := Count(triples, |triples|, Predicate);
    if n > 0 {
      var last := OwnerExists(triples, |triples|, Predicate, n - 1);
      EvenOwns(triples, last, n - 1);
      OwnedIsCounted(triples, Object, last, n - 1);
    }
  }

  /** Then no index is out of range, and the directory of each triple holds that triple's object. */
  lemma MountedPairs(triples: seq<Triple>, nodes: seq<Node>, t: nat, i: nat)
    requires UniqueIds(nodes) && Complete(triples, nodes)
    requires EvenUpToLastPredicate(triples) && Owns(triples, Predicate, t, i)
    ensures var r := Mounted(triples, nodes);
            && r.Done? && i < |r.files|
            && Texts(nodes, |nodes|, triples[t].p) == [r.files[i].dir]
            && Texts(nodes, |nodes|, triples[t].o) == [r.files[i].file]
  {
    EvenOwns(triples, t, i);
    OwnedEntry(triples, nodes, Predicate, t, i);
    OwnedEntry(triples, nodes, Object, t, i);
    FileAt(triples, nodes, i);
    EvenCounts(triples);
    InRangeByCounts(triples, nodes);
  }

  /** Pairwise distinct ids: every index is in range and there is one file for each triple. */
  lemma DistinctMountsAll(triples: seq<Triple>, nodes: seq<Node>)
    requires UniqueIds(nodes) && Complete(triples, nodes)
    requires forall j :: 0 <= j < |triples| ==> PairwiseDistinct(triples[j])
    ensures EvenUpToLastPredicate(triples)
    ensures Mounted(triples, nodes).Done? && |Mounted(triples, nodes).files| == |triples|
  {
    forall j | 0 <= j < |triples| ensures Reaches(triples[j], Predicate) && Reaches(triples[j], Object) {
      assert PairwiseDistinct(triples[j]);
    }
    AllReachCount(triples, |triples|, Predicate);
    AllReachCount(triples, |triples|, Object);
    ColumnLength(triples, |triples|, nodes, Predicate);
    InRangeByCounts(triples, nodes);
  }

  // Entry number `Count(triples, u, Predicate)` of the predicate column then belongs to a later triple.
  lemma LaterTripleTakesOver(triples: seq<Triple>, u: nat, t: nat) returns (v: nat)
    requires u < t < |triples| && Reaches(triples[t], Predicate) && !Reaches(triples[u], Predicate)
    ensures u < v < |triples| && Owns(triples, Predicate, v, Count(triples, u, Predicate))
  {
    CountGrows(triples, u, t, Predicate);
    v := OwnerExists(triples, t + 1, Predicate, Count(triples, u, Predicate));
    if v < u {
      CountGrows(triples, v + 1, u, Predicate);
    }
  }

  lemma FileAt(triples: seq<Triple>, nodes: seq<Node>, i: nat)
    requires i < |Column(triples, nodes, Predicate)| && i < |Column(triples, nodes, Object)|
    ensures var files := Mounted(triples, nodes).files;
            i < |files|
            && files[i] == Attached(Column(triples, nodes, Predicate)[i], Column(triples, nodes, Object)[i])
  {
  }

  /**
   What goes wrong otherwise: the first triple `u` that reaches the object role
   alone, before some triple with a directory, has its object put into the
   directory of a later triple. No index need be out of range.
   */
  lemma CoincidingIdsMispair(triples: seq<Triple>, nodes: seq<Node>, u: nat, t: nat) returns (v: nat)
    requires UniqueIds(nodes) && Complete(triples, nodes)
    requires u < t < |triples| && Reaches(triples[t], Predicate)
    requires triples[u].p == triples[u].s && triples[u].o != triples[u].s
    requires forall w :: 0 <= w < u ==> SameReach(triples[w])
    ensures var i, files := Count(triples, u, Object), Mounted(triples, nodes).files;
            && u < v < |triples| && Owns(triples, Predicate, v, i) && i < |files|
            && Texts(nodes, |nodes|, triples[v].p) == [files[i].dir]
            && Texts(nodes, |nodes|, triples[u].o) == [files[i].file]
  {
    var i := Count(triples, u, Object);
    SameCounts(triples, u);
    v := LaterTripleTakesOver(triples, u, t);
    OwnedEntry(triples, nodes, Predicate, v, i);
    OwnedEntry(triples, nodes, Object, u, i);
    FileAt(triples, nodes, i);
  }
}
