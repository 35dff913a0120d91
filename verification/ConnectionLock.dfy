/**
 The one-permit semaphore around every client file operation
 (afsfuse_client.c): any number of threads, any interleaving.
 */
module ConnectionLock {

  /* ----- The control flow of one operation ----- */

  // Operations that make one remote call and nothing else (open, statfs, chmod, chown, utime,
  // mknod, readlink, mkdir, unlink, rmdir, symlink, rename, link, truncate, release, fsync,
  // flush) are `OneCall`.
  datatype Op = GetAttr | GetDir | Read | Write | OneCall

  datatype Label =
    | Entry          // in getconnection
    | Start          // has it; issues the request
    | Length         // transfers the XDR length
    | Data           // transfers data, or fills the directory
    | EndCall
    | Failed         // throwerror
    | FailedEndCall
    | Release        // in relconnection on the success path
    | FailedRelease  // in relconnection on the error path
    | Returned

  // Where an operation may go next inside the section the connection guards.
  function Next(op: Op, at: Label): set<Label> {
    match at
    case Start =>
      (match op
       case OneCall => {Release}
       case GetDir => {Data, Failed}
       case _ => {Length, Failed})
    case Length => {Data, Failed}
    case Data =>
      (match op
       case GetDir => {Data, Release}
       case Read => {Data, EndCall}
       case _ => {EndCall, Failed})
    case EndCall => if op == Write then {Release, Failed} else {Release}
    case Failed => if op == GetAttr then {FailedEndCall} else {FailedRelease}
    case FailedEndCall => {FailedRelease}
    case _ => {}
  }

  predicate InRelease(at: Label) {
    at == Release || at == FailedRelease
  }

  // Between getconnection and relconnection.
  predicate Guarded(at: Label) {
    at != Entry && at != Returned
  }

  predicate Edge(op: Op, a: Label, b: Label) {
    (a == Entry && b == Start) || (InRelease(a) && b == Returned) || b in Next(op, a)
  }

  // A whole pass through an operation.
  ghost predicate Path(op: Op, ls: seq<Label>) {
    && |ls| > 0 && ls[0] == Entry
    && forall i :: 0 <= i < |ls| - 1 ==> Edge(op, ls[i], ls[i + 1])
  }

  function Releases(ls: seq<Label>): nat {
    if ls == [] then 0
    else Releases(ls[..|ls| - 1]) + if InRelease(ls[|ls| - 1]) then 1 else 0
  }

  function Entries(ls: seq<Label>): nat {
    if ls == [] then 0
    else Entries(ls[..|ls| - 1]) + if ls[|ls| - 1] == Entry then 1 else 0
  }

  /** Every path of every operation releases once if it returns, and never before. */
  lemma {:induction false} ReleasesOnce(op: Op, ls: seq<Label>)
    requires Path(op, ls)
    ensures Entries(ls) == 1
    ensures var last := ls[|ls| - 1]; Releases(ls) == if InRelease(last) || last == Returned then 1 else 0
    decreases |ls|
  {
    if |ls| > 1 {
      var n := |ls| - 1;
      ReleasesOnce(op, ls[..n]);
      assert Edge(op, ls[n - 1], ls[n]);
      assert ls[..n][n - 1] == ls[n - 1];
    }
  }

  /* ----- The paths, spelled out ----- */

  // A path that has returned ends there, and one that has not goes on.
  lemma GoesOn(op: Op, ls: seq<Label>, k: nat)
    requires Path(op, ls) && ls[|ls| - 1] == Returned && k < |ls|
    ensures if ls[k] == Returned then |ls| == k + 1 else k + 1 < |ls| && Edge(op, ls[k], ls[k + 1])
  {
    if k + 1 < |ls| {
      assert Edge(op, ls[k], ls[k + 1]);
    }
  }

  // From its first `Data` at `k` on, such a path stays there until it leaves for `Release` (GetDir)
  // or `EndCall` (Read).
  lemma {:induction false} DataRun(op: Op, ls: seq<Label>, k: nat) returns (end: nat)
    requires Path(op, ls) && ls[|ls| - 1] == Returned && k < |ls| && ls[k] == Data && (op == GetDir || op == Read)
    ensures k < end < |ls| && (forall j :: k <= j < end ==> ls[j] == Data)
    ensures ls[end] == if op == GetDir then Release else EndCall
    decreases |ls| - k
  {
    GoesOn(op, ls, k);
    if ls[k + 1] == Data {
      end := DataRun(op, ls, k + 1);
    } else {
      end := k + 1;
    }
  }

  lemma FirstFive(op: Op, ls: seq<Label>)
    requires Path(op, ls) && ls[|ls| - 1] == Returned
    ensures |ls| >= 4 && ls[0] == Entry && ls[1] == Start && Edge(op, Start, ls[2]) && Edge(op, ls[2], ls[3])
    ensures if ls[3] == Returned then |ls| == 4 else |ls| >= 5 && Edge(op, ls[3], ls[4])
  {
    GoesOn(op, ls, 0);
    GoesOn(op, ls, 1);
    GoesOn(op, ls, 2);
    GoesOn(op, ls, 3);
  }

  lemma GetAttrPathIs(ls: seq<Label>)
    requires Path(GetAttr, ls) && ls[|ls| - 1] == Returned
    ensures || ls == [Entry, Start, Length, Data, EndCall, Release, Returned]
            || ls == [Entry, Start, Failed, FailedEndCall, FailedRelease, Returned]
            || ls == [Entry, Start, Length, Failed, FailedEndCall, FailedRelease, Returned]
            || ls == [Entry, Start, Length, Data, Failed, FailedEndCall, FailedRelease, Returned]
  {
    FirstFive(GetAttr, ls);
    GoesOn(GetAttr, ls, 4);
    GoesOn(GetAttr, ls, 5);
    if |ls| > 6 { GoesOn(GetAttr, ls, 6); }
    if |ls| > 7 { GoesOn(GetAttr, ls, 7); }
  }

  /** `xmp_getattr` from its first line to its return. */
  lemma GetAttrPaths(ls: seq<Label>)
    ensures Path(GetAttr, ls) && ls[|ls| - 1] == Returned
            <==> || ls == [Entry, Start, Length, Data, EndCall, Release, Returned]
                 || ls == [Entry, Start, Failed, FailedEndCall, FailedRelease, Returned]
                 || ls == [Entry, Start, Length, Failed, FailedEndCall, FailedRelease, Returned]
                 || ls == [Entry, Start, Length, Data, Failed, FailedEndCall, FailedRelease, Returned]
  {
    if Path(GetAttr, ls) && ls[|ls| - 1] == Returned {
      GetAttrPathIs(ls);
    }
  }

  lemma WritePathIs(ls: seq<Label>)
    requires Path(Write, ls) && ls[|ls| - 1] == Returned
    ensures || ls == [Entry, Start, Length, Data, EndCall, Release, Returned]
            || ls == [Entry, Start, Failed, FailedRelease, Returned]
            || ls == [Entry, Start, Length, Failed, FailedRelease, Returned]
            || ls == [Entry, Start, Length, Data, Failed, FailedRelease, Returned]
            || ls == [Entry, Start, Length, Data, EndCall, Failed, FailedRelease, Returned]
  {
    FirstFive(Write, ls);
    GoesOn(Write, ls, 4);
    if |ls| > 5 { GoesOn(Write, ls, 5); }
    if |ls| > 6 { GoesOn(Write, ls, 6); }
    if |ls| > 7 { GoesOn(Write, ls, 7); }
  }

  /** `xmp_write`: unlike `xmp_getattr` it does not end a failed call, and its `rx_EndCall` may fail. */
  lemma WritePaths(ls: seq<Label>)
    ensures Path(Write, ls) && ls[|ls| - 1] == Returned
            <==> || ls == [Entry, Start, Length, Data, EndCall, Release, Returned]
                 || ls == [Entry, Start, Failed, FailedRelease, Returned]
                 || ls == [Entry, Start, Length, Failed, FailedRelease, Returned]
                 || ls == [Entry, Start, Length, Data, Failed, FailedRelease, Returned]
                 || ls == [Entry, Start, Length, Data, EndCall, Failed, FailedRelease, Returned]
  {
    if Path(Write, ls) && ls[|ls| - 1] == Returned {
      WritePathIs(ls);
    }
  }

  /** An operation of one remote call. */
  lemma OneCallPaths(ls: seq<Label>)
    ensures Path(OneCall, ls) && ls[|ls| - 1] == Returned <==> ls == [Entry, Start, Release, Returned]
  {
    if Path(OneCall, ls) && ls[|ls| - 1] == Returned {
      FirstFive(OneCall, ls);
    }
  }

  /** `xmp_getdir`: one failure exit, or any number of entries from one on. */
  lemma GetDirPaths(ls: seq<Label>)
    ensures Path(GetDir, ls) && ls[|ls| - 1] == Returned
            <==> || ls == [Entry, Start, Failed, FailedRelease, Returned]
                 || (&& |ls| >= 5 && ls[0] == Entry && ls[1] == Start && ls[|ls| - 2] == Release
                     && ls[|ls| - 1] == Returned && forall k :: 2 <= k < |ls| - 2 ==> ls[k] == Data)
  {
    if Path(GetDir, ls) && ls[|ls| - 1] == Returned {
      FirstFive(GetDir, ls);
      if ls[2] == Data {
        var end := DataRun(GetDir, ls, 2);
        GoesOn(GetDir, ls, end);
        GoesOn(GetDir, ls, end + 1);
      } else {
        GoesOn(GetDir, ls, 4);
      }
    }
  }

  lemma ReadPathIs(ls: seq<Label>)
    requires Path(Read, ls) && ls[|ls| - 1] == Returned
    ensures || ls == [Entry, Start, Failed, FailedRelease, Returned]
            || ls == [Entry, Start, Length, Failed, FailedRelease, Returned]
            || (&& |ls| >= 7 && ls[0] == Entry && ls[1] == Start && ls[2] == Length && ls[|ls| - 3] == EndCall
                && ls[|ls| - 2] == Release && ls[|ls| - 1] == Returned
                && forall k :: 3 <= k < |ls| - 3 ==> ls[k] == Data)
  {
    FirstFive(Read, ls);
    if ls[3] == Data {
      var end := DataRun(Read, ls, 3);
      GoesOn(Read, ls, end);
      GoesOn(Read, ls, end + 1);
      GoesOn(Read, ls, end + 2);
    } else {
      GoesOn(Read, ls, 4);
      if |ls| > 5 { GoesOn(Read, ls, 5); }
    }
  }

  /** `xmp_read`: two failure exits, or any number of chunks from one on. */
  lemma ReadPaths(ls: seq<Label>)
    ensures Path(Read, ls) && ls[|ls| - 1] == Returned
            <==> || ls == [Entry, Start, Failed, FailedRelease, Returned]
                 || ls == [Entry, Start, Length, Failed, FailedRelease, Returned]
                 || (&& |ls| >= 7 && ls[0] == Entry && ls[1] == Start && ls[2] == Length && ls[|ls| - 3] == EndCall
                     && ls[|ls| - 2] == Release && ls[|ls| - 1] == Returned
                     && forall k :: 3 <= k < |ls| - 3 ==> ls[k] == Data)
  {
    if Path(Read, ls) && ls[|ls| - 1] == Returned {
      ReadPathIs(ls);
    }
  }

  /* ----- Threads and the semaphore ----- */

  // `owns` says that the thread's last getconnection took a permit it has not given back.
  datatype Thread = Thread(op: Op, at: Label, owns: bool)

  // `strays` counts the posts of threads that owned nothing.
  datatype State = State(permits: nat, threads: seq<Thread>, strays: nat)

  datatype Event =
    | Begin(i: nat, op: Op)
    | Acquire(i: nat)       // sem_wait returns 0
    | Interrupted(i: nat)   // sem_wait fails with EINTR: waits again
    | WaitFails(i: nat)     // sem_wait fails otherwise: getconnection returns null, which no caller tests
    | Advance(i: nat, to: Label)
    | Post(i: nat)

  predicate Enabled(s: State, e: Event) {
    && e.i < |s.threads|
    && var at := s.threads[e.i].at;
    match e
    case Begin(_, _) => at == Returned
    case Acquire(_) => at == Entry && s.permits > 0
    case Interrupted(_) => at == Entry
    case WaitFails(_) => at == Entry
    case Advance(_, to) => to in Next(s.threads[e.i].op, at)
    case Post(_) => InRelease(at)
  }

  function Do(s: State, e: Event): State
    requires Enabled(s, e)
  {
    var t := s.threads[e.i];
    match e
    case Begin(i, op) => s.(threads := s.threads[i := Thread(op, Entry, false)])
    case Acquire(i) => s.(permits := s.permits - 1, threads := s.threads[i := t.(at := Start, owns := true)])
    case Interrupted(_) => s
    case WaitFails(i) => s.(threads := s.threads[i := t.(at := Start, owns := false)])
    case Advance(i, to) => s.(threads := s.threads[i := t.(at := to)])
    case Post(i) =>
      State(s.permits + 1, s.threads[i := t.(at := Returned, owns := false)], s.strays + if t.owns then 0 else 1)
  }

  // `sem_init` with one permit; no thread is inside an operation.
  predicate Initial(s: State) {
    && s.permits == 1 && s.strays == 0
    && forall i :: 0 <= i < |s.threads| ==> s.threads[i].at == Returned && !s.threads[i].owns
  }

  ghost predicate Run(ss: seq<State>, es: seq<Event>) {
    && |ss| == |es| + 1 && Initial(ss[0])
    && forall i :: 0 <= i < |es| ==> Enabled(ss[i], es[i]) && ss[i + 1] == Do(ss[i], es[i])
  }

  /* ----- What each thread does in a run ----- */

  // Event `b` is the last begin of thread `i` before event `n`, with the operation `op`.
  ghost predicate LastBegin(es: seq<Event>, b: nat, n: nat, i: nat, op: Op)
    requires n <= |es|
  {
    b < n && es[b] == Begin(i, op) && forall m :: b < m < n && es[m].i == i ==> !es[m].Begin?
  }

  function At(s: State, i: nat): Label {
    if i < |s.threads| then s.threads[i].at else Returned
  }

  // The labels thread `i` has had since its last begin, interrupted waits left out.
  ghost function Trail(ss: seq<State>, es: seq<Event>, n: nat, i: nat): seq<Label>
    requires n <= |es| < |ss|
  {
    if n == 0 then []
    else if es[n - 1].i != i || es[n - 1].Interrupted? then Trail(ss, es, n - 1, i)
    else if es[n - 1].Begin? then [At(ss[n], i)]
    else Trail(ss, es, n - 1, i) + [At(ss[n], i)]
  }

  lemma PathExtends(op: Op, ls: seq<Label>, to: Label)
    requires Path(op, ls) && Edge(op, ls[|ls| - 1], to)
    ensures Path(op, ls + [to])
  {
    var more := ls + [to];
    forall i | 0 <= i < |more| - 1 ensures Edge(op, more[i], more[i + 1]) {
      if i < |ls| - 1 {
        assert Edge(op, ls[i], ls[i + 1]);
      }
    }
  }

  // Thread `i` carries out `op` and has come along `ls`.
  ghost predicate CameAlong(s: State, i: nat, op: Op, ls: seq<Label>) {
    i < |s.threads| && s.threads[i].op == op && Path(op, ls) && ls[|ls| - 1] == s.threads[i].at
  }

  lemma StepAlong(s: State, e: Event, i: nat, op: Op, ls: seq<Label>)
    requires CameAlong(s, i, op, ls) && Enabled(s, e) && !(e.Begin? && e.i == i)
    ensures CameAlong(Do(s, e), i, op, if e.i != i || e.Interrupted? then ls else ls + [At(Do(s, e), i)])
  {
    if e.i == i && !e.Interrupted? {
      PathExtends(op, ls, Do(s, e).threads[i].at);
    }
  }

  lemma {:induction false} FollowsPath(ss: seq<State>, es: seq<Event>, b: nat, n: nat, i: nat, op: Op)
    requires Run(ss, es) && n <= |es| && LastBegin(es, b, n, i, op)
    ensures CameAlong(ss[n], i, op, Trail(ss, es, n, i))
  {
    var s, e := ss[n - 1], es[n - 1];
    assert Enabled(s, e) && ss[n] == Do(s, e);
    if b < n - 1 {
      FollowsPath(ss, es, b, n - 1, i, op);
      StepAlong(s, e, i, op, Trail(ss, es, n - 1, i));
    }
  }

  /**
   In every run a thread carries out the operation it last began: the labels it
   has had since then are a path of that operation up to where it stands, so it
   has passed through one relconnection if it is at or beyond it and through none
   before.
   */
  lemma RunsFollowPaths(ss: seq<State>, es: seq<Event>, b: nat, n: nat, i: nat, op: Op)
    requires Run(ss, es) && n <= |es| && LastBegin(es, b, n, i, op)
    ensures i < |ss[n].threads| && ss[n].threads[i].op == op
    ensures var ls, at := Trail(ss, es, n, i), ss[n].threads[i].at;
            && Path(op, ls) && ls[|ls| - 1] == at
            && Entries(ls) == 1 && Releases(ls) == if at in {Release, FailedRelease, Returned} then 1 else 0
  {
    FollowsPath(ss, es, b, n, i, op);
    ReleasesOnce(op, Trail(ss, es, n, i));
  }

  // How often thread `i` has posted between events `b` and `n`.
  ghost function PostsSince(es: seq<Event>, b: nat, n: nat, i: nat): nat
    requires n <= |es|
  {
    if n <= b + 1 then 0 else PostsSince(es, b, n - 1, i) + if es[n - 1] == Post(i) then 1 else 0
  }

  ghost function PostsOf(es: seq<Event>, b: nat, n: nat, i: nat): set<nat>
    requires n <= |es|
  {
    set m: nat | b < m < n && es[m] == Post(i)
  }

  lemma {:induction false} PostsAreCounted(es: seq<Event>, b: nat, n: nat, i: nat)
    requires n <= |es|
    ensures PostsSince(es, b, n, i) == |PostsOf(es, b, n, i)|
    decreases n
  {
    if n <= b + 1 {
      assert PostsOf(es, b, n, i) == {};
    } else {
      PostsAreCounted(es, b, n - 1, i);
      if es[n - 1] == Post(i) {
        assert PostsOf(es, b, n, i) == PostsOf(es, b, n - 1, i) + {n - 1};
      } else {
        assert PostsOf(es, b, n, i) == PostsOf(es, b, n - 1, i);
      }
    }
  }

  // Only its own post returns a thread, and it posts only while it has not returned.
  lemma PostReturns(s: State, e: Event, i: nat)
    requires Enabled(s, e) && i < |s.threads| && !(e.Begin? && e.i == i)
    ensures e == Post(i) ==> s.threads[i].at != Returned
    ensures Do(s, e).threads[i].at == Returned <==> e == Post(i) || s.threads[i].at == Returned
  {
    NextStaysGuarded(s.threads[e.i].op, s.threads[e.i].at);
  }

  // One post since event `b` if thread `i` has returned, none otherwise.
  ghost predicate PostedIffReturned(ss: seq<State>, es: seq<Event>, b: nat, n: nat, i: nat)
    requires n <= |es| < |ss|
  {
    i < |ss[n].threads| && PostsSince(es, b, n, i) == if ss[n].threads[i].at == Returned then 1 else 0
  }

  lemma BeginPostsNone(ss: seq<State>, es: seq<Event>, b: nat, n: nat, i: nat, op: Op)
    requires Run(ss, es) && n == b + 1 <= |es| && es[b] == Begin(i, op)
    ensures PostedIffReturned(ss, es, b, n, i)
  {
    assert Enabled(ss[b], es[b]) && ss[n] == Do(ss[b], es[b]);
  }

  lemma StepPosts(ss: seq<State>, es: seq<Event>, b: nat, n: nat, i: nat)
    requires Run(ss, es) && b + 1 < n <= |es| && !(es[n - 1].Begin? && es[n - 1].i == i)
    requires PostedIffReturned(ss, es, b, n - 1, i)
    ensures PostedIffReturned(ss, es, b, n, i)
  {
    PostReturns(ss[n - 1], es[n - 1], i);
  }

  lemma {:induction false} PostsCounted(ss: seq<State>, es: seq<Event>, b: nat, n: nat, i: nat, op: Op)
    requires Run(ss, es) && n <= |es| && LastBegin(es, b, n, i, op)
    ensures PostedIffReturned(ss, es, b, n, i)
    decreases n
  {
    if n == b + 1 {
      BeginPostsNone(ss, es, b, n, i, op);
    } else {
      PostsCounted(ss, es, b, n - 1, i, op);
      StepPosts(ss, es, b, n, i);
    }
  }

  /** So since its last begin a thread has posted exactly once if it has returned, and not yet otherwise. */
  lemma PostsOnce(ss: seq<State>, es: seq<Event>, b: nat, n: nat, i: nat, op: Op)
    requires Run(ss, es) && n <= |es| && LastBegin(es, b, n, i, op)
    ensures i < |ss[n].threads|
    ensures |set m | b < m < n && es[m] == Post(i)| == if ss[n].threads[i].at == Returned then 1 else 0
  {
    PostsCounted(ss, es, b, n, i, op);
    PostsAreCounted(es, b, n, i);
    assert (set m | b < m < n && es[m] == Post(i)) == PostsOf(es, b, n, i);
  }

  /** Between two begins of a thread there is exactly one post of it: no operation is left, or begun, half-way. */
  lemma BetweenBegins(ss: seq<State>, es: seq<Event>, b: nat, n: nat, i: nat, op: Op)
    requires Run(ss, es) && n < |es| && LastBegin(es, b, n, i, op) && es[n].Begin? && es[n].i == i
    ensures |set m | b < m < n && es[m] == Post(i)| == 1
  {
    PostsOnce(ss, es, b, n, i, op);
    assert Enabled(ss[n], es[n]);
  }

  /* ----- Conservation ----- */

  function Owners(ts: seq<Thread>): nat {
    if ts == [] then 0 else (if ts[0].owns then 1 else 0) + Owners(ts[1..])
  }

  lemma {:induction false} OwnersUpdate(ts: seq<Thread>, i: nat, t: Thread)
    requires i < |ts|
    ensures Owners(ts[i := t]) + (if ts[i].owns then 1 else 0) == Owners(ts) + if t.owns then 1 else 0
  {
    if i == 0 {
      assert ts[0 := t][1..] == ts[1..];
    } else {
      assert ts[i := t][1..] == ts[1..][i - 1 := t];
      OwnersUpdate(ts[1..], i - 1, t);
    }
  }

  lemma {:induction false} NoOwners(ts: seq<Thread>)
    requires forall i :: 0 <= i < |ts| ==> !ts[i].owns
    ensures Owners(ts) == 0
  {
    if ts != [] { NoOwners(ts[1..]); }
  }

  // Permits are conserved up to stray posts, and only threads in the guarded section own one.
  ghost predicate Conserved(s: State) {
    && s.permits + Owners(s.threads) == 1 + s.strays
    && forall i :: 0 <= i < |s.threads| && s.threads[i].owns ==> Guarded(s.threads[i].at)
  }

  lemma NextStaysGuarded(op: Op, at: Label)
    ensures forall to :: to in Next(op, at) ==> Guarded(to) && Guarded(at)
  {
  }

  lemma StepConserves(s: State, e: Event)
    requires Conserved(s) && Enabled(s, e)
    ensures Conserved(Do(s, e))
  {
    var t := s.threads[e.i];
    NextStaysGuarded(t.op, t.at);
    if !e.Interrupted? {
      OwnersUpdate(s.threads, e.i, Do(s, e).threads[e.i]);
    }
  }

  /** In every state of every run, permits plus owners is one plus the stray posts so far. */
  lemma {:induction false} PermitsConserved(ss: seq<State>, es: seq<Event>, n: nat)
    requires Run(ss, es) && n < |ss|
    ensures Conserved(ss[n])
  {
    if n == 0 {
      NoOwners(ss[0].threads);
    } else {
      PermitsConserved(ss, es, n - 1);
      StepConserves(ss[n - 1], es[n - 1]);
    }
  }

  /* ----- Mutual exclusion ----- */

  // Up to event `n`, sem_wait has failed by interruption only.
  ghost predicate OnlyInterrupted(es: seq<Event>, n: nat)
    requires n <= |es|
  {
    forall i :: 0 <= i < n ==> !es[i].WaitFails?
  }

  // Whoever is in the guarded section owns the permit it entered with.
  ghost predicate GuardedOwn(s: State) {
    s.strays == 0 && forall i :: 0 <= i < |s.threads| ==> (Guarded(s.threads[i].at) <==> s.threads[i].owns)
  }

  lemma {:induction false} InsideOwns(ss: seq<State>, es: seq<Event>, n: nat)
    requires Run(ss, es) && n <= |es| && OnlyInterrupted(es, n)
    ensures GuardedOwn(ss[n])
  {
    if n > 0 {
      InsideOwns(ss, es, n - 1);
      var s, e := ss[n - 1], es[n - 1];
      NextStaysGuarded(s.threads[e.i].op, s.threads[e.i].at);
    }
  }

  lemma {:induction false} OwnersCount(ts: seq<Thread>, i: nat)
    requires i < |ts| && ts[i].owns
    ensures Owners(ts) >= 1
    ensures forall j :: 0 <= j < |ts| && j != i && ts[j].owns ==> Owners(ts) >= 2
  {
    if i > 0 {
      OwnersCount(ts[1..], i - 1);
    }
    forall j | 0 <= j < |ts| && j != i && ts[j].owns ensures Owners(ts) >= 2 {
      if i == 0 {
        OwnersCount(ts[1..], j - 1);
      } else if j > 0 {
        assert ts[1..][j - 1].owns;
      }
    }
  }

  /** While sem_wait fails by interruption only, permits plus the threads in the guarded section is one. */
  lemma OnePermitOrOneInside(ss: seq<State>, es: seq<Event>, n: nat)
    requires Run(ss, es) && n <= |es| && OnlyInterrupted(es, n)
    ensures ss[n].permits + Owners(ss[n].threads) == 1
    ensures forall i :: 0 <= i < |ss[n].threads| ==> (ss[n].threads[i].owns <==> Guarded(ss[n].threads[i].at))
  {
    PermitsConserved(ss, es, n);
    InsideOwns(ss, es, n);
  }

  /** So at most one thread is between getconnection and relconnection, and no permit is free then. */
  lemma MutualExclusion(ss: seq<State>, es: seq<Event>, n: nat, i: nat, j: nat)
    requires Run(ss, es) && n <= |es| && OnlyInterrupted(es, n)
    requires i < |ss[n].threads| && j < |ss[n].threads|
    requires Guarded(ss[n].threads[i].at) && Guarded(ss[n].threads[j].at)
    ensures i == j && ss[n].permits == 0
  {
    OnePermitOrOneInside(ss, es, n);
    OwnersCount(ss[n].threads, i);
  }

  /* ----- What a failed wait does ----- */

  // Event `k` is a failed wait of thread `i`, which before event `n` has only advanced since.
  ghost predicate FailedSince(es: seq<Event>, k: nat, n: nat, i: nat)
    requires n <= |es|
  {
    && k < n && es[k] == WaitFails(i)
    && forall j :: k < j < n && es[j].i == i ==> es[j].Advance?
  }

  ghost predicate OpenFailure(es: seq<Event>, n: nat, i: nat)
    requires n <= |es|
  {
    exists k: nat :: FailedSince(es, k, n, i)
  }

  // Event `m` posts at the end of an operation whose wait had failed.
  ghost predicate PostsAfterFailure(es: seq<Event>, m: nat)
    requires m < |es|
  {
    es[m].Post? && OpenFailure(es, m, es[m].i)
  }

  lemma OpenFailureStep(es: seq<Event>, n: nat, i: nat)
    requires n < |es|
    ensures OpenFailure(es, n + 1, i)
            <==> es[n] == WaitFails(i) || (OpenFailure(es, n, i) && (es[n].i == i ==> es[n].Advance?))
  {
    if OpenFailure(es, n + 1, i) {
      var k: nat :| FailedSince(es, k, n + 1, i);
      assert k < n ==> FailedSince(es, k, n, i);
    }
    if es[n] == WaitFails(i) {
      assert FailedSince(es, n, n + 1, i);
    } else if OpenFailure(es, n, i) && (es[n].i == i ==> es[n].Advance?) {
      var k: nat :| FailedSince(es, k, n, i);
      assert FailedSince(es, k, n + 1, i);
    }
  }

  // Inside without a permit are exactly the threads whose last wait failed.
  lemma {:induction false} BareIffFailed(ss: seq<State>, es: seq<Event>, n: nat, i: nat)
    requires Run(ss, es) && n <= |es| && i < |ss[n].threads|
    ensures Guarded(ss[n].threads[i].at) && !ss[n].threads[i].owns <==> OpenFailure(es, n, i)
  {
    if n > 0 {
      var s, e := ss[n - 1], es[n - 1];
      BareIffFailed(ss, es, n - 1, i);
      OpenFailureStep(es, n - 1, i);
      NextStaysGuarded(s.threads[e.i].op, s.threads[e.i].at);
    }
  }

  lemma StrayIffFailure(ss: seq<State>, es: seq<Event>, n: nat)
    requires Run(ss, es) && n < |es|
    ensures ss[n + 1].strays == ss[n].strays + if PostsAfterFailure(es, n) then 1 else 0
  {
    var s, e := ss[n], es[n];
    BareIffFailed(ss, es, n, e.i);
    assert Enabled(s, e) && ss[n + 1] == Do(s, e);
  }

  lemma {:induction false} StraysIffFailures(ss: seq<State>, es: seq<Event>, n: nat)
    requires Run(ss, es) && n <= |es|
    ensures ss[n].strays == 0 <==> forall m :: 0 <= m < n ==> !PostsAfterFailure(es, m)
  {
    if n > 0 {
      StraysIffFailures(ss, es, n - 1);
      StrayIffFailure(ss, es, n - 1);
    }
  }

  /**
   In any run, permits plus owners is one exactly as long as no operation whose
   sem_wait failed for another reason than interruption has reached its
   relconnection.
   */
  lemma OneExactlyWithoutFailedPosts(ss: seq<State>, es: seq<Event>, n: nat)
    requires Run(ss, es) && n <= |es|
    ensures ss[n].permits + Owners(ss[n].threads) == 1 <==> forall m :: 0 <= m < n ==> !PostsAfterFailure(es, m)
  {
    PermitsConserved(ss, es, n);
    StraysIffFailures(ss, es, n);
  }

  lemma Extend(ss: seq<State>, es: seq<Event>, e: Event) returns (ss1: seq<State>, es1: seq<Event>)
    requires Run(ss, es) && Enabled(ss[|es|], e)
    ensures es1 == es + [e] && ss1 == ss + [Do(ss[|es|], e)]
    ensures Run(ss1, es1)
  {
    es1, ss1 := es + [e], ss + [Do(ss[|es|], e)];
  }

  // One failed wait, whose remote call on the null connection returns, leaves two permits behind.
  lemma FailedWaitAddsPermit(idle: Thread) returns (ss: seq<State>, es: seq<Event>)
    requires idle == Thread(OneCall, Returned, false)
    ensures Run(ss, es) && ss[|es|] == State(2, [idle, idle], 1)
  {
    es := [];
    ss := [State(1, [idle, idle], 0)];
    ss, es := Extend(ss, es, Begin(0, OneCall));
    ss, es := Extend(ss, es, WaitFails(0));
    assert ss[|es|] == State(1, [Thread(OneCall, Start, false), idle], 0);
    ss, es := Extend(ss, es, Advance(0, Release));
    ss, es := Extend(ss, es, Post(0));
  }

  // Then two threads can own the connection at once.
  lemma FailedWaitAdmitsTwo(idle: Thread) returns (ss: seq<State>, es: seq<Event>)
    requires idle == Thread(OneCall, Returned, false)
    ensures Run(ss, es)
    ensures var s := ss[|es|];
            |s.threads| == 2 && s.threads[0].owns && s.threads[1].owns
            && Guarded(s.threads[0].at) && Guarded(s.threads[1].at)
  {
    var inside := Thread(OneCall, Start, true);
    ss, es := FailedWaitAddsPermit(idle);
    ss, es := Extend(ss, es, Begin(0, OneCall));
    ss, es := Extend(ss, es, Acquire(0));
    assert ss[|es|] == State(1, [inside, idle], 1);
    ss, es := Extend(ss, es, Begin(1, OneCall));
    ss, es := Extend(ss, es, Acquire(1));
    assert ss[|es|] == State(0, [inside, inside], 1);
  }

  /* ----- Progress ----- */

  // How far an operation is from its return.
  function Distance(at: Label): nat {
    match at
    case Entry => 8
    case Start => 7
    case Length => 6
    case Data => 5
    case EndCall => 4
    case Failed => 3
    case FailedEndCall => 2
    case Release => 1
    case FailedRelease => 1
    case Returned => 0
  }

  // A possible step that brings its operation nearer its return.
  predicate Advances(s: State, e: Event) {
    Enabled(s, e) && Distance(Do(s, e).threads[e.i].at) < Distance(s.threads[e.i].at)
  }

  lemma {:induction false} SomeOwner(ts: seq<Thread>) returns (i: nat)
    requires Owners(ts) > 0
    ensures i < |ts| && ts[i].owns
  {
    if ts[0].owns {
      i := 0;
    } else {
      i := SomeOwner(ts[1..]);
      i := i + 1;
    }
  }

  // From every label inside, some way on is nearer the return.
  lemma SomeWayOn(op: Op, at: Label) returns (to: Label)
    requires Guarded(at) && !InRelease(at)
    ensures to in Next(op, at) && Distance(to) < Distance(at)
  {
    match at {
      case Start => to := if op == OneCall then Release else Failed;
      case Length => to := Failed;
      case Data => to := if op == GetDir then Release else EndCall;
      case EndCall => to := Release;
      case Failed => to := if op == GetAttr then FailedEndCall else FailedRelease;
      case FailedEndCall => to := FailedRelease;
    }
  }

  /** While any operation is pending, some thread can step nearer its return, failures or not: no deadlock. */
  lemma SomeThreadCanMove(ss: seq<State>, es: seq<Event>, n: nat, pending: nat) returns (e: Event)
    requires Run(ss, es) && n < |ss|
    requires pending < |ss[n].threads| && ss[n].threads[pending].at != Returned
    ensures Advances(ss[n], e)
  {
    var s := ss[n];
    PermitsConserved(ss, es, n);
    var i := pending;
    if s.threads[pending].at == Entry {
      if s.permits > 0 {
        return Acquire(pending);
      }
      i := SomeOwner(s.threads);
    }
    var t := s.threads[i];
    if InRelease(t.at) {
      return Post(i);
    }
    var to := SomeWayOn(t.op, t.at);
    return Advance(i, to);
  }
}
