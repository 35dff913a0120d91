/**
 The echo client (hip_example.c): it buffers its input, then alternates partial
 sends and partial receives over a stream whose far end echoes what it gets.
 */
module EchoClient {

  const IP_MAXPACKET: nat := 65535
  const ZERO := '\0'

  /**
   A connected stream socket whose peer echoes: bytes sent come back in order.
   It remembers how many sends transferred nothing and how many calls failed.
   */
  class EchoSocket {
    var sent: seq<char>
    var received: seq<char>
    var emptySends: nat
    var failedSends: nat
    var failedRecvs: nat

    ghost predicate Valid()
      reads this
    {
      received <= sent
    }

    constructor ()
      ensures Valid() && sent == [] && received == [] && emptySends == failedSends == failedRecvs == 0
    {
      sent, received, emptySends, failedSends, failedRecvs := [], [], 0, 0, 0;
    }

    // Takes any number of the first bytes of `data`, perhaps none; negative on error.
    method Send(data: seq<char>) returns (n: int)
      requires Valid()
      modifies this
      ensures Valid() && n <= |data|
      ensures received == old(received) && failedRecvs == old(failedRecvs)
      ensures sent == if n < 0 then old(sent) else old(sent) + data[..n]
      ensures emptySends == old(emptySends) + if n == 0 then 1 else 0
      ensures failedSends == old(failedSends) + if n < 0 then 1 else 0
    {
      n :| -1 <= n <= |data|;
      if n >= 0 {
        sent := sent + data[..n];
      }
      emptySends := emptySends + if n == 0 then 1 else 0;
      failedSends := failedSends + if n < 0 then 1 else 0;
    }

    // Whether bytes sent have yet to come back; a blocking `recv` waits for ever otherwise.
    function Owed(): bool
      reads this
    {
      |received| < |sent|
    }

    // Stores between one and `limit` of the owed bytes at `buf[at..]`; zero or less on error or hang-up.
    method Recv(buf: array<char>, at: nat, limit: nat) returns (n: int)
      requires Valid() && Owed() && 0 < limit && at + limit <= buf.Length
      modifies this, buf
      ensures Valid() && n <= limit
      ensures sent == old(sent) && emptySends == old(emptySends) && failedSends == old(failedSends)
      ensures failedRecvs == old(failedRecvs) + if n <= 0 then 1 else 0
      ensures n <= 0 ==> received == old(received) && buf[..] == old(buf[..])
      ensures n > 0 ==> |received| == |old(received)| + n && old(received) <= received
      ensures n > 0 ==> buf[..at + n] == old(buf[..at]) + received[|old(received)|..]
      ensures n > 0 ==> buf[at + n..] == old(buf[..])[at + n..]
    {
      n :| -1 <= n <= limit && n <= |sent| - |received|;
      failedRecvs := failedRecvs + if n <= 0 then 1 else 0;
      if n > 0 {
        var chunk := sent[|received|..|received| + n];
        forall k | 0 <= k < n {
          buf[at + k] := chunk[k];
        }
        received := received + chunk;
      }
    }
  }

  /* ----- Input buffering ----- */

  function Zeros(n: nat): seq<char> {
    seq(n, _ => ZERO)
  }

  /**
   Reads characters into the zeroed buffer until the input ends or the buffer
   is full; the character that finds it full is read and dropped.
   */
  method ReadInput(stdin: seq<char>, data: array<char>) returns (datalen: nat, consumed: nat)
    requires data.Length == IP_MAXPACKET && data[..] == Zeros(IP_MAXPACKET)
    modifies data
    ensures datalen == if |stdin| < 65535 then |stdin| else 65535
    ensures consumed == if |stdin| > 65535 then 65536 else datalen
    ensures data[..datalen] == stdin[..datalen]
    ensures forall k :: datalen <= k < 65535 ==> data[k] == '\0'
  {
    datalen, consumed := 0, 0;
    assert forall k :: 0 <= k < IP_MAXPACKET ==> data[k] == data[..][k];
    while true
      invariant datalen == consumed <= |stdin| && datalen <= IP_MAXPACKET
      invariant data[..datalen] == stdin[..datalen]
      invariant forall k :: datalen <= k < IP_MAXPACKET ==> data[k] == ZERO
      decreases |stdin| - consumed
    {
      if consumed == |stdin| { break; }
      var ch := stdin[consumed];
      consumed := consumed + 1;
      if datalen >= IP_MAXPACKET { break; }
      data[datalen] := ch;
      datalen := datalen + 1;
    }
  }

  lemma TakeMore(all: seq<char>, done: nat, end: nat, n: nat)
    requires done + n <= end <= |all|
    ensures all[..done] + all[done..end][..n] == all[..done + n]
  {
  }

  // What has been received, a prefix of what was sent, is a prefix of the input.
  lemma PrefixOf(received: seq<char>, sent: seq<char>, all: seq<char>, n: nat)
    requires n <= |all| && sent == all[..n] && received <= sent
    ensures received == all[..|received|]
  {
  }

  // The receive buffer holds what was received and zeros after it.
  ghost predicate Holds(buffer: seq<char>, received: seq<char>) {
    |received| <= |buffer| && buffer == received + Zeros(|buffer| - |received|)
  }

  lemma HoldsMore(before: seq<char>, after: seq<char>, got: seq<char>, received: seq<char>)
    requires Holds(before, got) && |after| == |before| && got <= received && |received| <= |after|
    requires after[..|received|] == before[..|got|] + received[|got|..]
    requires after[|received|..] == before[|received|..]
    ensures Holds(after, received)
  {
    assert after == after[..|received|] + after[|received|..];
    assert before[..|got|] == got && got + received[|got|..] == received;
    assert before[|received|..] == Zeros(|before| - |received|);
  }

  // One receive: what arrives is stored after what was there.
  method ReceiveMore(socket: EchoSocket, receiveddata: array<char>, datareceived: nat, datalen: nat)
    returns (recvnum: int)
    requires socket.Valid() && socket.Owed() && |socket.received| == datareceived < datalen <= receiveddata.Length
    requires Holds(receiveddata[..], socket.received)
    modifies socket, receiveddata
    ensures socket.Valid() && recvnum <= datalen - datareceived
    ensures socket.sent == old(socket.sent) && Holds(receiveddata[..], socket.received)
    ensures |socket.received| == datareceived + if recvnum > 0 then recvnum else 0
    ensures socket.emptySends == old(socket.emptySends) && socket.failedSends == old(socket.failedSends)
    ensures socket.failedRecvs == old(socket.failedRecvs) + if recvnum <= 0 then 1 else 0
  {
    ghost var got := socket.received;
    ghost var buffer := receiveddata[..];
    recvnum := socket.Recv(receiveddata, datareceived, datalen - datareceived);
    if recvnum > 0 {
      HoldsMore(buffer, receiveddata[..], got, socket.received);
    }
  }

  /* ----- The send and receive loop ----- */

  datatype Result = Done | SendFailed | RecvFailed | Blocked | Mismatch

  /**
   The loop. The bytes received are at all times a prefix of the bytes sent, and
   these of the input; the loop gives up only when a socket call failed; and it
   waits for bytes nobody owes it only if some send transferred nothing.
   */
  method Exchange(socket: EchoSocket, data: array<char>, datalen: nat, receiveddata: array<char>)
    returns (r: Result, datasent: nat, datareceived: nat)
    requires socket.Valid() && socket.sent == []
    requires data != receiveddata && data.Length == receiveddata.Length == IP_MAXPACKET && datalen <= IP_MAXPACKET
    requires receiveddata[..] == Zeros(IP_MAXPACKET)
    modifies socket, receiveddata
    ensures socket.Valid() && datareceived <= datasent <= datalen
    ensures socket.sent == data[..datasent] && |socket.received| == datareceived
    ensures Holds(receiveddata[..], socket.received)
    ensures r == Done <==> datareceived == datalen
    ensures r == SendFailed <==> socket.failedSends > old(socket.failedSends)
    ensures r == RecvFailed <==> socket.failedRecvs > old(socket.failedRecvs)
    ensures r == Blocked ==> socket.emptySends > old(socket.emptySends) && datasent == datareceived < datalen
    ensures r != Mismatch
  {
    datasent, datareceived := 0, 0;
    assert data[..0] == [] && socket.received == [];
    assert Holds(receiveddata[..], []);
    while datasent < datalen || datareceived < datalen
      invariant socket.Valid() && datareceived <= datasent <= datalen
      invariant socket.sent == data[..datasent] && |socket.received| == datareceived
      invariant Holds(receiveddata[..], socket.received)
      invariant socket.emptySends >= old(socket.emptySends)
      invariant socket.failedSends == old(socket.failedSends) && socket.failedRecvs == old(socket.failedRecvs)
      decreases datalen - datareceived
    {
      if datasent < datalen {
        var sendnum := socket.Send(data[datasent..datalen]);
        if sendnum < 0 {
          return SendFailed, datasent, datareceived;
        }
        TakeMore(data[..], datasent, datalen, sendnum);
        datasent := datasent + sendnum;
      }
      if datareceived < datalen {
        if !socket.Owed() {
          return Blocked, datasent, datareceived;
        }
        var recvnum := ReceiveMore(socket, receiveddata, datareceived, datalen);
        if recvnum <= 0 {
          return RecvFailed, datasent, datareceived;
        }
        datareceived := datareceived + recvnum;
      }
    }
    return Done, datasent, datareceived;
  }

  /**
   The loop and the comparison of the whole buffers after it, which never
   fails: when no socket call failed and every send transferred something, the
   transfer succeeds with both buffers equal.
   */
  method Transfer(socket: EchoSocket, data: array<char>, datalen: nat, receiveddata: array<char>)
    returns (r: Result)
    requires socket.Valid() && socket.sent == []
    requires data != receiveddata && data.Length == receiveddata.Length == IP_MAXPACKET && datalen <= IP_MAXPACKET
    requires data[datalen..] == Zeros(IP_MAXPACKET - datalen) && receiveddata[..] == Zeros(IP_MAXPACKET)
    modifies socket, receiveddata
    ensures r != Mismatch
    ensures socket.received <= data[..datalen] && Holds(receiveddata[..], socket.received)
    ensures r == Done ==> socket.received == data[..datalen] && receiveddata[..] == data[..]
    ensures (&& socket.failedSends == old(socket.failedSends)
             && socket.failedRecvs == old(socket.failedRecvs)
             && socket.emptySends == old(socket.emptySends)) ==> r == Done
  {
    var datasent, datareceived;
    r, datasent, datareceived := Exchange(socket, data, datalen, receiveddata);
    PrefixOf(socket.received, socket.sent, data[..], datasent);
    if r == Done {
      assert data[..] == data[..datalen] + data[datalen..];
      if data[..] != receiveddata[..] {
        r := Mismatch;
      }
    }
  }
}
