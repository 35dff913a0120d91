/**
 The file transfer pair (bulk_io.c): an XDR length word, then the file in
 chunks, and a receiver that copies whatever chunks arrive.
 */
module BulkTransfer {

  import opened Bytes

  const CHUNK: nat := 1024

  /* ----- The XDR word: section 4.1 of RFC 4506, four bytes, most significant first ----- */

  const WORD: nat := 4

  function XdrLong(v: int): (b: bytes)
    requires -0x8000_0000 <= v < 0x8000_0000
    ensures |b| == WORD
  {
    var n := if v >= 0 then v else v + 0x1_0000_0000;
    [(n / 256 / 256 / 256) as char, (n / 256 / 256 % 256) as char, (n / 256 % 256) as char, (n % 256) as char]
  }

  function XdrValue(b: bytes): int
    requires |b| == WORD
  {
    var n := ((b[0] as int * 256 + b[1] as int) * 256 + b[2] as int) * 256 + b[3] as int;
    if n < 0x8000_0000 then n else n - 0x1_0000_0000
  }

  lemma XdrRoundTrip(v: int)
    requires -0x8000_0000 <= v < 0x8000_0000
    ensures XdrValue(XdrLong(v)) == v
  {
    var n := if v >= 0 then v else v + 0x1_0000_0000;
    var q := n / 256;
    assert n == q * 256 + n % 256 && q == q / 256 * 256 + q % 256;
  }

  /** The word on the wire is the two's complement number, most significant byte first. */
  lemma XdrLayout(v: int)
    requires -0x8000_0000 <= v < 0x8000_0000
    ensures var b := XdrLong(v);
            0x100_0000 * b[0] as int + 0x1_0000 * b[1] as int + 0x100 * b[2] as int + b[3] as int
            == if v < 0 then v + 0x1_0000_0000 else v
    ensures XdrLong(1024) == ['\0', '\0', 4 as char, '\0']
  {
    var n := if v >= 0 then v else v + 0x1_0000_0000;
    var q := n / 256;
    assert n == q * 256 + n % 256 && q == q / 256 * 256 + q % 256;
  }

  /* ----- The two ends of a call, and files ----- */

  /**
   A `FILE*`: `content` is what reading delivers from here, or what writing has
   added. `failed` is its error flag, which may be set from the start.
   */
  class File {
    var content: bytes
    var failed: bool
    var shortWrites: nat

    constructor (content: bytes)
      ensures this.content == content && !failed && shortWrites == 0
    {
      this.content, failed, shortWrites := content, false, 0;
    }

    // `fread`: any number of bytes up to a chunk. It may set the error flag when it stops short,
    // and does so when it delivers nothing before the end of the file.
    method Read(buffer: array<byte>) returns (n: nat)
      requires buffer.Length == CHUNK
      modifies this`content, this`failed, buffer
      ensures n <= CHUNK && old(content) == buffer[..n] + content
      ensures old(failed) ==> failed
      ensures failed && !old(failed) ==> n < CHUNK && content != []
      ensures n == 0 && old(content) != [] ==> failed
    {
      n :| 0 <= n <= CHUNK && n <= |content|;
      forall k | 0 <= k < n {
        buffer[k] := content[k];
      }
      assert buffer[..n] == content[..n];
      content := content[n..];
      var error: bool := *;
      if n < CHUNK && content != [] && (n == 0 || error) {
        failed := true;
      }
    }

    // `fwrite`: less than all of `data` on an error.
    method Write(data: bytes) returns (n: nat)
      modifies this
      ensures n <= |data| && content == old(content) + data[..n]
      ensures shortWrites == old(shortWrites) + if n < |data| then 1 else 0
      ensures failed <==> old(failed) || n < |data|
    {
      n :| 0 <= n <= |data|;
      content := content + data[..n];
      failed := failed || n < |data|;
      shortWrites := shortWrites + if n < |data| then 1 else 0;
    }
  }

  /** The sending end: the bytes the call has accepted so far. */
  class OutCall {
    var accepted: bytes
    var failed: bool

    constructor ()
      ensures accepted == [] && !failed
    {
      accepted, failed := [], false;
    }

    // `rx_Write`: accepts less than all of `data` on an error, and nothing after one.
    method Write(data: bytes) returns (n: nat)
      modifies this
      ensures n <= |data| && accepted == old(accepted) + data[..n]
      ensures failed <==> old(failed) || n < |data|
      ensures old(failed) ==> n == 0
    {
      n := 0;
      if !failed {
        n :| 0 <= n <= |data|;
      }
      accepted := accepted + data[..n];
      failed := failed || n < |data|;
    }
  }

  /**
   The receiving end: the bytes still to come, and whether they are all the
   sender wrote. A stream that broke off early ends in an error, not in a clean
   end.
   */
  class InCall {
    const whole: bool
    var coming: bytes
    var failed: bool

    constructor (coming: bytes, whole: bool)
      ensures this.coming == coming && this.whole == whole && !failed
    {
      this.coming, this.whole, failed := coming, whole, false;
    }

    // `rx_Read`: any number of bytes up to a chunk; none at the end of the stream or on an error.
    method Read(buffer: array<byte>) returns (n: nat)
      requires buffer.Length == CHUNK
      modifies this, buffer
      ensures n <= CHUNK && old(coming) == buffer[..n] + coming
      ensures failed <==> old(failed) || (n == 0 && (coming != [] || !whole))
      ensures old(failed) ==> n == 0
    {
      n := 0;
      if !failed {
        n :| 0 <= n <= CHUNK && n <= |coming|;
      }
      forall k | 0 <= k < n {
        buffer[k] := coming[k];
      }
      assert buffer[..n] == coming[..n];
      coming := coming[n..];
      failed := failed || (n == 0 && (coming != [] || !whole));
    }

    // Decoding an XDR word: takes four bytes, or fails with too few to come or on an error.
    method ReadWord() returns (ok: bool, word: bytes)
      modifies this
      ensures ok ==> |word| == WORD && old(coming) == word + coming && !failed
      ensures !ok ==> coming == old(coming) && (failed || |coming| < WORD)
    {
      ok, word := false, [];
      if |coming| >= WORD && !failed {
        ok := *;
        if ok {
          word, coming := coming[..WORD], coming[WORD..];
        } else {
          failed := true;
        }
      }
    }
  }

  // Part of the next chunk still makes a prefix of the whole.
  lemma PrefixOfWhole(done: bytes, chunk: bytes, rest: bytes, whole: bytes, n: nat)
    requires done + (chunk + rest) == whole && n <= |chunk|
    ensures done + chunk[..n] <= whole
    ensures done + chunk + rest == whole
  {
    assert done + chunk + rest == whole;
    assert whole == (done + chunk[..n]) + (chunk[n..] + rest);
  }

  /* ----- The sender ----- */

  const LENGTH_WORD: bytes := XdrLong(1024)

  /**
   Writes the word 1024 and then the file. What the call accepts is always a
   prefix of the two; the result is zero exactly when neither the call nor the
   file shows an error, and then it accepted all of it.
   */
  method SendFile(fd: File, call: OutCall) returns (error: int)
    modifies fd, call
    ensures error == if fd.failed || call.failed then 1 else 0
    ensures old(call.accepted) <= call.accepted <= old(call.accepted) + (LENGTH_WORD + old(fd.content))
    ensures error == 0 ==>
              call.accepted == old(call.accepted) + (['\0', '\0', 4 as char, '\0'] + old(fd.content))
  {
    var buffer := new byte[CHUNK](_ => NUL);
    ghost var whole := call.accepted + (LENGTH_WORD + fd.content);
    PrefixOfWhole(call.accepted, LENGTH_WORD, fd.content, whole, WORD);
    XdrLayout(1024);
    error := 0;
    var put := call.Write(LENGTH_WORD);
    PrefixOfWhole(old(call.accepted), LENGTH_WORD, fd.content, whole, put);
    if put != WORD {
      error := 1;
    }
    while error == 0
      invariant error == 0 || error == 1
      invariant if error == 0 then !call.failed && call.accepted + fd.content == whole else call.failed
      invariant old(call.accepted) <= call.accepted <= whole
      decreases if error == 0 then |fd.content| + 1 else 0
    {
      var nbytes := fd.Read(buffer);
      if nbytes <= 0 {
        if fd.failed {
          error := 1;
        }
        break;
      }
      var chunk := buffer[..nbytes];
      ghost var done := call.accepted;
      var written := call.Write(chunk);
      PrefixOfWhole(done, chunk, fd.content, whole, written);
      if written != nbytes {
        error := 1;
        break;
      }
      assert chunk[..written] == chunk;
    }
  }

  /* ----- The receiver ----- */

  // What follows the word.
  function Payload(coming: bytes): bytes {
    if |coming| < WORD then [] else coming[WORD..]
  }

  /**
   Reads the word and then copies what arrives. The word never reaches the
   file. The result is zero exactly when a word arrived, the call shows no error
   and no write fell short; then the whole stream arrived and all of it after the
   word was copied.
   */
  method ReceiveFile(fd: File, call: InCall) returns (error: int)
    modifies fd, call
    ensures error == if call.failed || fd.shortWrites > old(fd.shortWrites) || |old(call.coming)| < 4 then 1 else 0
    ensures old(fd.content) <= fd.content <= old(fd.content) + Payload(old(call.coming))
    ensures error == 0 ==> call.whole && fd.content == old(fd.content) + old(call.coming)[4..]
  {
    var buffer := new byte[CHUNK](_ => NUL);
    ghost var whole := fd.content + Payload(call.coming);
    var ok, word := call.ReadWord();
    if !ok { return 1; }
    var length := XdrValue(word);
    assert call.coming == Payload(old(call.coming));
    error := 0;
    while error == 0
      invariant error == 0 && !call.failed && fd.shortWrites == old(fd.shortWrites)
      invariant fd.content + call.coming == whole && old(fd.content) <= fd.content
      decreases |call.coming|
    {
      var nbytes := call.Read(buffer);
      if nbytes <= 0 {
        if call.failed {
          error := 1;
        }
        break;
      }
      var chunk := buffer[..nbytes];
      ghost var done := fd.content;
      var written := fd.Write(chunk);
      PrefixOfWhole(done, chunk, call.coming, whole, written);
      if written != nbytes {
        error := 1;
        break;
      }
      assert chunk[..written] == chunk;
    }
  }

  /* ----- Both ends of one call ----- */

  /**
   However the two ends cut the stream into chunks and whichever calls fail,
   the receiver has added a prefix of the sender's file, and all of it when both
   return zero. The word it read is then the one that was sent.
   */
  method Transfer(source: File, target: File) returns (sendError: int, receiveError: int, arriving: bytes)
    requires source != target
    modifies source, target
    ensures old(target.content) <= target.content <= old(target.content) + old(source.content)
    ensures sendError == 0 && receiveError == 0 ==>
              && target.content == old(target.content) + old(source.content)
              && |arriving| >= WORD && XdrValue(arriving[..WORD]) == 1024
  {
    var sender := new OutCall();
    sendError := SendFile(source, sender);
    var delivered :| 0 <= delivered <= |sender.accepted|;
    arriving := sender.accepted[..delivered];
    var receiver := new InCall(arriving, delivered == |sender.accepted|);
    receiveError := ReceiveFile(target, receiver);
    PayloadGrows(arriving, old(source.content));
    XdrRoundTrip(1024);
  }

  lemma PayloadGrows(arriving: bytes, file: bytes)
    requires arriving <= LENGTH_WORD + file
    ensures Payload(arriving) <= file
    ensures arriving == LENGTH_WORD + file ==> Payload(arriving) == file && arriving[..WORD] == LENGTH_WORD
  {
    assert (LENGTH_WORD + file)[WORD..] == file;
    if WORD <= |arriving| {
      assert arriving[WORD..] == (LENGTH_WORD + file)[WORD..|arriving|];
    }
  }
}
