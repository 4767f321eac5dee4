/**
 * The body copy loops, written identically in v3/transfer.c and
 * transferThing.c: the Linux sendfile loop, the buffered read/send fallback
 * and the receiver's recv/write loop.
 *
 * Each loop is a recursive function over the script of kernel answers (the
 * specification) and a method with the source's while loop, proved equal to
 * it. The file being sent is `content`; st_size is |content|.
 */
module BodyCopy {
  import opened IoScript
  import opened CStrings

  /** BUFFER_SIZE: 512 KiB. */
  const BUFFER_SIZE: nat := 1024 * 512

  // ------------------------------------------------------------------
  // Linux: sendfile from the current offset for whatever is left of the file,
  // until the offset reaches st_size or a call returns a count that is not
  // positive.

  datatype SendfileRun = SendfileRun(offset: nat, stop: Stop)

  /** The sendfile loop from `offset`; the kernel advances the offset by each positive answer. */
  function SendfileLoop(size: nat, offset: nat, answers: seq<int>): (r: SendfileRun)
    requires offset <= size
    ensures offset <= r.offset <= size
    ensures r.stop == Done <==> r.offset == size
    decreases |answers|
  {
    if offset >= size then SendfileRun(offset, Done)
    else if answers == [] then SendfileRun(offset, OffScript)
    else if answers[0] <= 0 then SendfileRun(offset, Failed)
    else if answers[0] > size - offset then SendfileRun(offset, OffScript)
    else SendfileLoop(size, offset + answers[0], answers[1..])
  }

  method SendfileBody(content: seq<byte>, answers: seq<int>) returns (offset: nat, wire: seq<byte>, stop: Stop)
    ensures SendfileRun(offset, stop) == SendfileLoop(|content|, 0, answers)
    ensures wire == content[..offset]
  {
    offset, wire, stop := 0, [], Done;
    var i := 0;
    while offset < |content|
      invariant 0 <= i <= |answers| && offset <= |content|
      invariant wire == content[..offset]
      invariant SendfileLoop(|content|, 0, answers) == SendfileLoop(|content|, offset, answers[i..])
      decreases |answers| - i
    {
      if i == |answers| {
        stop := OffScript;
        break;
      }
      var sent := answers[i];
      if sent <= 0 {
        stop := Failed;
        break;
      }
      if sent > |content| - offset {
        // sendfile never transfers more than the count it is given
        stop := OffScript;
        break;
      }
      wire := wire + content[offset..offset + sent];
      offset := offset + sent;
      i := i + 1;
    }
  }

  lemma {:induction false} SumOfPositives(s: seq<int>)
    requires AllPositive(s)
    ensures s != [] ==> Sum(s) >= s[0]
    ensures Sum(s) >= 0
  {
    if s != [] {
      SumOfPositives(s[1..]);
    }
  }

  /**
   * The sendfile loop reaches the end of the file exactly when the answers
   * start with positive counts that add up to what was left to send.
   */
  lemma {:induction false} SendfileDoneIff(size: nat, offset: nat, answers: seq<int>)
    requires offset <= size
    ensures SendfileLoop(size, offset, answers).stop == Done <==>
      exists k :: 0 <= k <= |answers| && AllPositive(answers[..k]) && offset + Sum(answers[..k]) == size
    decreases |answers|
  {
    var r := SendfileLoop(size, offset, answers);
    if offset == size {
      assert answers[..0] == [];
    } else if answers == [] || answers[0] <= 0 || answers[0] > size - offset {
      forall k | 0 <= k <= |answers| && AllPositive(answers[..k])
        ensures offset + Sum(answers[..k]) != size
      {
        if k == 0 {
          assert answers[..k] == [];
        } else {
          assert answers[..k][0] == answers[0];
          SumOfPositives(answers[..k]);
        }
      }
    } else {
      var tail := answers[1..];
      SendfileDoneIff(size, offset + answers[0], tail);
      if r.stop == Done {
        var k' :| 0 <= k' <= |tail| && AllPositive(tail[..k']) && offset + answers[0] + Sum(tail[..k']) == size;
        assert answers[..k' + 1] == [answers[0]] + tail[..k'];
        assert answers[..k' + 1][1..] == tail[..k'];
      }
      if exists k :: 0 <= k <= |answers| && AllPositive(answers[..k]) && offset + Sum(answers[..k]) == size {
        var k :| 0 <= k <= |answers| && AllPositive(answers[..k]) && offset + Sum(answers[..k]) == size;
        assert k != 0 by { assert answers[..0] == []; }
        assert answers[..k][1..] == tail[..k - 1];
        assert AllPositive(tail[..k - 1]);
      }
    }
  }

  // ------------------------------------------------------------------
  // Fallback (no sendfile): read up to BUFFER_SIZE bytes of the file into a
  // buffer, then send that buffer from its start until all of it went out or
  // a send returned a negative count; stop at the first read that is not
  // positive.

  /**
   * One run of the inner loop: how much of the chunk went out, the index of
   * the first send answer it did not use, and whether the script ran out.
   */
  datatype ChunkRun = ChunkRun(sent: nat, next: nat, offScript: bool)

  /** The inner loop, sending a chunk of `len` bytes of which `total` have gone out, from send answer j on. */
  function SendChunk(len: nat, total: nat, sends: seq<int>, j: nat): (r: ChunkRun)
    requires total <= len && j <= |sends|
    ensures total <= r.sent <= len
    ensures j <= r.next <= |sends|
    decreases |sends| - j
  {
    if total >= len then ChunkRun(total, j, false)
    else if j == |sends| then ChunkRun(total, j, true)
    else if sends[j] < 0 then ChunkRun(total, j + 1, false)
    else if sends[j] > len - total then ChunkRun(total, j, true)
    else SendChunk(len, total + sends[j], sends, j + 1)
  }

  datatype FallbackRun = FallbackRun(wire: seq<byte>, pos: nat, stop: Stop)

  /**
   * The outer loop from file position `pos`, read answer i and send answer j:
   * each chunk read is sent from its start until done or a send fails.
   */
  function FallbackLoop(content: seq<byte>, pos: nat, readCounts: seq<int>, i: nat, sends: seq<int>, j: nat): (r: FallbackRun)
    requires pos <= |content| && i <= |readCounts| && j <= |sends|
    ensures pos <= r.pos <= |content|
    ensures r.stop == Done ==> r.pos == |content|
    decreases |readCounts| - i
  {
    if i == |readCounts| then FallbackRun([], pos, OffScript)
    else if readCounts[i] < 0 then FallbackRun([], pos, Failed)
    else if readCounts[i] == 0 then
      // read returns 0 only at the end of a regular file
      FallbackRun([], pos, if pos == |content| then Done else OffScript)
    else if readCounts[i] > Min(BUFFER_SIZE, |content| - pos) then FallbackRun([], pos, OffScript)
    else
      var n := readCounts[i];
      var c := SendChunk(n, 0, sends, j);
      var out := content[pos..pos + c.sent];
      if c.offScript then FallbackRun(out, pos + n, OffScript)
      else AfterWire(out, FallbackLoop(content, pos + n, readCounts, i + 1, sends, c.next))
  }

  function AfterWire(w: seq<byte>, r: FallbackRun): FallbackRun
  {
    FallbackRun(w + r.wire, r.pos, r.stop)
  }

  /**
   * The inner loop: sends buffer[totalSent..bytes] until the whole chunk is
   * out or a send fails; `out` is what reached the connection, in order.
   */
  method SendFromBuffer(buffer: array<byte>, bytes: nat, sends: seq<int>, j0: nat)
    returns (out: seq<byte>, j: nat, offScript: bool)
    requires bytes <= buffer.Length && j0 <= |sends|
    ensures SendChunk(bytes, 0, sends, j0) == ChunkRun(|out|, j, offScript)
    ensures out == buffer[..|out|]
  {
    var totalSent := 0;
    out, j, offScript := [], j0, false;
    while totalSent < bytes
      invariant 0 <= totalSent <= bytes && j0 <= j <= |sends|
      invariant out == buffer[..totalSent]
      invariant SendChunk(bytes, 0, sends, j0) == SendChunk(bytes, totalSent, sends, j)
      decreases |sends| - j
    {
      if j == |sends| {
        offScript := true;
        break;
      }
      var sent := sends[j];
      if sent > bytes - totalSent {
        // send never reports more than the length it is given
        offScript := true;
        break;
      }
      j := j + 1;
      if sent < 0 {
        break;
      }
      out := out + buffer[totalSent..totalSent + sent];
      totalSent := totalSent + sent;
    }
  }

  /** One turn of the outer loop: the chunk at read answer i went out as `out`, using send answers j to next. */
  lemma FallbackStep(content: seq<byte>, pos: nat, readCounts: seq<int>, i: nat, sends: seq<int>, j: nat,
                     wire: seq<byte>, out: seq<byte>, next: nat, offScript: bool)
    requires pos <= |content| && i < |readCounts| && j <= |sends|
    requires 0 < readCounts[i] <= Min(BUFFER_SIZE, |content| - pos)
    requires var c := SendChunk(readCounts[i], 0, sends, j);
      c == ChunkRun(|out|, next, offScript) && out == content[pos..pos + c.sent]
    ensures AfterWire(wire, FallbackLoop(content, pos, readCounts, i, sends, j))
         == if offScript then FallbackRun(wire + out, pos + readCounts[i], OffScript)
            else AfterWire(wire + out, FallbackLoop(content, pos + readCounts[i], readCounts, i + 1, sends, next))
  {

  }

  /** How the outer loop ends when read answer i is not a chunk to send. */
  function EndStop(content: seq<byte>, pos: nat, readCounts: seq<int>, i: nat): Stop
    requires i <= |readCounts|
  {
    if i == |readCounts| then OffScript
    else if readCounts[i] < 0 then Failed
    else if readCounts[i] == 0 && pos == |content| then Done
    else OffScript
  }

  lemma FallbackEnds(content: seq<byte>, pos: nat, readCounts: seq<int>, i: nat, sends: seq<int>, j: nat, wire: seq<byte>)
    requires pos <= |content| && i <= |readCounts| && j <= |sends|
    requires i == |readCounts| || readCounts[i] <= 0 || readCounts[i] > Min(BUFFER_SIZE, |content| - pos)
    ensures AfterWire(wire, FallbackLoop(content, pos, readCounts, i, sends, j))
         == FallbackRun(wire, pos, EndStop(content, pos, readCounts, i))
  {

  }

  /** One turn of the outer loop: the chunk read at `pos` is loaded into the buffer and sent from its start. */
  method SendRead(buffer: array<byte>, content: seq<byte>, pos: nat, bytes: nat, sends: seq<int>, j0: nat)
    returns (out: seq<byte>, j: nat, offScript: bool)
    requires buffer.Length == BUFFER_SIZE && 0 < bytes <= Min(BUFFER_SIZE, |content| - pos) && j0 <= |sends|
    modifies buffer
    ensures var c := SendChunk(bytes, 0, sends, j0);
      c == ChunkRun(|out|, j, offScript) && out == content[pos..pos + c.sent]
  {
    Load(buffer, content[pos..pos + bytes]);
    out, j, offScript := SendFromBuffer(buffer, bytes, sends, j0);
    assert buffer[..|out|] == buffer[..bytes][..|out|];
  }

  method FallbackBody(content: seq<byte>, readCounts: seq<int>, sends: seq<int>)
    returns (wire: seq<byte>, pos: nat, stop: Stop)
    ensures FallbackRun(wire, pos, stop) == FallbackLoop(content, 0, readCounts, 0, sends, 0)
  {
    var buffer := new byte[BUFFER_SIZE];
    wire, pos, stop := [], 0, Done;
    var i, j := 0, 0;
    while true
      invariant 0 <= i <= |readCounts| && 0 <= j <= |sends| && pos <= |content|
      invariant FallbackLoop(content, 0, readCounts, 0, sends, 0)
             == AfterWire(wire, FallbackLoop(content, pos, readCounts, i, sends, j))
      decreases |readCounts| - i
    {
      if i == |readCounts| || readCounts[i] <= 0 || readCounts[i] > Min(BUFFER_SIZE, |content| - pos) {
        // a read that is not positive ends the loop; a script that ends, or a read
        // larger than asked for or than the file still holds, leaves the model
        FallbackEnds(content, pos, readCounts, i, sends, j, wire);
        stop := EndStop(content, pos, readCounts, i);
        break;
      }
      var bytes := readCounts[i];
      var out, j', offScript := SendRead(buffer, content, pos, bytes, sends, j);
      FallbackStep(content, pos, readCounts, i, sends, j, wire, out, j', offScript);
      wire := wire + out;
      i, j, pos := i + 1, j', pos + bytes;
      if offScript {
        stop := OffScript;
        break;
      }
    }
  }

  /** A send that keeps answering 0 never finishes the chunk: the inner loop exhausts any script. */
  lemma {:induction false} ZeroSendsNeverFinish(len: nat, total: nat, sends: seq<int>, j: nat)
    requires total < len && j <= |sends|
    requires forall k :: j <= k < |sends| ==> sends[k] == 0
    ensures SendChunk(len, total, sends, j) == ChunkRun(total, |sends|, true)
    decreases |sends| - j
  {
    if j < |sends| {
      ZeroSendsNeverFinish(len, total, sends, j + 1);
    }
  }

  /** With no failing send, a chunk that does not run out of script goes out whole. */
  lemma {:induction false} ChunkSentWhole(len: nat, total: nat, sends: seq<int>, j: nat)
    requires total <= len && j <= |sends|
    requires forall k :: 0 <= k < |sends| ==> sends[k] >= 0
    ensures !SendChunk(len, total, sends, j).offScript ==> SendChunk(len, total, sends, j).sent == len
    decreases |sends| - j
  {
    if total < len && j < |sends| && sends[j] <= len - total {
      ChunkSentWhole(len, total + sends[j], sends, j + 1);
    }
  }

  /**
   * With no failing send, everything the fallback read went out, in order:
   * the wire is exactly the file between the start and end positions.
   */
  lemma {:induction false} FallbackInOrder(content: seq<byte>, pos: nat, readCounts: seq<int>, i: nat, sends: seq<int>, j: nat)
    requires pos <= |content| && i <= |readCounts| && j <= |sends|
    requires forall k :: 0 <= k < |sends| ==> sends[k] >= 0
    ensures var r := FallbackLoop(content, pos, readCounts, i, sends, j);
      r.stop != OffScript ==> r.wire == content[pos..r.pos]
    decreases |readCounts| - i
  {
    if i < |readCounts| && 0 < readCounts[i] <= Min(BUFFER_SIZE, |content| - pos) {
      var n := readCounts[i];
      var c := SendChunk(n, 0, sends, j);
      ChunkSentWhole(n, 0, sends, j);
      if !c.offScript {
        FallbackInOrder(content, pos + n, readCounts, i + 1, sends, c.next);
        var r := FallbackLoop(content, pos + n, readCounts, i + 1, sends, c.next);
        assert content[pos..pos + n] + content[pos + n..r.pos] == content[pos..r.pos];
      }
    }
  }

  /**
   * A failing send drops the rest of its chunk, yet the loop goes on reading
   * and sending: of a four-byte file read in two chunks, where the first
   * chunk's send fails, the peer receives only the last two bytes.
   */
  lemma FailedSendLeavesGap()
    ensures FallbackLoop([1, 2, 3, 4], 0, [2, 2, 0], 0, [-1, 2], 0) == FallbackRun([3, 4], 4, Done)
  {

  }

  /** An inner loop that ends short of the whole chunk stopped on a negative send, its last answer used. */
  lemma {:induction false} ShortChunkMeansFailedSend(len: nat, total: nat, sends: seq<int>, j: nat)
    requires total <= len && j <= |sends|
    ensures var c := SendChunk(len, total, sends, j);
      !c.offScript && c.sent < len ==> j < c.next && sends[c.next - 1] < 0
    decreases |sends| - j
  {
    if total < len && j < |sends| && 0 <= sends[j] <= len - total {
      ShortChunkMeansFailedSend(len, total + sends[j], sends, j + 1);
    }
  }

  /**
   * For every script: when a chunk does not go out whole, a send failed; the
   * part of the chunk sent before it is on the wire, the rest of the chunk is
   * dropped, and the outer loop goes on with the next read past the chunk.
   */
  lemma FailedSendDropsTail(content: seq<byte>, pos: nat, readCounts: seq<int>, i: nat, sends: seq<int>, j: nat)
    requires pos <= |content| && i < |readCounts| && j <= |sends|
    requires 0 < readCounts[i] <= Min(BUFFER_SIZE, |content| - pos)
    requires var c := SendChunk(readCounts[i], 0, sends, j); !c.offScript && c.sent < readCounts[i]
    ensures var c := SendChunk(readCounts[i], 0, sends, j);
      j < c.next && sends[c.next - 1] < 0
      && FallbackLoop(content, pos, readCounts, i, sends, j)
         == AfterWire(content[pos..pos + c.sent],
                      FallbackLoop(content, pos + readCounts[i], readCounts, i + 1, sends, c.next))
  {
    ShortChunkMeansFailedSend(readCounts[i], 0, sends, j);
  }

  /** Whatever the sends answer, the wire never carries more bytes than the loop read. */
  lemma {:induction false} FallbackWireBounded(content: seq<byte>, pos: nat, readCounts: seq<int>, i: nat, sends: seq<int>, j: nat)
    requires pos <= |content| && i <= |readCounts| && j <= |sends|
    ensures var r := FallbackLoop(content, pos, readCounts, i, sends, j);
      |r.wire| <= r.pos - pos
    decreases |readCounts| - i
  {
    if i < |readCounts| && 0 < readCounts[i] <= Min(BUFFER_SIZE, |content| - pos) {
      var c := SendChunk(readCounts[i], 0, sends, j);
      if !c.offScript {
        FallbackWireBounded(content, pos + readCounts[i], readCounts, i + 1, sends, c.next);
      }
    }
  }

  // ------------------------------------------------------------------
  // Build-time choice between the two sending loops

  datatype BodyScript = Linux(sendfile: seq<int>) | Fallback(readCounts: seq<int>, sends: seq<int>)

  /** The body bytes the sender puts on the connection. */
  function BodyWire(content: seq<byte>, script: BodyScript): seq<byte>
  {
    match script
    case Linux(answers) => content[..SendfileLoop(|content|, 0, answers).offset]
    case Fallback(readCounts, sends) => FallbackLoop(content, 0, readCounts, 0, sends, 0).wire
  }

  method SendBody(content: seq<byte>, script: BodyScript) returns (wire: seq<byte>)
    ensures wire == BodyWire(content, script)
  {
    match script
    case Linux(answers) =>
      var offset, stop;
      offset, wire, stop := SendfileBody(content, answers);
    case Fallback(readCounts, sends) =>
      var pos, stop;
      wire, pos, stop := FallbackBody(content, readCounts, sends);
  }

  /**
   * Either path delivers the whole file, byte for byte, when its loop ends
   * normally with no failing call (for sendfile, ending normally is reaching
   * the end of the file).
   */
  lemma BodyExact(content: seq<byte>, script: BodyScript)
    requires script.Linux? ==> SendfileLoop(|content|, 0, script.sendfile).stop == Done
    requires script.Fallback? ==>
      FallbackLoop(content, 0, script.readCounts, 0, script.sends, 0).stop == Done
      && forall j :: 0 <= j < |script.sends| ==> script.sends[j] >= 0
    ensures BodyWire(content, script) == content
  {
    if script.Fallback? {
      FallbackInOrder(content, 0, script.readCounts, 0, script.sends, 0);
    }
  }

  // ------------------------------------------------------------------
  // Receiver: until the announced size has been counted, recv up to a full
  // buffer, stop on a count that is not positive, otherwise write the bytes
  // to the new file and count them.

  datatype ReceiveRun = ReceiveRun(written: seq<byte>, received: int, stop: Stop)

  function ReceiveLoop(size: int, received: int, answers: seq<RecvAnswer>): (r: ReceiveRun)
    ensures r.received == received + |r.written|
    ensures r.stop == Done <==> r.received >= size
    ensures received < size ==> r.received < size + BUFFER_SIZE
    decreases |answers|
  {
    if received >= size then ReceiveRun([], received, Done)
    else if answers == [] then ReceiveRun([], received, OffScript)
    else if answers[0].RecvError? || |answers[0].bytes| == 0 then ReceiveRun([], received, Failed)
    else if |answers[0].bytes| > BUFFER_SIZE then ReceiveRun([], received, OffScript)
    else
      var b := answers[0].bytes;
      var r := ReceiveLoop(size, received + |b|, answers[1..]);
      ReceiveRun(b + r.written, r.received, r.stop)
  }

  function AfterWritten(w: seq<byte>, r: ReceiveRun): ReceiveRun
  {
    ReceiveRun(w + r.written, r.received, r.stop)
  }

  /** recv(sock, buffer, sizeof(buffer), 0): fills the front of the buffer, or returns -1. */
  method Recv(buffer: array<byte>, answer: RecvAnswer) returns (n: int)
    requires answer.Data? ==> |answer.bytes| <= buffer.Length
    modifies buffer
    ensures answer.RecvError? ==> n == -1 && buffer[..] == old(buffer[..])
    ensures answer.Data? ==> n == |answer.bytes| && buffer[..n] == answer.bytes
    ensures answer.Data? ==> buffer[n..] == old(buffer[n..])
  {
    if answer.RecvError? {
      n := -1;
    } else {
      Load(buffer, answer.bytes);
      n := |answer.bytes|;
    }
  }

  /** One turn of the receive loop: chunk i is written after what came before. */
  lemma ReceiveStep(size: int, received: int, answers: seq<RecvAnswer>, i: nat, written: seq<byte>)
    requires received < size && i < |answers|
    requires answers[i].Data? && 0 < |answers[i].bytes| <= BUFFER_SIZE
    ensures AfterWritten(written, ReceiveLoop(size, received, answers[i..]))
         == AfterWritten(written + answers[i].bytes,
                         ReceiveLoop(size, received + |answers[i].bytes|, answers[i + 1..]))
  {
    assert answers[i..][1..] == answers[i + 1..];
  }

  method ReceiveBody(size: int, answers: seq<RecvAnswer>) returns (written: seq<byte>, received: int, stop: Stop)
    ensures ReceiveRun(written, received, stop) == ReceiveLoop(size, 0, answers)
  {
    var buffer := new byte[BUFFER_SIZE];
    written, received, stop := [], 0, Done;
    var i := 0;
    while received < size
      invariant 0 <= i <= |answers|
      invariant received == |written|
      invariant ReceiveLoop(size, 0, answers) == AfterWritten(written, ReceiveLoop(size, received, answers[i..]))
      decreases |answers| - i
    {
      if i == |answers| {
        stop := OffScript;
        break;
      }
      var answer := answers[i];
      if answer.Data? && |answer.bytes| > BUFFER_SIZE {
        // recv never returns more than the buffer it is given
        stop := OffScript;
        break;
      }
      var bytes := Recv(buffer, answer);
      if bytes <= 0 {
        stop := Failed;
        break;
      }
      var chunk := buffer[..bytes];
      ReceiveStep(size, received, answers, i, written);
      written := written + chunk;
      received := received + bytes;
      i := i + 1;
    }
    assert written + [] == written;
  }

  predicate GoodChunks(answers: seq<RecvAnswer>)
  {
    forall i :: 0 <= i < |answers| ==> answers[i].Data? && 0 < |answers[i].bytes| <= BUFFER_SIZE
  }

  /** A stream that delivers exactly the announced size in non-empty chunks is written whole. */
  lemma {:induction false} ReceiveWhole(size: int, received: int, answers: seq<RecvAnswer>)
    requires GoodChunks(answers)
    requires received + |Payload(answers)| == size
    ensures ReceiveLoop(size, received, answers) == ReceiveRun(Payload(answers), size, Done)
    decreases |answers|
  {
    if answers != [] {
      assert |Payload(answers)| > 0;
      ReceiveWhole(size, received + |answers[0].bytes|, answers[1..]);
    }
  }

  /**
   * A stream that closes before the announced size leaves exactly the bytes
   * that did arrive, and the loop stops as failed.
   */
  lemma {:induction false} ReceiveTruncated(size: int, received: int, answers: seq<RecvAnswer>)
    requires GoodChunks(answers)
    requires received + |Payload(answers)| < size
    ensures ReceiveLoop(size, received, answers + [Data([])])
         == ReceiveRun(Payload(answers), received + |Payload(answers)|, Failed)
    decreases |answers|
  {
    if answers != [] {
      assert (answers + [Data([])])[1..] == answers[1..] + [Data([])];
      ReceiveTruncated(size, received + |answers[0].bytes|, answers[1..]);
    }
  }

  /** Every recv asks for a full buffer, so the receiver can take in more than the announced size. */
  lemma ReceiveOverReads()
    ensures ReceiveLoop(1, 0, [Data([7, 8])]) == ReceiveRun([7, 8], 2, Done)
  {
  }

  /**
   * Whatever the chunk sizes, the bytes written are the start of the stream
   * in order, and all of what arrived unless the loop ended on reaching the
   * announced size; then the last chunk may carry it past that size.
   */
  lemma {:induction false} ReceivePrefix(size: int, received: int, answers: seq<RecvAnswer>)
    requires GoodChunks(answers)
    ensures var r := ReceiveLoop(size, received, answers);
      r.written <= Payload(answers) && (r.stop != Done ==> r.written == Payload(answers))
    decreases |answers|
  {
    if answers != [] && received < size {
      ReceivePrefix(size, received + |answers[0].bytes|, answers[1..]);
    }
  }
}
