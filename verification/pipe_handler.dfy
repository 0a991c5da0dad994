/** NamedPipesServerClientHandler: one client connection of the plug-in's pipe
    server, seen as a state machine. The two pipe ends are file descriptors,
    -1 marking a closed end; messages to send wait in an outbound FIFO and
    messages received wait in an inbound FIFO until the callback thread hands
    them to the message handler.

    The I/O thread and the callback thread become step functions. What the
    operating system does is supplied as a parameter: the outcome of each read()
    and whether each write() failed. Calls into the system are recorded in the
    state (the descriptors closed, the buffers written, the messages delivered)
    so that contracts can speak about them. */
module PipeHandler {
  import opened Common

  type Bytes = seq<bv8>

  /** The value both pipe ends take once the connection is closed. */
  const InvalidHandle: int := -1

  /** How many bytes one read() asks for. */
  const ReadChunk: nat := 512

  datatype Conn = Conn(
    pipeIn: int,
    pipeOut: int,
    outbound: seq<Bytes>,   // m_writeQueue, head first
    inbound: seq<Bytes>,    // m_readQueue, head first
    closed: seq<int>,       // descriptors passed to close(), in order
    written: seq<Bytes>,    // buffers passed to write(), in order
    delivered: seq<Bytes>)  // buffers passed to the message handler, in order

  /** A handler as its constructor leaves it. */
  function NewConn(pipeIn: int, pipeOut: int): (c: Conn)
    ensures c.pipeIn == pipeIn && c.pipeOut == pipeOut
    ensures c.outbound == [] && c.inbound == [] && c.closed == [] && c.written == [] && c.delivered == []
  {
    Conn(pipeIn, pipeOut, [], [], [], [], [])
  }

  /** IsConnected: only the read end is consulted. */
  predicate IsConnected(c: Conn)
  {
    c.pipeIn != InvalidHandle
  }

  /** The read end alone decides: replacing or closing only the write end does
      not change whether a handler counts as connected, and a new handler is
      connected exactly when it was given a valid read end. */
  lemma ConnectionFollowsReadEnd(c: Conn, pipeOut: int)
    ensures IsConnected(c.(pipeOut := pipeOut)) == IsConnected(c)
    ensures IsConnected(c.(pipeOut := InvalidHandle)) == IsConnected(c)
    ensures IsConnected(NewConn(c.pipeIn, pipeOut)) == IsConnected(c)
  {
  }

  /** Everything but the pipe ends and the closed descriptors is as in `c`. */
  predicate SameTraffic(c: Conn, c': Conn)
  {
    c'.outbound == c.outbound && c'.inbound == c.inbound && c'.written == c.written
    && c'.delivered == c.delivered
  }

  // ---------------------------------------------------------------------------
  // Disconnect and WriteMessage

  /** Disconnect: a connected handler closes both ends and marks them invalid;
      a disconnected one is left as it is. The queues are not touched. */
  function Disconnect(c: Conn): (r: Conn)
    ensures !IsConnected(r) && SameTraffic(c, r)
    ensures IsConnected(c) ==> r.pipeIn == InvalidHandle && r.pipeOut == InvalidHandle
                               && r.closed == c.closed + [c.pipeIn, c.pipeOut]
    ensures !IsConnected(c) ==> r == c
  {
    if IsConnected(c) then
      c.(pipeIn := InvalidHandle, pipeOut := InvalidHandle, closed := c.closed + [c.pipeIn, c.pipeOut])
    else c
  }

  /** A second Disconnect changes nothing, and closes nothing again. */
  lemma DisconnectIdempotent(c: Conn)
    ensures Disconnect(Disconnect(c)) == Disconnect(c)
  {
  }

  /** WriteMessage: when connected, a copy of the first `length` bytes of
      `buffer` joins the tail of the outbound queue and the result is true;
      when disconnected nothing changes and the result is false. */
  function WriteMessage(c: Conn, buffer: Bytes, length: nat): (r: (bool, Conn))
    requires length <= |buffer|
    ensures r.0 <==> IsConnected(c)
    ensures !r.0 ==> r.1 == c
    ensures r.0 ==> r.1.outbound == c.outbound + [buffer[..length]] && |r.1.outbound[|c.outbound|]| == length
    ensures r.1.inbound == c.inbound && r.1.written == c.written && r.1.delivered == c.delivered
    ensures r.1.pipeIn == c.pipeIn && r.1.pipeOut == c.pipeOut && r.1.closed == c.closed
  {
    if !IsConnected(c) then (false, c)
    else (true, c.(outbound := c.outbound + [buffer[..length]]))
  }

  // ---------------------------------------------------------------------------
  // The read and write halves of the I/O thread's loop

  /** The outcome of read(): failure (-1), or the bytes read, none at end of file. */
  datatype ReadResult = ReadFailed | ReadBytes(data: Bytes)

  /** A read of at most ReadChunk bytes. */
  predicate ValidRead(r: ReadResult)
  {
    r.ReadBytes? ==> |r.data| <= ReadChunk
  }

  /** The read half as the source has it: any result but -1 enqueues the
      vector built from the range [buffer, buffer), which is empty whatever
      was read, and end of file keeps the connection; -1 disconnects. */
  function ReadStepAsWritten(c: Conn, read: ReadResult): (r: Conn)
    ensures read.ReadFailed? ==> r == Disconnect(c)
    ensures read.ReadBytes? ==> r == c.(inbound := c.inbound + [[]])
  {
    match read
    case ReadFailed => Disconnect(c)
    case ReadBytes(data) => c.(inbound := c.inbound + [data[..0]])
  }

  /** Whatever the read returned, the message queued for the handler is empty,
      and a read at end of file leaves the handler connected. */
  lemma ReadAsWrittenDropsData(c: Conn, data: Bytes)
    requires IsConnected(c)
    ensures ReadStepAsWritten(c, ReadBytes(data)).inbound[|c.inbound|] == []
    ensures IsConnected(ReadStepAsWritten(c, ReadBytes([])))
  {
  }

  /** The read half as evidently intended: the bytes read are queued, and both
      a failure and end of file (the peer closed its end) disconnect. */
  function ReadStep(c: Conn, read: ReadResult): (r: Conn)
    ensures read.ReadFailed? || read == ReadBytes([]) ==> r == Disconnect(c)
    ensures read.ReadBytes? && read.data != [] ==>
              r == c.(inbound := c.inbound + [read.data]) && IsConnected(r) == IsConnected(c)
  {
    match read
    case ReadFailed => Disconnect(c)
    case ReadBytes(data) => if data == [] then Disconnect(c) else c.(inbound := c.inbound + [data])
  }

  /** The write half: while connected, the head of the outbound queue is
      dequeued and written; a failed write disconnects. Otherwise nothing happens. */
  function WriteStep(c: Conn, writeFails: bool): (r: Conn)
    ensures !IsConnected(c) || c.outbound == [] ==> r == c
    ensures IsConnected(c) && c.outbound != [] ==>
              r.written == c.written + [c.outbound[0]] && r.outbound == c.outbound[1..]
              && r.inbound == c.inbound && r.delivered == c.delivered
              && (IsConnected(r) <==> !writeFails)
  {
    if IsConnected(c) && c.outbound != [] then
      var c' := c.(outbound := c.outbound[1..], written := c.written + [c.outbound[0]]);
      if writeFails then Disconnect(c') else c'
    else c
  }

  // ---------------------------------------------------------------------------
  // The I/O thread's loop, as written

  /** The inner loop at line 88 as written: it keeps reading for as long as the
      handler is connected. `results` are the results read() returns, in order;
      None means they ran out while the handler was still connected, so the
      loop has not exited yet. */
  function ReadLoopAsWritten(c: Conn, results: seq<ReadResult>): (r: Option<Conn>)
    ensures r.Some? ==> !IsConnected(r.value)
    ensures r.Some? ==> r.value.outbound == c.outbound && r.value.written == c.written
    ensures r.Some? ==> forall i :: |c.inbound| <= i < |r.value.inbound| ==> r.value.inbound[i] == []
    ensures r.Some? ==> |c.inbound| <= |r.value.inbound| && r.value.inbound[..|c.inbound|] == c.inbound
    ensures IsConnected(c) && ReadFailed in results ==> r.Some?
    decreases |results|
  {
    if !IsConnected(c) then Some(c)
    else if |results| == 0 then None
    else
      var next := ReadLoopAsWritten(ReadStepAsWritten(c, results[0]), results[1..]);
      if results[0].ReadFailed? then next
      else
        assert ReadFailed in results ==> ReadFailed in results[1..];
        next
  }

  /** One pass of the I/O thread's outer loop as written: the inner read loop,
      then the write half. None while the inner loop is still running. */
  function ThreadPassAsWritten(c: Conn, results: seq<ReadResult>, writeFails: bool): (r: Option<Conn>)
    ensures r.Some? <==> ReadLoopAsWritten(c, results).Some?
  {
    match ReadLoopAsWritten(c, results)
    case None => None
    case Some(afterReads) => Some(WriteStep(afterReads, writeFails))
  }

  /** Because the inner loop only ends on a disconnect, the write half never
      runs while connected: whatever the results and writes do, nothing queued by
      WriteMessage is ever written, and nothing the client sent reaches the queue. */
  lemma ThreadPassAsWrittenNeverWrites(c: Conn, results: seq<ReadResult>, writeFails: bool)
    requires ThreadPassAsWritten(c, results, writeFails).Some?
    ensures var r := ThreadPassAsWritten(c, results, writeFails).value;
            r.written == c.written && r.outbound == c.outbound && !IsConnected(r)
            && forall i :: |c.inbound| <= i < |r.inbound| ==> r.inbound[i] == []
  {
  }

  // ---------------------------------------------------------------------------
  // The I/O thread's loop, corrected

  /** One iteration as evidently intended: one read, then one write attempt. */
  function IoStep(c: Conn, read: ReadResult, writeFails: bool): (r: Conn)
    ensures IsConnected(c) && read.ReadBytes? && read.data != [] && c.outbound != [] ==>
              r.written == c.written + [c.outbound[0]] && r.outbound == c.outbound[1..]
    ensures IsConnected(c) && read.ReadBytes? && read.data != [] ==>
              r.inbound == c.inbound + [read.data]
  {
    WriteStep(ReadStep(c, read), writeFails)
  }

  /** The corrected loop over a sequence of read results and write outcomes. */
  function IoRun(c: Conn, steps: seq<(ReadResult, bool)>): (r: Conn)
    decreases |steps|
  {
    if |steps| == 0 || !IsConnected(c) then c
    else IoRun(IoStep(c, steps[0].0, steps[0].1), steps[1..])
  }

  /** Steps in which data arrives and every write succeeds. */
  predicate Healthy(steps: seq<(ReadResult, bool)>)
  {
    forall i :: 0 <= i < |steps| ==> steps[i].0.ReadBytes? && steps[i].0.data != [] && !steps[i].1
  }

  /** In the corrected loop a healthy connection writes the outbound queue in
      FIFO order, one message per iteration, and stays connected. */
  lemma {:induction false} IoRunDrainsInOrder(c: Conn, steps: seq<(ReadResult, bool)>)
    requires IsConnected(c) && Healthy(steps)
    ensures var n := if |steps| < |c.outbound| then |steps| else |c.outbound|;
            var r := IoRun(c, steps);
            IsConnected(r) && r.written == c.written + c.outbound[..n] && r.outbound == c.outbound[n..]
    decreases |steps|
  {
    if |steps| > 0 {
      var c' := IoStep(c, steps[0].0, steps[0].1);
      assert Healthy(steps[1..]) by {
        forall i | 0 <= i < |steps| - 1
          ensures steps[1..][i].0.ReadBytes? && steps[1..][i].0.data != [] && !steps[1..][i].1
        {
          assert steps[1..][i] == steps[i + 1];
        }
      }
      IoRunDrainsInOrder(c', steps[1..]);
      if c.outbound != [] {
        var n' := if |steps| - 1 < |c'.outbound| then |steps| - 1 else |c'.outbound|;
        assert c.outbound[..n' + 1] == [c.outbound[0]] + c'.outbound[..n'];
        assert c'.outbound[n'..] == c.outbound[n' + 1..];
      }
    }
  }

  /** Two messages queued one after the other by WriteMessage reach write() in
      the same order. */
  lemma WrittenInSendOrder(c: Conn, a: Bytes, b: Bytes, steps: seq<(ReadResult, bool)>)
    requires IsConnected(c) && c.outbound == [] && Healthy(steps) && |steps| >= 2
    ensures var c1 := WriteMessage(c, a, |a|).1;
            var c2 := WriteMessage(c1, b, |b|).1;
            IoRun(c2, steps).written == c.written + [a, b]
  {
    var c1 := WriteMessage(c, a, |a|).1;
    var c2 := WriteMessage(c1, b, |b|).1;
    assert c2.outbound == [a, b] by {
      assert a[..|a|] == a && b[..|b|] == b;
    }
    IoRunDrainsInOrder(c2, steps);
    assert c2.outbound[..2] == [a, b];
  }

  // ---------------------------------------------------------------------------
  // The callback thread

  /** One iteration of CallbackThreadProc: while connected, the head of the
      inbound queue goes to the message handler; an empty queue means a sleep. */
  function CallbackStep(c: Conn): (r: Conn)
    ensures IsConnected(c) && c.inbound != [] ==>
              r.delivered == c.delivered + [c.inbound[0]] && r.inbound == c.inbound[1..]
    ensures !IsConnected(c) || c.inbound == [] ==> r == c
    ensures r.pipeIn == c.pipeIn && r.pipeOut == c.pipeOut && r.outbound == c.outbound
            && r.written == c.written && r.closed == c.closed
  {
    if IsConnected(c) && c.inbound != [] then
      c.(inbound := c.inbound[1..], delivered := c.delivered + [c.inbound[0]])
    else c
  }

  /** `n` iterations of the callback thread. */
  function CallbackRun(c: Conn, n: nat): (r: Conn)
    decreases n
  {
    if n == 0 then c else CallbackRun(CallbackStep(c), n - 1)
  }

  /** The handler receives the inbound messages one at a time, in FIFO order,
      and only while the handler is connected. */
  lemma {:induction false} CallbackRunDeliversInOrder(c: Conn, n: nat)
    ensures var k := if n < |c.inbound| then n else |c.inbound|;
            var r := CallbackRun(c, n);
            (IsConnected(c) ==> r.delivered == c.delivered + c.inbound[..k] && r.inbound == c.inbound[k..])
            && (!IsConnected(c) ==> r == c)
    decreases n
  {
    if n > 0 {
      var c' := CallbackStep(c);
      CallbackRunDeliversInOrder(c', n - 1);
      if IsConnected(c) && c.inbound != [] {
        var k' := if n - 1 < |c'.inbound| then n - 1 else |c'.inbound|;
        assert c.inbound[..k' + 1] == [c.inbound[0]] + c'.inbound[..k'];
        assert c'.inbound[k'..] == c.inbound[k' + 1..];
      }
    }
  }

  /** With the corrected read half, the bytes a read returns are what the
      message handler is later given. */
  lemma ReadThenDeliver(c: Conn, data: Bytes)
    requires IsConnected(c) && c.inbound == [] && data != []
    ensures CallbackStep(ReadStep(c, ReadBytes(data))).delivered == c.delivered + [data]
  {
  }
}
