/** The MJPEG frame demuxer of package `stream`: `server.NextImage` reads the camera's
    live-preview stream two bytes at a time, starts capturing on a Start-Of-Image chunk
    and returns the accumulated buffer on the first End-Of-Image chunk. */
module Stream {

  newtype byte = b: int | 0 <= b < 256

  /** The contents of the fixed two-byte read buffer `buf`. */
  datatype Buf = Buf(b0: byte, b1: byte) {
    /** The buffer as the byte slice that is compared and appended. */
    function Bytes(): (s: seq<byte>)
      ensures |s| == 2 && s[0] == b0 && s[1] == b1
    {
      [b0, b1]
    }
  }

  /** The JPEG Start-Of-Image marker FF D8, `start`. */
  const Start: Buf := Buf(0xFF, 0xD8)
  /** The JPEG End-Of-Image marker FF D9, `end`. */
  const End: Buf := Buf(0xFF, 0xD9)

  /** An error returned by the upstream reader. */
  datatype ReadError = EOF | Broken(reason: string)

  /** The result of one `s.reader.Read(buf)` call: the n bytes the reader wrote to the
      front of `buf`, or an error (whatever n came with it). */
  datatype Read = Got(bytes: seq<byte>) | Fail(err: ReadError)

  /** A read obeys the reader contract `0 <= n <= len(buf)`. */
  type Chunk = r: Read | r.Fail? || |r.bytes| <= 2 witness Got([])

  /** The demuxer's loop state: the `reading` flag, `buf`, and the contents of `s.data`. */
  datatype State = State(reading: bool, buf: Buf, data: seq<byte>)

  /** What `NextImage` does with the reads it is given: return a frame, return a read
      error, or (when the given reads run out) still be waiting in `Read`. */
  datatype Next = Image(jpeg: seq<byte>) | Failed(err: ReadError) | Blocked

  /** The result of running the loop: what it returns, how many reads it consumed, and the
      state it stops in. */
  datatype Outcome = Outcome(next: Next, used: nat, state: State)

  /** The state in which every call of `NextImage` starts: idle, with a zeroed `buf`,
      and `s.data` as the previous call left it. */
  function Begin(data: seq<byte>): (st: State)
    ensures !st.reading && st.data == data
  {
    State(false, Buf(0, 0), data)
  }

  /** `buf` after a read that wrote `got` over its first `|got|` bytes; after a short read
      the second byte is left over from the previous read. */
  function Fill(buf: Buf, got: seq<byte>): (r: Buf)
    requires |got| <= 2
    ensures r.b0 == if |got| >= 1 then got[0] else buf.b0
    ensures r.b1 == if |got| == 2 then got[1] else buf.b1
  {
    if |got| == 2 then Buf(got[0], got[1])
    else if |got| == 1 then Buf(got[0], buf.b1)
    else buf
  }

  /** One loop iteration after a read of n > 0 bytes: the new state, and whether the
      iteration returns the frame. */
  function Step(st: State, got: seq<byte>): (r: (State, bool))
    requires 0 < |got| <= 2
    ensures r.0.buf == Fill(st.buf, got)
    ensures !st.reading && r.0.buf != Start ==> r.0 == State(false, r.0.buf, st.data) && !r.1
    ensures !st.reading && r.0.buf == Start ==> r.0 == State(true, Start, Start.Bytes()) && !r.1
    ensures st.reading ==> r.0.data == st.data + r.0.buf.Bytes()
    ensures st.reading ==> (r.1 <==> r.0.buf == End) && r.0.reading == !r.1
    ensures Capturing(st) ==> Capturing(r.0)
  {
    var buf := Fill(st.buf, got);
    var data := if !st.reading && buf == Start then [] else st.data;
    var reading := st.reading || buf == Start;
    var data' := if reading then data + buf.Bytes() else data;
    if reading && buf == End then (State(false, buf, data'), true)
    else (State(reading, buf, data'), false)
  }

  /** Counts `k` more reads that happened before an outcome. */
  function Shift(o: Outcome, k: nat): (r: Outcome)
    ensures r.next == o.next && r.state == o.state && r.used == o.used + k
  {
    Outcome(o.next, o.used + k, o.state)
  }

  /** The reference semantics of the `NextImage` loop, started in `st`, over `chunks`. */
  function Run(st: State, chunks: seq<Chunk>): (r: Outcome)
    ensures r.used <= |chunks|
    ensures chunks != [] ==> 1 <= r.used
    ensures r.next.Blocked? ==> r.used == |chunks|
    ensures r.next.Image? ==> r.state.data == r.next.jpeg && !r.state.reading
    decreases |chunks|
  {
    if chunks == [] then Outcome(Blocked, 0, st)
    else match chunks[0]
      case Fail(e) => Outcome(Failed(e), 1, st)
      case Got(bytes) =>
        if |bytes| == 0 then Shift(Run(st, chunks[1..]), 1)
        else
          var (st', done) := Step(st, bytes);
          if done then Outcome(Image(st'.data), 1, st')
          else Shift(Run(st', chunks[1..]), 1)
  }

  /** One call of `NextImage` on the reads `chunks`, with `s.data` holding `data`. */
  function Demux(chunks: seq<Chunk>, data: seq<byte>): (r: Outcome)
    ensures r.used <= |chunks|
    ensures r.next.Image? ==> r.state.data == r.next.jpeg && !r.state.reading
    ensures r.next.Image? ==> Framed(r.next.jpeg) && |r.next.jpeg| % 2 == 0
  {
    ImageIsFramed(Begin(data), chunks);
    Run(Begin(data), chunks)
  }

  /** The demuxer `server`: the upstream reader (the reads it will deliver, in order, and
      how many have been consumed) and the reused frame buffer `s.data`. */
  class Server {
    const input: seq<Chunk>
    var pos: nat
    var data: seq<byte>

    ghost predicate Valid()
      reads this
    {
      pos <= |input|
    }

    /** `NewLiveStream` once the session is open: nothing read yet and an empty `s.data`. */
    constructor (input: seq<Chunk>)
      ensures Valid()
      ensures this.input == input && pos == 0 && data == []
    {
      this.input := input;
      pos := 0;
      data := [];
    }

    /** `server.NextImage`: reads two-byte chunks until a frame is complete, a read fails, or
        the given reads run out. The returned frame is `s.data` itself. */
    method NextImage() returns (r: Next)
      requires Valid()
      modifies this
      ensures Valid()
      ensures var o := Demux(input[old(pos)..], old(data));
              r == o.next && pos == old(pos) + o.used && data == o.state.data
      ensures r.Image? ==> r.jpeg == data
    {
      var buf := Buf(0, 0);
      var reading := false;
      ghost var p0 := pos;
      while pos < |input|
        invariant p0 <= pos <= |input|
        invariant Demux(input[p0..], old(data))
                  == Shift(Run(State(reading, buf, data), input[pos..]), pos - p0)
        decreases |input| - pos
      {
        assert input[pos..][1..] == input[pos + 1..];
        var c := input[pos];
        pos := pos + 1;
        match c
        case Fail(e) =>
          return Failed(e);
        case Got(bytes) =>
          if |bytes| == 0 {
            continue;
          }
          buf := if |bytes| == 2 then Buf(bytes[0], bytes[1]) else Buf(bytes[0], buf.b1);
          if !reading && buf == Start {
            data := [];
            reading := true;
          }
          if reading {
            data := data + buf.Bytes();
          }
          if reading && buf == End {
            reading := false;
            return Image(data);
          }
      }
      return Blocked;
    }
  }

  // ---------------------------------------------------------------------------------
  // Properties of the reference semantics

  /** Running over two pieces of input is running over the first and, if it is still
      waiting, continuing from its state over the second. */
  lemma {:induction false} RunAppend(st: State, a: seq<Chunk>, b: seq<Chunk>)
    ensures Run(st, a + b) == if Run(st, a).next.Blocked?
                               then Shift(Run(Run(st, a).state, b), |a|)
                               else Run(st, a)
    decreases |a|
  {
    if a != [] {
      assert (a + b)[1..] == a[1..] + b;
      match a[0]
      case Fail(e) =>
      case Got(bytes) =>
        if |bytes| == 0 {
          RunAppend(st, a[1..], b);
        } else {
          var (st', done) := Step(st, bytes);
          if !done {
            RunAppend(st', a[1..], b);
          }
        }
    } else {
      assert a + b == b;
    }
  }

  /** A read error returns that error and no frame, whichever state the loop is in and
      however much it has captured. */
  lemma ReadErrorEmitsNoFrame(st: State, a: seq<Chunk>, e: ReadError, b: seq<Chunk>)
    requires Run(st, a).next.Blocked?
    ensures Run(st, a + [Fail(e)] + b) == Outcome(Failed(e), |a| + 1, Run(st, a).state)
  {
    RunAppend(st, a, [Fail(e)] + b);
    assert a + [Fail(e)] + b == a + ([Fail(e)] + b);
  }

  /** Conversely, a call only fails on a read error, after reads that all delivered data. */
  lemma {:induction false} FailedOnlyOnReadError(st: State, chunks: seq<Chunk>)
    ensures var o := Run(st, chunks);
            o.next.Failed? ==>
              chunks[o.used - 1] == Fail(o.next.err) &&
              forall i | 0 <= i < o.used - 1 :: chunks[i].Got?
    decreases |chunks|
  {
    if chunks != [] && chunks[0].Got? {
      var bytes := chunks[0].bytes;
      if |bytes| == 0 {
        FailedOnlyOnReadError(st, chunks[1..]);
      } else {
        FailedOnlyOnReadError(Step(st, bytes).0, chunks[1..]);
      }
    }
  }

  /** A read of zero bytes changes neither the state nor the buffer. */
  lemma EmptyReadIsSkipped(st: State, chunks: seq<Chunk>)
    ensures Run(st, [Got([])] + chunks) == Shift(Run(st, chunks), 1)
  {
    assert ([Got([])] + chunks)[1..] == chunks;
  }

  /** While capturing, `s.data` is a Start-Of-Image chunk followed by whole chunks. */
  ghost predicate Capturing(st: State) {
    st.reading ==> |st.data| >= 2 && st.data[..2] == Start.Bytes() && |st.data| % 2 == 0
  }

  /** A frame as a JPEG: it begins with Start-Of-Image, ends with End-Of-Image, and holds
      at least those two chunks. */
  ghost predicate Framed(f: seq<byte>) {
    |f| >= 4 && f[..2] == Start.Bytes() && f[|f| - 2..] == End.Bytes()
  }

  /** Every returned frame is framed by the markers and has even length. */
  lemma {:induction false} ImageIsFramed(st: State, chunks: seq<Chunk>)
    requires Capturing(st)
    ensures Run(st, chunks).next.Image? ==>
              Framed(Run(st, chunks).next.jpeg) && |Run(st, chunks).next.jpeg| % 2 == 0
    decreases |chunks|
  {
    if chunks != [] && chunks[0].Got? {
      var bytes := chunks[0].bytes;
      if |bytes| == 0 {
        ImageIsFramed(st, chunks[1..]);
      } else {
        var (st', done) := Step(st, bytes);
        if !done {
          assert st'.reading ==> st'.data[..2] == (if st.reading then st.data else Start.Bytes())[..2];
          ImageIsFramed(st', chunks[1..]);
        } else {
          assert st.reading;
        }
      }
    }
  }

  /** While idle, the contents of `s.data` are never looked at: two idle states that
      differ only there return the same outcome after the same number of reads. */
  lemma {:induction false} IdleIgnoresData(buf: Buf, d1: seq<byte>, d2: seq<byte>, chunks: seq<Chunk>)
    ensures Run(State(false, buf, d1), chunks).next == Run(State(false, buf, d2), chunks).next
    ensures Run(State(false, buf, d1), chunks).used == Run(State(false, buf, d2), chunks).used
    decreases |chunks|
  {
    if chunks != [] && chunks[0].Got? {
      var bytes := chunks[0].bytes;
      if |bytes| == 0 {
        IdleIgnoresData(buf, d1, d2, chunks[1..]);
      } else {
        var b := Fill(buf, bytes);
        if b != Start {
          IdleIgnoresData(b, d1, d2, chunks[1..]);
        }
      }
    }
  }

  /** Every call starts idle and resets `s.data` on its Start-Of-Image chunk, so what it
      returns, and how many reads it takes, does not depend on the frame a previous call
      left in `s.data`. */
  lemma DemuxIgnoresOldData(chunks: seq<Chunk>, d1: seq<byte>, d2: seq<byte>)
    ensures Demux(chunks, d1).next == Demux(chunks, d2).next
    ensures Demux(chunks, d1).used == Demux(chunks, d2).used
  {
    IdleIgnoresData(Buf(0, 0), d1, d2, chunks);
  }

  /** A one-byte read while capturing fills only the first byte of `buf` and appends both
      bytes, the second one left over from the previous read; the chunk ends the frame when
      the new byte and the stale one together read `FF D9`. */
  lemma ShortReadAppendsStaleByte(buf: Buf, data: seq<byte>, x: byte, rest: seq<Chunk>)
    ensures var (st', done) := Step(State(true, buf, data), [x]);
            st'.buf == Buf(x, buf.b1) && st'.data == data + [x, buf.b1] &&
            (done <==> x == 0xFF && buf.b1 == 0xD9)
    ensures Run(State(true, buf, data), [Got([x])] + rest)
            == if x == 0xFF && buf.b1 == 0xD9
               then Outcome(Image(data + End.Bytes()), 1, State(false, End, data + End.Bytes()))
               else Shift(Run(State(true, Buf(x, buf.b1), data + [x, buf.b1]), rest), 1)
  {
    assert ([Got([x])] + rest)[1..] == rest;
  }

  /** The stale byte can forge an End-Of-Image chunk: after the chunk `41 D9`, a one-byte
      read of `FF` returns the frame with `FF D9` appended, although no `D9` followed the
      `FF` in the stream. */
  lemma StaleByteForgesEnd(data: seq<byte>, rest: seq<Chunk>)
    ensures Run(State(true, Buf(0x41, 0xD9), data), [Got([0xFF])] + rest).next
            == Image(data + [0xFF, 0xD9])
  {
    ShortReadAppendsStaleByte(Buf(0x41, 0xD9), data, 0xFF, rest);
  }

  // ---------------------------------------------------------------------------------
  // A declarative reference for full two-byte reads

  /** The reads of a stream whose every read fills `buf`. */
  function Full(bufs: seq<Buf>): (r: seq<Chunk>)
    ensures |r| == |bufs|
  {
    if bufs == [] then [] else [Got(bufs[0].Bytes())] + Full(bufs[1..])
  }

  /** The bytes of the chunks `bufs[i]` up to, not including, `bufs[j]`. */
  function Chunks(bufs: seq<Buf>, i: nat, j: nat): (r: seq<byte>)
    requires i <= j <= |bufs|
    ensures |r| == 2 * (j - i)
    decreases j - i
  {
    if i == j then [] else bufs[i].Bytes() + Chunks(bufs, i + 1, j)
  }

  /** The index of the first chunk at or after `i` equal to `m`, or `|bufs|` when there is
      none. */
  function FirstFrom(bufs: seq<Buf>, i: nat, m: Buf): (k: nat)
    requires i <= |bufs|
    ensures i <= k <= |bufs|
    ensures k < |bufs| ==> bufs[k] == m
    decreases |bufs| - i
  {
    if i == |bufs| then |bufs| else if bufs[i] == m then i else FirstFrom(bufs, i + 1, m)
  }

  /** No chunk from `i` up to `FirstFrom(bufs, i, m)` equals `m`. */
  lemma {:induction false} FirstFromIsFirst(bufs: seq<Buf>, i: nat, m: Buf)
    requires i <= |bufs|
    ensures forall j | i <= j < FirstFrom(bufs, i, m) :: bufs[j] != m
    decreases |bufs| - i
  {
    if i < |bufs| && bufs[i] != m {
      FirstFromIsFirst(bufs, i + 1, m);
    }
  }

  /** `Run` over the full reads of `bufs[i..]`, one chunk per iteration. */
  function RunFrom(st: State, bufs: seq<Buf>, i: nat): Outcome
    requires i <= |bufs|
    decreases |bufs| - i
  {
    if i == |bufs| then Outcome(Blocked, 0, st)
    else
      var (st', done) := Step(st, bufs[i].Bytes());
      if done then Outcome(Image(st'.data), 1, st')
      else Shift(RunFrom(st', bufs, i + 1), 1)
  }

  /** Over full reads, the loop is `RunFrom`. */
  lemma {:induction false} RunFull(st: State, bufs: seq<Buf>, i: nat)
    requires i <= |bufs|
    ensures Run(st, Full(bufs[i..])) == RunFrom(st, bufs, i)
    decreases |bufs| - i
  {
    if i < |bufs| {
      var f := Full(bufs[i..]);
      assert bufs[i..][1..] == bufs[i + 1..];
      assert f[0] == Got(bufs[i].Bytes()) && f[1..] == Full(bufs[i + 1..]);
      RunFull(Step(st, bufs[i].Bytes()).0, bufs, i + 1);
    }
  }

  /** While capturing over full reads, the frame ends at the first End-Of-Image chunk and
      holds every chunk up to it, Start-Of-Image chunks included. */
  ghost predicate CapturesToEnd(buf: Buf, data: seq<byte>, bufs: seq<Buf>, i: nat)
    requires i <= |bufs|
  {
    var e := FirstFrom(bufs, i, End);
    var o := RunFrom(State(true, buf, data), bufs, i);
    if e < |bufs| then o.next == Image(data + Chunks(bufs, i, e + 1)) && o.used == e + 1 - i
    else o.next == Blocked && o.used == |bufs| - i
  }

  lemma {:induction false} CaptureFull(buf: Buf, data: seq<byte>, bufs: seq<Buf>, i: nat)
    requires i <= |bufs|
    ensures CapturesToEnd(buf, data, bufs, i)
    decreases |bufs| - i
  {
    if i < |bufs| {
      CaptureNext(buf, data, bufs, i);
      if bufs[i] == End {
        assert Chunks(bufs, i, i + 1) == bufs[i].Bytes() + [];
      } else {
        CaptureFull(bufs[i], data + bufs[i].Bytes(), bufs, i + 1);
        CaptureCons(buf, data, bufs, i);
      }
    }
  }

  /** `RunFrom` unfolded once from a capturing state. */
  lemma CaptureNext(buf: Buf, data: seq<byte>, bufs: seq<Buf>, i: nat)
    requires i < |bufs|
    ensures var p := bufs[i];
            RunFrom(State(true, buf, data), bufs, i)
            == if p == End then Outcome(Image(data + p.Bytes()), 1, State(false, p, data + p.Bytes()))
               else Shift(RunFrom(State(true, p, data + p.Bytes()), bufs, i + 1), 1)
  {
    assert Fill(buf, bufs[i].Bytes()) == bufs[i];
  }

  lemma CaptureCons(buf: Buf, data: seq<byte>, bufs: seq<Buf>, i: nat)
    requires i < |bufs| && bufs[i] != End
    requires CapturesToEnd(bufs[i], data + bufs[i].Bytes(), bufs, i + 1)
    ensures CapturesToEnd(buf, data, bufs, i)
  {
    var p := bufs[i];
    CaptureNext(buf, data, bufs, i);
    var e := FirstFrom(bufs, i + 1, End);
    if e < |bufs| {
      assert Chunks(bufs, i, e + 1) == p.Bytes() + Chunks(bufs, i + 1, e + 1);
      assert data + p.Bytes() + Chunks(bufs, i + 1, e + 1)
             == data + (p.Bytes() + Chunks(bufs, i + 1, e + 1));
    }
  }

  /** While idle over full reads, every chunk before the first Start-Of-Image chunk is
      discarded, End-Of-Image chunks included. */
  ghost predicate DiscardsToStart(buf: Buf, data: seq<byte>, bufs: seq<Buf>, i: nat)
    requires i <= |bufs|
  {
    var s := FirstFrom(bufs, i, Start);
    var o := RunFrom(State(false, buf, data), bufs, i);
    if s < |bufs| then o == Shift(RunFrom(State(true, Start, Start.Bytes()), bufs, s + 1), s + 1 - i)
    else o.next == Blocked && o.used == |bufs| - i
  }

  lemma {:induction false} IdleFull(buf: Buf, data: seq<byte>, bufs: seq<Buf>, i: nat)
    requires i <= |bufs|
    ensures DiscardsToStart(buf, data, bufs, i)
    decreases |bufs| - i
  {
    if i < |bufs| {
      IdleNext(buf, data, bufs, i);
      if bufs[i] != Start {
        IdleFull(bufs[i], data, bufs, i + 1);
      }
    }
  }

  /** `RunFrom` unfolded once from an idle state. */
  lemma IdleNext(buf: Buf, data: seq<byte>, bufs: seq<Buf>, i: nat)
    requires i < |bufs|
    ensures var p := bufs[i];
            RunFrom(State(false, buf, data), bufs, i)
            == if p == Start then Shift(RunFrom(State(true, Start, Start.Bytes()), bufs, i + 1), 1)
               else Shift(RunFrom(State(false, p, data), bufs, i + 1), 1)
  {
    assert Fill(buf, bufs[i].Bytes()) == bufs[i];
    assert [] + Start.Bytes() == Start.Bytes();
  }

  /** A declarative reference for a stream of full reads: the first frame is the chunks
      from the first Start-Of-Image chunk through the first End-Of-Image chunk after it,
      and the call consumes every read up to that End-Of-Image chunk. */
  function FirstFrame(bufs: seq<Buf>): (r: (Next, nat))
    ensures r.0.Image? ==> FirstFrom(bufs, 0, Start) < r.1 <= |bufs|
    ensures r.0.Image? ==> |r.0.jpeg| == 2 * (r.1 - FirstFrom(bufs, 0, Start))
    ensures r.0.Blocked? ==> r.1 == |bufs|
  {
    var s := FirstFrom(bufs, 0, Start);
    if s == |bufs| then (Blocked, |bufs|)
    else
      var e := FirstFrom(bufs, s + 1, End);
      if e == |bufs| then (Blocked, |bufs|) else (Image(Chunks(bufs, s, e + 1)), e + 1)
  }

  /** Over full two-byte reads, `NextImage` agrees with the declarative reference: it
      returns exactly the chunks from the first Start-Of-Image chunk through the first
      End-Of-Image chunk after it (so the frame is twice as long as the number of chunks
      read from marker to marker), and with no such pair it returns nothing. */
  lemma DemuxFullReads(bufs: seq<Buf>, data: seq<byte>)
    ensures var o := Demux(Full(bufs), data);
            (o.next, o.used) == FirstFrame(bufs)
  {
    DemuxIsRunFrom(bufs, data);
    FirstFrameFromIdle(bufs, data);
  }

  lemma DemuxIsRunFrom(bufs: seq<Buf>, data: seq<byte>)
    ensures Demux(Full(bufs), data) == RunFrom(State(false, Buf(0, 0), data), bufs, 0)
  {
    assert bufs[0..] == bufs;
    RunFull(Begin(data), bufs, 0);
  }

  /** `FirstFrame` is what the loop does from the idle state of a call. */
  lemma FirstFrameFromIdle(bufs: seq<Buf>, data: seq<byte>)
    ensures var o := RunFrom(State(false, Buf(0, 0), data), bufs, 0);
            (o.next, o.used) == FirstFrame(bufs)
  {
    var o := RunFrom(State(false, Buf(0, 0), data), bufs, 0);
    IdleFull(Buf(0, 0), data, bufs, 0);
    var s := FirstFrom(bufs, 0, Start);
    if s < |bufs| {
      var c := RunFrom(State(true, Start, Start.Bytes()), bufs, s + 1);
      CaptureFull(Start, Start.Bytes(), bufs, s + 1);
      FrameFromMarkers(bufs, s, FirstFrom(bufs, s + 1, End), c, o);
    }
  }

  /** The outcome of a call that found its Start-Of-Image chunk at `s`, put together from the
      capture `c` that follows it. */
  lemma FrameFromMarkers(bufs: seq<Buf>, s: nat, e: nat, c: Outcome, o: Outcome)
    requires s == FirstFrom(bufs, 0, Start) < |bufs| && e == FirstFrom(bufs, s + 1, End)
    requires o == Shift(c, s + 1)
    requires e < |bufs| ==> c.next == Image(Start.Bytes() + Chunks(bufs, s + 1, e + 1)) && c.used == e - s
    requires e == |bufs| ==> c.next == Blocked && c.used == |bufs| - (s + 1)
    ensures (o.next, o.used) == FirstFrame(bufs)
  {
    if e < |bufs| {
      assert Chunks(bufs, s, e + 1) == Start.Bytes() + Chunks(bufs, s + 1, e + 1);
    }
  }

  // ---------------------------------------------------------------------------------
  // Concrete consequences of the code as written

  /** A second Start-Of-Image chunk while capturing is ordinary data: the capture is not
      restarted and the frame keeps both markers. */
  lemma SecondStartDoesNotRestart(x: Buf, data: seq<byte>)
    requires x != Start && x != End
    ensures Demux(Full([Start, x, Start, End]), data).next
            == Image(Start.Bytes() + x.Bytes() + Start.Bytes() + End.Bytes())
  {
    var bufs := [Start, x, Start, End];
    DemuxFullReads(bufs, data);
    assert FirstFrom(bufs, 0, Start) == 0;
    assert FirstFrom(bufs, 3, End) == 3;
    assert FirstFrom(bufs, 2, End) == 3;
    assert FirstFrom(bufs, 1, End) == 3;
    assert Chunks(bufs, 2, 4) == Start.Bytes() + (End.Bytes() + []);
    assert Chunks(bufs, 0, 4) == Start.Bytes() + (x.Bytes() + Chunks(bufs, 2, 4));
  }

  /** An End-Of-Image marker that does not start on an even offset is missed: the bytes
      FF D8 41 FF D9 00 carry both markers but yield no frame. */
  lemma StraddlingEndIsMissed(data: seq<byte>)
    ensures Demux(Full([Buf(0xFF, 0xD8), Buf(0x41, 0xFF), Buf(0xD9, 0x00)]), data).next == Blocked
  {
    var bufs := [Buf(0xFF, 0xD8), Buf(0x41, 0xFF), Buf(0xD9, 0x00)];
    DemuxFullReads(bufs, data);
    assert FirstFrom(bufs, 0, Start) == 0;
    assert FirstFrom(bufs, 1, End) == 3;
  }

  /** The eleven bytes FF D8 'A' 'B' FF D9 FF D8 'C' FF D9, followed by end of stream: the
      first call returns the first frame; the second call sees FF D9 split across reads,
      its last read is a one-byte read, and it fails with EOF instead of returning 'C'. */
  lemma ElevenByteStream(data: seq<byte>)
    ensures var chunks: seq<Chunk> := [Got([0xFF, 0xD8]), Got([0x41, 0x42]), Got([0xFF, 0xD9]),
                                       Got([0xFF, 0xD8]), Got([0x43, 0xFF]), Got([0xD9]), Fail(EOF)];
            var o := Demux(chunks, data);
            o.next == Image([0xFF, 0xD8, 0x41, 0x42, 0xFF, 0xD9]) && o.used == 3 &&
            Demux(chunks[3..], o.next.jpeg).next == Failed(EOF)
  {
    var chunks: seq<Chunk> := [Got([0xFF, 0xD8]), Got([0x41, 0x42]), Got([0xFF, 0xD9]),
                               Got([0xFF, 0xD8]), Got([0x43, 0xFF]), Got([0xD9]), Fail(EOF)];
    var s1 := State(true, Start, Start.Bytes());
    assert Demux(chunks, data) == Shift(Run(s1, chunks[1..]), 1);
    var s2 := State(true, Buf(0x41, 0x42), [0xFF, 0xD8, 0x41, 0x42]);
    assert chunks[1..][1..] == chunks[2..];
    assert Run(s1, chunks[1..]) == Shift(Run(s2, chunks[2..]), 1);
    var frame: seq<byte> := [0xFF, 0xD8, 0x41, 0x42, 0xFF, 0xD9];
    assert Run(s2, chunks[2..]).next == Image(frame);
    var tail := chunks[3..];
    assert tail[1..] == chunks[4..];
    assert Demux(tail, frame) == Shift(Run(s1, chunks[4..]), 1);
    var s4 := State(true, Buf(0x43, 0xFF), [0xFF, 0xD8, 0x43, 0xFF]);
    assert chunks[4..][1..] == chunks[5..];
    var got: seq<byte> := [0x43, 0xFF];
    assert Fill(Start, got) == Buf(0x43, 0xFF);
    assert Buf(0x43, 0xFF).Bytes() == [0x43, 0xFF];
    assert Start.Bytes() + [0x43, 0xFF] == [0xFF, 0xD8, 0x43, 0xFF];
    assert Step(s1, got) == (s4, false);
    assert Run(s1, chunks[4..]) == Shift(Run(s4, chunks[5..]), 1);
    var s5 := State(true, Buf(0xD9, 0xFF), [0xFF, 0xD8, 0x43, 0xFF, 0xD9, 0xFF]);
    assert chunks[5..][1..] == chunks[6..];
    assert Run(s4, chunks[5..]) == Shift(Run(s5, chunks[6..]), 1);
  }
}
