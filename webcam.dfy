/** The program in main.go: an ingest goroutine that publishes every frame the demuxer
    returns into the shared buffer `jpegBuf`, and the `/jpeg` and `/mjpeg` handlers that
    serve that buffer. The lock around `jpegBuf` is replaced by sequential steps. */
module Webcam {
  import opened Stream
  import Decimal

  /** Header values after `Set`: one value per key. */
  type Header = map<string, string>

  /** A body with its headers: the `/jpeg` response or one `/mjpeg` part. */
  datatype Message = Message(header: Header, body: seq<byte>)

  const ImageJpeg: string := "image/jpeg"
  const MultipartPrefix: string := "multipart/x-mixed-replace; boundary="

  // ---------------------------------------------------------------------------------
  // The shared frame buffer

  function Max(a: nat, b: nat): nat {
    if a < b then b else a
  }

  /** `jpegBuf` after the publish step with frame `data`: a longer frame replaces the
      buffer; any other frame is copied over its front and the length stays. */
  function Published(cached: seq<byte>, data: seq<byte>): (r: seq<byte>)
    ensures |r| == Max(|cached|, |data|)
    ensures r[..|data|] == data
    ensures |data| <= |cached| ==> r[|data|..] == cached[|data|..]
  {
    if |cached| < |data| then data else data + cached[|data|..]
  }

  /** The buffer after publishing `frames` in order. */
  function PublishAll(cached: seq<byte>, frames: seq<seq<byte>>): (r: seq<byte>)
    ensures |cached| <= |r|
    ensures frames != [] ==>
              |frames[|frames| - 1]| <= |r| && r[..|frames[|frames| - 1]|] == frames[|frames| - 1]
    decreases |frames|
  {
    if frames == [] then cached
    else Published(PublishAll(cached, frames[..|frames| - 1]), frames[|frames| - 1])
  }

  /** The `jpegBuf` of main.go together with its publish step and its two readers. */
  class Cache {
    var buf: seq<byte>

    /** `make([]byte, 0, 60000)`: empty before the first frame. */
    constructor ()
      ensures buf == []
    {
      buf := [];
    }

    /** The publish step of the ingest goroutine. */
    method Publish(data: seq<byte>)
      modifies this
      ensures buf == Published(old(buf), data)
      ensures |buf| >= |old(buf)|
      ensures buf[..|data|] == data
    {
      if |buf| < |data| {
        buf := data;
      } else {
        buf := data + buf[|data|..];
      }
    }

    /** The `/jpeg` handler: the whole buffer as an `image/jpeg` body. */
    method ServeJpeg() returns (r: Message)
      ensures r.body == buf
      ensures r.header == map["Content-Type" := ImageJpeg]
    {
      r := Message(map["Content-Type" := ImageJpeg], buf);
    }

    /** One iteration of the `/mjpeg` loop: copy the buffer and build the part. */
    method NextPart() returns (p: Message)
      ensures p == MjpegPart(buf)
    {
      var copied := buf;
      var header: Header := map[];
      header := header["Content-Type" := ImageJpeg];
      header := header["Content-Length" := Decimal.Format(|copied|)];
      p := Message(header, copied);
    }
  }

  // ---------------------------------------------------------------------------------
  // What the handlers send

  /** A part is well formed when it is typed as a JPEG and its `Content-Length` reads back
      as the length of its body. */
  ghost predicate WellFormedPart(p: Message) {
    "Content-Type" in p.header && p.header["Content-Type"] == ImageJpeg &&
    "Content-Length" in p.header && Decimal.Parse(p.header["Content-Length"]) == Decimal.Some(|p.body|)
  }

  /** The `/mjpeg` part built from a copy of `frame`: exactly its bytes, typed as a JPEG,
      with a `Content-Length` that reads back as their number. */
  function MjpegPart(frame: seq<byte>): (p: Message)
    ensures p.body == frame
    ensures p.header.Keys == {"Content-Type", "Content-Length"}
    ensures WellFormedPart(p)
  {
    Decimal.ParseFormat(|frame|);
    Message(map["Content-Type" := ImageJpeg, "Content-Length" := Decimal.Format(|frame|)], frame)
  }

  /** The response headers of `/mjpeg` for the multipart writer's `boundary`. */
  function MjpegHeader(boundary: string): (h: Header)
    ensures "Content-Type" in h && "Connection" in h && h["Connection"] == "close"
    ensures var t := h["Content-Type"];
            |t| == |MultipartPrefix| + |boundary| &&
            t[..|MultipartPrefix|] == MultipartPrefix && t[|MultipartPrefix|..] == boundary
  {
    map["Content-Type" := MultipartPrefix + boundary, "Connection" := "close"]
  }

  /** One step of a `/mjpeg` connection interleaved with the producer: the producer
      publishes a frame, or the handler copies the buffer and creates a part; `written` is
      false when `CreatePart` fails (the client has gone), which ends the loop. A failing
      `mw.Write` is ignored by the handler and is not an event. */
  datatype Event = Publish(frame: seq<byte>) | Pull(written: bool)

  /** The parts a `/mjpeg` connection delivers over `events`, starting from buffer
      `cached`, and the buffer when it stops. */
  function Session(cached: seq<byte>, events: seq<Event>): (r: (seq<Message>, seq<byte>))
    ensures forall i | 0 <= i < |r.0| :: WellFormedPart(r.0[i])
    ensures |r.0| <= |events|
    decreases |events|
  {
    if events == [] then ([], cached)
    else match events[0]
      case Publish(f) => Session(Published(cached, f), events[1..])
      case Pull(written) =>
        if !written then ([], cached)
        else
          var rest := Session(cached, events[1..]);
          ([MjpegPart(cached)] + rest.0, rest.1)
  }

  /** The `/mjpeg` handler's loop, with the producer's publishes interleaved as `events`
      say: each delivered part is built from the buffer as it was when it was copied. */
  method ServeMjpeg(c: Cache, boundary: string, events: seq<Event>) returns (header: Header, parts: seq<Message>)
    modifies c
    ensures header == MjpegHeader(boundary)
    ensures (parts, c.buf) == Session(old(c.buf), events)
    ensures var stop := Stop(events);
            |parts| == Pulls(events[..stop]) &&
            c.buf == PublishAll(old(c.buf), Frames(events[..stop])) &&
            forall i | 0 <= i < stop && events[i].Pull? ::
              Pulls(events[..i]) < |parts| && parts[Pulls(events[..i])] == MjpegPart(PublishAll(old(c.buf), Frames(events[..i])))
  {
    SessionStops(c.buf, events);
    forall i | 0 <= i < Stop(events) && events[i].Pull?
      ensures var r := Session(c.buf, events);
              Pulls(events[..i]) < |r.0| &&
              r.0[Pulls(events[..i])] == MjpegPart(PublishAll(c.buf, Frames(events[..i])))
    {
      SessionPartAt(c.buf, events, i);
    }
    header := MjpegHeader(boundary);
    parts := [];
    var i := 0;
    assert events[i..] == events;
    assert parts + Session(c.buf, events).0 == Session(c.buf, events).0;
    while i < |events|
      invariant 0 <= i <= |events|
      invariant Session(old(c.buf), events)
                == (parts + Session(c.buf, events[i..]).0, Session(c.buf, events[i..]).1)
    {
      assert events[i..][1..] == events[i + 1..];
      match events[i] {
        case Publish(f) =>
          c.Publish(f);
        case Pull(written) =>
          var p := c.NextPart();
          if !written {
            assert parts + [] == parts;
            return;
          }
          assert parts + ([p] + Session(c.buf, events[i + 1..]).0)
                 == (parts + [p]) + Session(c.buf, events[i + 1..]).0;
          parts := parts + [p];
      }
      i := i + 1;
    }
    assert events[i..] == [];
    assert parts + [] == parts;
  }

  // ---------------------------------------------------------------------------------
  // The ingest goroutine

  /** What the ingest loop does with `chunks` when `s.data` holds `data`: the frames the
      successive `NextImage` calls return, the outcome that ends the loop (a read error,
      which is fatal, or the reads running out), the reads consumed and the final `s.data`. */
  datatype Ingestion = Ingestion(frames: seq<seq<byte>>, stop: Next, used: nat, data: seq<byte>)

  function Ingest(chunks: seq<Chunk>, data: seq<byte>): (g: Ingestion)
    ensures g.used <= |chunks|
    ensures !g.stop.Image?
    decreases |chunks|
  {
    var o := Demux(chunks, data);
    if o.next.Image? then
      var g := Ingest(chunks[o.used..], o.state.data);
      Ingestion([o.next.jpeg] + g.frames, g.stop, o.used + g.used, g.data)
    else Ingestion([], o.next, o.used, o.state.data)
  }

  /** The ingest goroutine: call `NextImage` and publish each frame until a call fails
      (the goroutine's `log.Fatal`) or the reads run out. */
  method IngestLoop(s: Server, c: Cache) returns (stop: Next)
    requires s.Valid()
    modifies s, c
    ensures s.Valid()
    ensures var g := Ingest(s.input[old(s.pos)..], old(s.data));
            stop == g.stop && c.buf == PublishAll(old(c.buf), g.frames) &&
            s.pos == old(s.pos) + g.used && s.data == g.data
  {
    ghost var all := Ingest(s.input[s.pos..], s.data);
    ghost var p0 := s.pos;
    ghost var frames: seq<seq<byte>> := [];
    assert frames + all.frames == all.frames;
    while true
      invariant s.Valid() && p0 <= s.pos
      invariant all == Prepend(frames, s.pos - p0, Ingest(s.input[s.pos..], s.data))
      invariant c.buf == PublishAll(old(c.buf), frames)
      decreases |s.input| - s.pos
    {
      ghost var rest := s.input[s.pos..];
      ghost var before := s.data;
      ghost var k := s.pos - p0;
      var r := s.NextImage();
      IngestStep(rest, before);
      if !r.Image? {
        assert frames + [] == frames;
        return r;
      }
      assert s.input[s.pos..] == rest[Demux(rest, before).used..];
      PrependPrepend(frames, [r.jpeg], k, Demux(rest, before).used, Ingest(s.input[s.pos..], s.data));
      c.Publish(r.jpeg);
      ghost var published := frames;
      frames := frames + [r.jpeg];
      assert frames[..|frames| - 1] == published;
    }
  }

  /** An ingestion preceded by `frames` and `used` reads. */
  function Prepend(frames: seq<seq<byte>>, used: nat, g: Ingestion): (r: Ingestion)
    ensures |r.frames| == |frames| + |g.frames| && r.frames[..|frames|] == frames
    ensures r.stop == g.stop && r.used == used + g.used && r.data == g.data
  {
    Ingestion(frames + g.frames, g.stop, used + g.used, g.data)
  }

  lemma PrependPrepend(a: seq<seq<byte>>, b: seq<seq<byte>>, m: nat, n: nat, g: Ingestion)
    ensures Prepend(a, m, Prepend(b, n, g)) == Prepend(a + b, m + n, g)
  {
    assert a + (b + g.frames) == (a + b) + g.frames;
  }

  /** `Ingest` after one `Demux`: a frame is prepended to the rest of the ingestion; any
      other outcome ends it. */
  lemma IngestStep(chunks: seq<Chunk>, data: seq<byte>)
    ensures var o := Demux(chunks, data);
            if o.next.Image? then
              Ingest(chunks, data) == Prepend([o.next.jpeg], o.used, Ingest(chunks[o.used..], o.state.data))
            else Ingest(chunks, data) == Prepend([], o.used, Ingestion([], o.next, 0, o.state.data))
  {
  }

  // ---------------------------------------------------------------------------------
  // Properties

  /** Publishing a frame at least as long as the buffer makes the buffer exactly that
      frame; publishing a shorter one never does, since the old tail survives. */
  lemma PublishedIsFrameIff(cached: seq<byte>, data: seq<byte>)
    ensures Published(cached, data) == data <==> |cached| <= |data|
  {
  }

  /** After publishing `F1` then `F2`, the buffer is exactly `F2` only when `F2` is at least
      as long as both `F1` and the buffer before. */
  lemma LatestWinsOnlyIfNotShorter(cached: seq<byte>, f1: seq<byte>, f2: seq<byte>)
    ensures Published(Published(cached, f1), f2) == f2 <==> |cached| <= |f2| && |f1| <= |f2|
  {
    PublishedIsFrameIff(Published(cached, f1), f2);
  }

  /** A large frame followed by a small one leaves the large frame's tail behind. */
  lemma ShrinkLeavesStaleTail()
    ensures Published(Published([], [0xFF, 0xD8, 1, 2, 0xFF, 0xD9]), [0xFF, 0xD8, 0xFF, 0xD9])
            == [0xFF, 0xD8, 0xFF, 0xD9, 0xFF, 0xD9]
  {
    var big: seq<byte> := [0xFF, 0xD8, 1, 2, 0xFF, 0xD9];
    var small: seq<byte> := [0xFF, 0xD8, 0xFF, 0xD9];
    assert Published([], big) == big;
    assert big[|small|..] == [0xFF, 0xD9];
  }

  /** The buffer never shrinks: after any sequence of publishes it is as long as the
      longest of the old buffer and the frames, and its front is the last frame. */
  lemma {:induction false} PublishAllShape(cached: seq<byte>, frames: seq<seq<byte>>)
    ensures var r := PublishAll(cached, frames);
            |cached| <= |r| &&
            (forall i | 0 <= i < |frames| :: |frames[i]| <= |r|) &&
            (|r| == |cached| || exists i | 0 <= i < |frames| :: |r| == |frames[i]|) &&
            (frames != [] ==> r[..|frames[|frames| - 1]|] == frames[|frames| - 1])
    decreases |frames|
  {
    if frames != [] {
      var init := frames[..|frames| - 1];
      PublishAllShape(cached, init);
      assert forall i | 0 <= i < |init| :: init[i] == frames[i];
    }
  }

  /** Before the first publish, `/jpeg` and every `/mjpeg` part carry an empty body with
      `Content-Length` 0. */
  lemma EmptyCacheServesEmptyBody()
    ensures MjpegPart([]).body == [] && MjpegPart([]).header["Content-Length"] == "0"
  {
    assert Decimal.Format(0) == ['0'];
  }

  /** The ingest loop publishes only frames framed by the markers. */
  lemma {:induction false} IngestedFramesAreFramed(chunks: seq<Chunk>, data: seq<byte>)
    ensures forall i | 0 <= i < |Ingest(chunks, data).frames| :: Framed(Ingest(chunks, data).frames[i])
    decreases |chunks|
  {
    var o := Demux(chunks, data);
    if o.next.Image? {
      var tail := Ingest(chunks[o.used..], o.state.data).frames;
      IngestedFramesAreFramed(chunks[o.used..], o.state.data);
      var fs := Ingest(chunks, data).frames;
      assert fs == [o.next.jpeg] + tail;
      forall i | 0 <= i < |fs|
        ensures Framed(fs[i])
      {
        if i > 0 {
          assert fs[i] == tail[i - 1];
        }
      }
    }
  }

  /** Once the ingest loop has published a frame, `/jpeg` serves a buffer that begins with
      the last frame, itself a complete JPEG from Start-Of-Image to End-Of-Image, and that is
      as long as every frame published. */
  lemma IngestedCacheBeginsWithFrame(cached: seq<byte>, chunks: seq<Chunk>, data: seq<byte>)
    ensures var fs := Ingest(chunks, data).frames;
            var r := PublishAll(cached, fs);
            fs != [] ==>
              |fs[|fs| - 1]| <= |r| && r[..|fs[|fs| - 1]|] == fs[|fs| - 1] &&
              Framed(r[..|fs[|fs| - 1]|]) && r[..2] == Start.Bytes() &&
              forall i | 0 <= i < |fs| :: |fs[i]| <= |r|
  {
    var fs := Ingest(chunks, data).frames;
    IngestedFramesAreFramed(chunks, data);
    PublishAllShape(cached, fs);
    if fs != [] {
      var last := fs[|fs| - 1];
      var r := PublishAll(cached, fs);
      assert Framed(last);
      assert r[..2] == r[..|last|][..2];
    }
  }

  /** A connection stops at the first part the client does not accept and delivers one
      part per accepted pull before it. */
  lemma {:induction false} SessionCountsPulls(cached: seq<byte>, events: seq<Event>)
    requires forall i | 0 <= i < |events| :: events[i] != Pull(false)
    ensures |Session(cached, events).0| == Pulls(events)
    decreases |events|
  {
    if events != [] {
      match events[0]
      case Publish(f) =>
        SessionCountsPulls(Published(cached, f), events[1..]);
      case Pull(w) =>
        SessionCountsPulls(cached, events[1..]);
    }
  }

  function Pulls(events: seq<Event>): nat
    decreases |events|
  {
    if events == [] then 0 else (if events[0].Pull? then 1 else 0) + Pulls(events[1..])
  }

  /** The frames the producer publishes during `events`, in order. */
  function Frames(events: seq<Event>): seq<seq<byte>>
    decreases |events|
  {
    if events == [] then []
    else (if events[0].Publish? then [events[0].frame] else []) + Frames(events[1..])
  }

  /** The index of the first pull whose `CreatePart` fails, or `|events|` when none does. */
  function Stop(events: seq<Event>): (k: nat)
    ensures k <= |events|
    ensures k < |events| ==> events[k] == Pull(false)
    ensures forall i | 0 <= i < k :: events[i] != Pull(false)
    decreases |events|
  {
    if events == [] then 0 else if events[0] == Pull(false) then 0 else 1 + Stop(events[1..])
  }

  /** Publishing a first frame and then the rest is publishing all of them. */
  lemma {:induction false} PublishAllCons(cached: seq<byte>, f: seq<byte>, frames: seq<seq<byte>>)
    ensures PublishAll(cached, [f] + frames) == PublishAll(Published(cached, f), frames)
    decreases |frames|
  {
    if frames == [] {
      assert ([f] + frames)[..0] == [];
    } else {
      var init := frames[..|frames| - 1];
      PublishAllCons(cached, f, init);
      assert ([f] + frames)[..|frames|] == [f] + init;
    }
  }

  /** The buffer after one event of a connection. */
  function After(cached: seq<byte>, e: Event): (r: seq<byte>)
    ensures e.Pull? ==> r == cached
  {
    if e.Publish? then Published(cached, e.frame) else cached
  }

  /** A prefix of `events` of positive length is its first event followed by a prefix of
      the rest: count its pulls and apply its publishes accordingly. */
  lemma PrefixCons(cached: seq<byte>, events: seq<Event>, i: nat)
    requires 1 <= i <= |events|
    ensures Pulls(events[..i]) == (if events[0].Pull? then 1 else 0) + Pulls(events[1..][..i - 1])
    ensures PublishAll(cached, Frames(events[..i]))
            == PublishAll(After(cached, events[0]), Frames(events[1..][..i - 1]))
  {
    var e := events[0];
    var rest := events[1..][..i - 1];
    assert events[..i][1..] == rest;
    if e.Publish? {
      assert Frames(events[..i]) == [e.frame] + Frames(rest);
      PublishAllCons(cached, e.frame, Frames(rest));
    } else {
      assert Frames(events[..i]) == Frames(rest);
    }
  }

  /** A `/mjpeg` connection stops at the first failed `CreatePart`: it delivers one part per
      pull before that, and the buffer ends as every publish before the stop leaves it. */
  lemma {:induction false} SessionStops(cached: seq<byte>, events: seq<Event>)
    ensures var r := Session(cached, events);
            var stop := Stop(events);
            |r.0| == Pulls(events[..stop]) && r.1 == PublishAll(cached, Frames(events[..stop]))
    decreases |events|
  {
    assert events[..0] == [];
    if events != [] && events[0] != Pull(false) {
      SessionStops(After(cached, events[0]), events[1..]);
      SessionCons(cached, events);
      PrefixCons(cached, events, Stop(events));
    }
  }

  /** The part of the pull at `i`, before the stop, is the buffer as the publishes before
      it left it, and it comes after the parts of the earlier pulls. */
  lemma {:induction false} SessionPartAt(cached: seq<byte>, events: seq<Event>, i: nat)
    requires i < Stop(events) && events[i].Pull?
    ensures var r := Session(cached, events);
            Pulls(events[..i]) < |r.0| &&
            r.0[Pulls(events[..i])] == MjpegPart(PublishAll(cached, Frames(events[..i])))
    decreases i
  {
    SessionCons(cached, events);
    assert events[..0] == [];
    if i > 0 {
      SessionPartAt(After(cached, events[0]), events[1..], i - 1);
      PrefixCons(cached, events, i);
    }
  }

  /** `Session` unfolded once, on an event that is not a failed pull. */
  lemma SessionCons(cached: seq<byte>, events: seq<Event>)
    requires events != [] && events[0] != Pull(false)
    ensures Stop(events) == 1 + Stop(events[1..])
    ensures var rt := Session(After(cached, events[0]), events[1..]);
            Session(cached, events)
            == (if events[0].Pull? then [MjpegPart(cached)] + rt.0 else rt.0, rt.1)
  {
  }

}
