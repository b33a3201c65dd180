/**
 * Length-prefixed frames over a byte pipe whose reads and writes may move any number of bytes at a time.
 */
module Framing {
  import opened Alignment
  import opened Memory

  const MAX_FRAME_BYTES := 256 * 1024 * 1024

  const U32 := 0x1_0000_0000

  datatype FrameError = Empty | Oversize(got: nat)

  /** What the operating system does with one call: move up to `n` bytes, report a broken pipe, or another failure. */
  datatype Grant = Move(n: nat) | Broken | Refuse

  datatype IoError = Disconnected | OsError

  /** A pipe on which every call moves at least one byte if it can. */
  ghost predicate Healthy(grants: nat -> Grant) { forall i :: grants(i).Move? && grants(i).n >= 1 }

  // ---------- frames ----------

  /** `encode_framed`: the body behind its length as a little-endian u32, which wraps for bodies of 4 GiB and more. */
  function EncodeFramed(body: seq<byte>): seq<byte> { LeBytes(|body| % U32, 4) + body }

  /** `parse_len_prefix`. */
  function ParseLen(prefix: seq<byte>): (r: Result<nat, FrameError>)
    ensures r.Ok? ==> 1 <= r.value <= MAX_FRAME_BYTES
  {
    var len := LeValue(prefix);
    if len == 0 then Err(Empty) else if len > MAX_FRAME_BYTES then Err(Oversize(len)) else Ok(len)
  }

  /** The first frame of a byte stream and what follows it. */
  datatype Parse = Frame(body: seq<byte>, rest: seq<byte>) | Malformed(error: FrameError) | Truncated

  function ParseFrame(stream: seq<byte>): (r: Parse)
    ensures r.Frame? ==> 4 + |r.body| + |r.rest| == |stream| && |r.body| > 0
  {
    if |stream| < 4 then Truncated
    else
      match ParseLen(stream[..4])
      case Err(e) => Malformed(e)
      case Ok(len) => if |stream| < 4 + len then Truncated else Frame(stream[4..4 + len], stream[4 + len..])
  }

  lemma TakeDrop(a: seq<byte>, b: seq<byte>, c: seq<byte>)
    ensures (a + b + c)[..|a|] == a && (a + b + c)[|a|..] == b + c
  {
  }

  lemma PrefixHoldsLength(body: seq<byte>, rest: seq<byte>)
    ensures (EncodeFramed(body) + rest)[..4] == LeBytes(|body| % U32, 4)
    ensures LeValue((EncodeFramed(body) + rest)[..4]) == |body| % U32
    ensures (EncodeFramed(body) + rest)[4..] == body + rest
  {
    assert Pow256(4) == U32;
    LeRoundTrip(|body| % U32, 4);
    TakeDrop(LeBytes(|body| % U32, 4), body, rest);
  }

  predicate Framable(body: seq<byte>) { 1 <= |body| <= MAX_FRAME_BYTES }

  lemma ParseHolds(stream: seq<byte>, len: nat, body: seq<byte>, rest: seq<byte>)
    requires |stream| >= 4 && LeValue(stream[..4]) == len == |body| && Framable(body) && stream[4..] == body + rest
    ensures ParseFrame(stream) == Frame(body, rest)
  {
    assert stream[4..4 + len] == stream[4..][..len] == body;
    assert stream[4 + len..] == stream[4..][len..] == rest;
  }

  /**
   * A framed body is recovered, with nothing else consumed, exactly if it has between 1 and `MAX_FRAME_BYTES` bytes.
   */
  lemma FrameRoundTrip(body: seq<byte>, rest: seq<byte>)
    ensures ParseFrame(EncodeFramed(body) + rest) == Frame(body, rest) <==> Framable(body)
  {
    PrefixHoldsLength(body, rest);
    var stream := EncodeFramed(body) + rest;
    if Framable(body) {
      ParseHolds(stream, |body|, body, rest);
    }
  }

  /** A stream of frames. */
  function Frames(bodies: seq<seq<byte>>): seq<byte> {
    if bodies == [] then [] else EncodeFramed(bodies[0]) + Frames(bodies[1..])
  }

  /** The bodies of the first `n` frames, and the rest of the stream. */
  function ParseFrames(stream: seq<byte>, n: nat): Option<(seq<seq<byte>>, seq<byte>)> {
    if n == 0 then Some(([], stream))
    else
      match ParseFrame(stream)
      case Frame(body, rest) =>
        (match ParseFrames(rest, n - 1)
         case Some((bodies, left)) => Some(([body] + bodies, left))
         case None => None)
      case _ => None
  }

  lemma ParseMore(stream: seq<byte>, body: seq<byte>, rest: seq<byte>, bodies: seq<seq<byte>>, left: seq<byte>, n: nat)
    requires ParseFrame(stream) == Frame(body, rest) && ParseFrames(rest, n) == Some((bodies, left))
    ensures ParseFrames(stream, n + 1) == Some(([body] + bodies, left))
  {
  }

  /** Any list of framable bodies is recovered in order, and exactly the bytes of its frames are consumed. */
  lemma {:induction false} FramesRoundTrip(bodies: seq<seq<byte>>, rest: seq<byte>)
    requires forall b :: b in bodies ==> Framable(b)
    ensures ParseFrames(Frames(bodies) + rest, |bodies|) == Some((bodies, rest))
  {
    if bodies == [] {
      assert Frames(bodies) + rest == rest;
    } else {
      assert Framable(bodies[0]);
      var first, more, tail := bodies[0], bodies[1..], Frames(bodies[1..]) + rest;
      assert Frames(bodies) + rest == EncodeFramed(first) + tail;
      FrameRoundTrip(first, tail);
      FramesRoundTrip(more, rest);
      ParseMore(EncodeFramed(first) + tail, first, tail, more, rest, |more|);
      assert [first] + more == bodies;
    }
  }

  /** What one more frame adds to a stream. */
  lemma {:induction false} FramesAppend(bodies: seq<seq<byte>>, body: seq<byte>)
    ensures Frames(bodies + [body]) == Frames(bodies) + EncodeFramed(body)
  {
    if bodies == [] {
      assert [body][1..] == [];
    } else {
      assert (bodies + [body])[0] == bodies[0] && (bodies + [body])[1..] == bodies[1..] + [body];
      FramesAppend(bodies[1..], body);
    }
  }

  lemma FramesUpTo(was: seq<byte>, bodies: seq<seq<byte>>, k: nat)
    requires k < |bodies|
    ensures was + Frames(bodies[..k]) + EncodeFramed(bodies[k]) == was + Frames(bodies[..k + 1])
  {
    FramesAppend(bodies[..k], bodies[k]);
    assert bodies[..k] + [bodies[k]] == bodies[..k + 1];
  }

  /** The frames after the first `n`. */
  lemma {:induction false} ParseOneMore(stream: seq<byte>, n: nat, bodies: seq<seq<byte>>, left: seq<byte>)
    requires ParseFrames(stream, n) == Some((bodies, left)) && ParseFrame(left).Frame?
    ensures ParseFrames(stream, n + 1) == Some((bodies + [ParseFrame(left).body], ParseFrame(left).rest))
  {
    if n == 0 {
      assert [ParseFrame(left).body] + [] == [] + [ParseFrame(left).body];
    } else {
      var head := ParseFrame(stream);
      var tail := ParseFrames(head.rest, n - 1).value.0;
      ParseOneMore(head.rest, n - 1, tail, left);
      assert bodies == [head.body] + tail;
      assert [head.body] + (tail + [ParseFrame(left).body]) == bodies + [ParseFrame(left).body];
    }
  }

  /** If the rest of the stream does not start with a frame, there are no more frames. */
  lemma {:induction false} NoMoreFrames(stream: seq<byte>, k: nat, n: nat, bodies: seq<seq<byte>>, left: seq<byte>)
    requires k < n && ParseFrames(stream, k) == Some((bodies, left)) && !ParseFrame(left).Frame?
    ensures ParseFrames(stream, n) == None
    decreases k
  {
    if k > 0 {
      var head := ParseFrame(stream);
      NoMoreFrames(head.rest, k - 1, n - 1, ParseFrames(head.rest, k - 1).value.0, left);
    }
  }

  /** Of a stream, `rest` is what is left after `head`. */
  lemma Rest(stream: seq<byte>, head: seq<byte>, rest: seq<byte>)
    requires stream == head + rest
    ensures rest == stream[|head|..] && stream[..|head|] == head
  {
  }

  /** Two pieces read one after the other. */
  lemma Pieces(stream: seq<byte>, head: seq<byte>, piece: seq<byte>, both: seq<byte>, mid: seq<byte>, rest: seq<byte>)
    requires stream == head + mid && mid == piece + rest && both == head + piece
    ensures stream == both + rest
  {
  }

  /** What receiving a frame may fail with. */
  datatype RecvError = Io(io: IoError) | Bad(frame: FrameError)

  /** One end of a pipe: the bytes still to be read, the bytes written so far, and the calls made so far. */
  class Pipe {
    var inbox: seq<byte>
    var outbox: seq<byte>
    var calls: nat
    const grants: nat -> Grant

    constructor (incoming: seq<byte>, g: nat -> Grant)
      ensures inbox == incoming && outbox == [] && calls == 0 && grants == g
    {
      inbox, outbox, calls, grants := incoming, [], 0, g;
    }

    /** `ReadFile` into `buf[filled..]`; zero bytes mean that the other end is closed. */
    method ReadFile(buf: array<byte>, filled: nat) returns (r: Result<nat, IoError>)
      requires filled < buf.Length
      modifies this`inbox, this`calls, buf
      ensures buf[..filled] == old(buf[..filled])
      ensures r.Err? ==> inbox == old(inbox)
      ensures r.Ok? ==> && filled + r.value <= buf.Length
                        && old(inbox) == buf[filled..filled + r.value] + inbox
      ensures Healthy(grants) ==> r.Ok? && (r.value == 0 ==> inbox == [])
    {
      var grant := grants(calls);
      calls := calls + 1;
      match grant
      case Broken =>
        return Err(Disconnected);
      case Refuse =>
        return Err(OsError);
      case Move(n) =>
        var got := Min(Min(n, buf.Length - filled), |inbox|);
        ghost var was := inbox;
        for k := 0 to got
          invariant buf[..filled] == old(buf[..filled])
          invariant inbox == was
          invariant buf[filled..filled + k] == was[..k]
        {
          buf[filled + k] := inbox[k];
        }
        inbox := inbox[got..];
        return Ok(got);
    }

    /** `WriteFile` of some of the bytes. */
    method WriteFile(bytes: seq<byte>) returns (r: Result<nat, IoError>)
      requires bytes != []
      modifies this`outbox, this`calls
      ensures r.Err? ==> outbox == old(outbox)
      ensures r.Ok? ==> r.value <= |bytes| && outbox == old(outbox) + bytes[..r.value]
      ensures Healthy(grants) ==> r.Ok? && r.value > 0
    {
      var grant := grants(calls);
      calls := calls + 1;
      match grant
      case Broken =>
        return Err(Disconnected);
      case Refuse =>
        return Err(OsError);
      case Move(n) =>
        var put := Min(n, |bytes|);
        outbox := outbox + bytes[..put];
        return Ok(put);
    }

    /** Success means that exactly these bytes went out; failure, that a proper prefix of them did. */
    method WriteAll(buf: seq<byte>) returns (r: Result<(), IoError>)
      modifies this`outbox, this`calls
      ensures r.Ok? ==> outbox == old(outbox) + buf
      ensures r.Err? ==> exists k :: 0 <= k < |buf| && outbox == old(outbox) + buf[..k]
      ensures Healthy(grants) ==> r.Ok?
    {
      var remaining := buf;
      ghost var sent := 0;
      while remaining != []
        invariant 0 <= sent <= |buf| && remaining == buf[sent..]
        invariant outbox == old(outbox) + buf[..sent]
      {
        var res := WriteFile(remaining);
        if res.Err? {
          return Err(res.error);
        }
        if res.value == 0 {
          return Err(Disconnected);
        }
        assert buf[..sent] + remaining[..res.value] == buf[..sent + res.value];
        remaining := remaining[res.value..];
        sent := sent + res.value;
      }
      assert buf[..sent] == buf;
      return Ok(());
    }

    /** Success means that the buffer holds the next bytes of the stream, and that exactly those were consumed. */
    method ReadExact(buf: array<byte>) returns (r: Result<(), IoError>)
      modifies this`inbox, this`calls, buf
      ensures r.Ok? ==> old(inbox) == buf[..] + inbox
      ensures r.Err? ==> exists k :: 0 <= k < buf.Length && k <= |old(inbox)| && inbox == old(inbox)[k..]
      ensures Healthy(grants) ==> if buf.Length <= |old(inbox)| then r.Ok? else r == Err(Disconnected) && inbox == []
    {
      ghost var stream := inbox;
      var filled := 0;
      while filled < buf.Length
        invariant 0 <= filled <= buf.Length
        invariant stream == buf[..filled] + inbox
      {
        ghost var head, mid := buf[..filled], inbox;
        Rest(stream, head, mid);
        var res := ReadFile(buf, filled);
        if res.Err? {
          return Err(res.error);
        }
        if res.value == 0 {
          assert inbox == stream[filled..];
          return Err(Disconnected);
        }
        ghost var piece, both := buf[filled..filled + res.value], buf[..filled + res.value];
        assert both == head + piece;
        Pieces(stream, head, piece, both, mid, inbox);
        filled := filled + res.value;
      }
      assert buf[..filled] == buf[..];
      return Ok(());
    }

    /** `send_frame` up to the reply, and `write_msg`: one frame goes out. */
    method SendFrame(body: seq<byte>) returns (r: Result<(), IoError>)
      modifies this`outbox, this`calls
      ensures r.Ok? ==> outbox == old(outbox) + EncodeFramed(body)
      ensures r.Err? ==> exists k :: 0 <= k < |EncodeFramed(body)| && outbox == old(outbox) + EncodeFramed(body)[..k]
      ensures Healthy(grants) ==> r.Ok?
    {
      r := WriteAll(EncodeFramed(body));
    }

    /**
     * `recv_frame` and `read_frame`, up to decoding: whatever the splits, the first frame of the stream and nothing
     * more; on a healthy pipe every frame that is there is received.
     */
    method RecvFrame() returns (r: Result<seq<byte>, RecvError>)
      modifies this`inbox, this`calls
      ensures r.Ok? ==> ParseFrame(old(inbox)) == Frame(r.value, inbox)
      ensures r.Err? && r.error.Bad? ==> ParseFrame(old(inbox)) == Malformed(r.error.frame)
      ensures Healthy(grants) ==>
                match ParseFrame(old(inbox))
                case Frame(body, rest) => r == Ok(body)
                case Malformed(e) => r == Err(Bad(e))
                case Truncated => r == Err(Io(Disconnected))
    {
      var prefix := new byte[4];
      var got := ReadExact(prefix);
      if got.Err? {
        return Err(Io(got.error));
      }
      assert old(inbox)[..4] == prefix[..];
      ghost var tail := inbox;
      var len := ParseLen(prefix[..]);
      if len.Err? {
        return Err(Bad(len.error));
      }
      var body := new byte[len.value];
      got := ReadExact(body);
      if got.Err? {
        return Err(Io(got.error));
      }
      assert old(inbox)[4..] == tail == body[..] + inbox;
      assert old(inbox)[4..4 + len.value] == tail[..len.value] == body[..];
      assert old(inbox)[4 + len.value..] == tail[len.value..] == inbox;
      return Ok(body[..]);
    }

    /** One request after the other goes out: exactly their frames, whatever the splits. */
    method SendFrames(bodies: seq<seq<byte>>) returns (r: Result<(), IoError>)
      modifies this`outbox, this`calls
      ensures r.Ok? ==> outbox == old(outbox) + Frames(bodies)
      ensures Healthy(grants) ==> r.Ok?
    {
      ghost var was := outbox;
      for k := 0 to |bodies|
        invariant outbox == was + Frames(bodies[..k])
      {
        r := SendFrame(bodies[k]);
        if r.Err? {
          return;
        }
        FramesUpTo(was, bodies, k);
      }
      assert bodies[..|bodies|] == bodies;
      return Ok(());
    }

    /**
     * `n` frames one after the other: the bodies of the first `n` frames of the stream, and nothing more is consumed.
     */
    method RecvFrames(n: nat) returns (r: Result<seq<seq<byte>>, RecvError>)
      modifies this`inbox, this`calls
      ensures r.Ok? ==> ParseFrames(old(inbox), n) == Some((r.value, inbox))
      ensures Healthy(grants) && ParseFrames(old(inbox), n).Some? ==> r.Ok?
    {
      var bodies := [];
      for k := 0 to n
        invariant ParseFrames(old(inbox), k) == Some((bodies, inbox))
      {
        ghost var left := inbox;
        var body := RecvFrame();
        if body.Err? {
          if Healthy(grants) {
            NoMoreFrames(old(inbox), k, n, bodies, left);
          }
          return Err(body.error);
        }
        ParseOneMore(old(inbox), k, bodies, left);
        bodies := bodies + [body.value];
      }
      return Ok(bodies);
    }
  }

  /**
   * End to end, over any two healthy pipes and any splits of writes and reads: what arrives are the bodies that were
   * sent, in order, and what follows on the stream is left alone.
   */
  method Transfer(writeGrants: nat -> Grant, readGrants: nat -> Grant, bodies: seq<seq<byte>>, rest: seq<byte>)
    returns (received: Result<seq<seq<byte>>, RecvError>, left: seq<byte>)
    requires Healthy(writeGrants) && Healthy(readGrants) && forall b :: b in bodies ==> Framable(b)
    ensures received == Ok(bodies) && left == rest
  {
    var sender := new Pipe([], writeGrants);
    var sent := sender.SendFrames(bodies);
    assert [] + Frames(bodies) == Frames(bodies);
    var receiver := new Pipe(sender.outbox + rest, readGrants);
    FramesRoundTrip(bodies, rest);
    received := receiver.RecvFrames(|bodies|);
    left := receiver.inbox;
  }
}
