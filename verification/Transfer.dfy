/** packet.c: framing packets over a byte stream that splits anywhere. */
module Transfer {
  import opened Bytes
  import opened Packet
  import opened LibPort

  /** One end of a connection. `incoming` is everything the peer will still
      deliver before end of file or an error, `room` the bytes the peer will
      still accept, `interrupts` the EINTRs still to come. */
  class Socket {
    var incoming: Bytes
    var outgoing: Bytes
    var room: nat
    var interrupts: nat

    constructor (incoming: Bytes, room: nat, interrupts: nat)
      ensures this.incoming == incoming && this.outgoing == [] && this.room == room && this.interrupts == interrupts
    {
      this.incoming, this.outgoing, this.room, this.interrupts := incoming, [], room, interrupts;
    }

    /** read(2): any positive number of the bytes available, 0 or -1 when there
        are none, or -1 with EINTR. */
    method Read(buf: array<byte>, off: nat, len: nat) returns (n: int, eintr: bool)
      requires 0 < len && off + len <= buf.Length
      modifies this, buf
      ensures outgoing == old(outgoing) && room == old(room)
      ensures eintr ==> n < 0 && interrupts < old(interrupts) && incoming == old(incoming) && buf[..] == old(buf[..])
      ensures !eintr ==> interrupts == old(interrupts)
      ensures !eintr && n <= 0 ==> old(incoming) == [] == incoming && buf[..] == old(buf[..])
      ensures n > 0 ==> n <= len && n <= |old(incoming)|
      ensures n > 0 ==> incoming == old(incoming)[n..] && buf[..] == Splice(old(buf[..]), off, old(incoming)[..n])
    {
      eintr := false;
      if interrupts > 0 {
        var interrupted: bool := *;
        if interrupted {
          interrupts := interrupts - 1;
          return -1, true;
        }
      }
      if incoming == [] {
        n :| -1 <= n <= 0;
        return;
      }
      n :| 0 < n <= len && n <= |incoming|;
      Copy(buf, off, incoming[..n]);
      incoming := incoming[n..];
    }

    /** write(2), with the same freedom. */
    method Write(buf: array<byte>, off: nat, len: nat) returns (n: int, eintr: bool)
      requires 0 < len && off + len <= buf.Length
      modifies this
      ensures incoming == old(incoming)
      ensures eintr ==> n < 0 && interrupts < old(interrupts) && outgoing == old(outgoing) && room == old(room)
      ensures !eintr ==> interrupts == old(interrupts)
      ensures !eintr && n <= 0 ==> old(room) == 0 == room && outgoing == old(outgoing)
      ensures n > 0 ==> n <= len && n <= old(room)
      ensures n > 0 ==> room == old(room) - n && outgoing == old(outgoing) + buf[off..off + n]
    {
      eintr := false;
      if interrupts > 0 {
        var interrupted: bool := *;
        if interrupted {
          interrupts := interrupts - 1;
          return -1, true;
        }
      }
      if room == 0 {
        n :| -1 <= n <= 0;
        return;
      }
      n :| 0 < n <= len && n <= room;
      outgoing := outgoing + buf[off..off + n];
      room := room - n;
    }
  }

  function Min(a: nat, b: nat): nat { if a <= b then a else b }

  /** Moves exactly `len` bytes however the stream splits them, stopping short
      only when the stream ends. */
  method ReadAll(sock: Socket, buf: array<byte>, off: nat, len: nat) returns (done: nat)
    requires off + len <= buf.Length
    modifies sock, buf
    ensures done == Min(len, |old(sock.incoming)|)
    ensures sock.incoming == old(sock.incoming)[done..]
    ensures buf[..] == Splice(old(buf[..]), off, old(sock.incoming)[..done])
    ensures sock.outgoing == old(sock.outgoing) && sock.room == old(sock.room)
  {
    ghost var was, stream := buf[..], sock.incoming;
    done := 0;
    assert buf[..] == Splice(was, off, stream[..0]);
    while done < len
      invariant done <= len && done <= |stream|
      invariant sock.incoming == stream[done..]
      invariant buf[..] == Splice(was, off, stream[..done])
      invariant sock.outgoing == old(sock.outgoing) && sock.room == old(sock.room)
      decreases len - done, sock.interrupts
    {
      var n, eintr := sock.Read(buf, off + done, len - done);
      if eintr { continue; }
      if n <= 0 { break; }
      SpliceTwice(was, off, stream[..done], stream[done..][..n]);
      assert stream[..done] + stream[done..][..n] == stream[..done + n];
      done := done + n;
    }
  }

  lemma SpliceTwice(buf: Bytes, off: nat, a: Bytes, b: Bytes)
    requires off + |a| + |b| <= |buf|
    ensures Splice(Splice(buf, off, a), off + |a|, b) == Splice(buf, off, a + b)
  {
  }

  method WriteAll(sock: Socket, buf: array<byte>, len: nat) returns (done: nat)
    requires len <= buf.Length
    modifies sock
    ensures done == Min(len, old(sock.room))
    ensures sock.outgoing == old(sock.outgoing) + buf[..done] && sock.room == old(sock.room) - done
    ensures sock.incoming == old(sock.incoming)
  {
    done := 0;
    while done < len
      invariant done <= len && done <= old(sock.room)
      invariant sock.outgoing == old(sock.outgoing) + buf[..done] && sock.room == old(sock.room) - done
      invariant sock.incoming == old(sock.incoming)
      decreases len - done, sock.interrupts
    {
      var n, eintr := sock.Write(buf, done, len - done);
      if eintr { continue; }
      if n <= 0 { break; }
      assert buf[..done] + buf[done..done + n] == buf[..done + n];
      done := done + n;
    }
  }

  // ------------------------------------------------------------- the framing

  /** The first packet of a stream, for a receiver with a `cap`-byte buffer. */
  datatype Scan = Eof | Bad | Frame(f: Bytes)

  function FirstPacket(stream: Bytes, cap: nat): (s: Scan)
    ensures s.Frame? ==> HEADER <= |s.f| <= cap && s.f <= stream && PktLen(s.f) == |s.f|
  {
    if cap < HEADER then Bad
    else if stream == [] then Eof
    else if |stream| < HEADER then Bad
    else
      var len := PktLen(stream);
      if len < HEADER || len > cap || |stream| < len then Bad
      else
        assert stream[..len][4..8] == stream[4..8];
        Frame(stream[..len])
  }

  /** A whole packet, for the receiver's buffer. */
  predicate WellFramed(f: Bytes, cap: nat) {
    HEADER <= |f| <= cap && PktLen(f) == |f|
  }

  /** Whatever follows it, a whole packet is recognised as such. */
  lemma FirstPacketOfFrame(f: Bytes, rest: Bytes, cap: nat)
    requires WellFramed(f, cap)
    ensures FirstPacket(f + rest, cap) == Frame(f)
  {
    assert (f + rest)[4..8] == f[4..8];
    assert (f + rest)[..|f|] == f;
  }

  /** Returns the packet length, 0 at the end of the stream, or -1. */
  method ReadPacket(sock: Socket, buf: array<byte>) returns (r: int)
    modifies sock, buf
    ensures sock.outgoing == old(sock.outgoing) && sock.room == old(sock.room)
    ensures match FirstPacket(old(sock.incoming), buf.Length)
      case Eof => r == 0
      case Bad => r == -1
      case Frame(f) =>
        r == |f| && buf[..] == Splice(old(buf[..]), 0, f) && buf[..r] == f && sock.incoming == old(sock.incoming)[r..]
  {
    ghost var stream, was := sock.incoming, buf[..];
    if buf.Length < HEADER {
      return -1;
    }
    var n := ReadAll(sock, buf, 0, HEADER);
    if n == 0 {
      return 0;
    }
    if n != HEADER {
      return -1;
    }
    assert buf[..HEADER] == stream[..HEADER] by {
      assert buf[0..0 + HEADER] == stream[..HEADER];
    }
    var len := PktLen(buf[..HEADER]);
    assert buf[..HEADER][4..8] == stream[4..8];
    if len < HEADER || len > buf.Length {
      return -1;
    }
    n := ReadAll(sock, buf, HEADER, len - HEADER);
    if n != len - HEADER {
      return -1;
    }
    assert buf[..len] == stream[..len] by {
      assert buf[..HEADER] == stream[..HEADER];
      assert buf[HEADER..len] == stream[HEADER..][..len - HEADER];
      assert buf[..len] == buf[..HEADER] + buf[HEADER..len];
    }
    SpliceTwice(was, 0, stream[..HEADER], stream[HEADER..][..len - HEADER]);
    assert stream[..HEADER] + stream[HEADER..][..len - HEADER] == stream[..len];
    r := len;
  }

  /** Writes the packet whose length its own header gives. */
  method WritePacket(sock: Socket, buf: array<byte>) returns (ok: bool)
    requires buf.Length >= HEADER && PktLen(buf[..HEADER]) <= buf.Length
    modifies sock
    ensures var len := PktLen(buf[..HEADER]);
      var n := Min(len, old(sock.room));
      && ok == (n == len)
      && sock.outgoing == old(sock.outgoing) + buf[..n] && sock.room == old(sock.room) - n
    ensures sock.incoming == old(sock.incoming)
  {
    var len := PktLen(buf[..HEADER]);
    var done := WriteAll(sock, buf, len);
    ok := done == len;
  }

  // ------------------------------------------------ decomposition into frames

  /** The packets of a stream, up to the first bad or truncated one. */
  function Frames(stream: Bytes, cap: nat): (fs: seq<Bytes>)
    ensures forall i :: 0 <= i < |fs| ==> WellFramed(fs[i], cap)
    decreases |stream|
  {
    match FirstPacket(stream, cap)
    case Frame(f) => [f] + Frames(stream[|f|..], cap)
    case _ => []
  }

  function Concat(fs: seq<Bytes>): Bytes {
    if fs == [] then [] else fs[0] + Concat(fs[1..])
  }

  /** A stream splits into whole packets and a rest that does not start with one
      in exactly one way, and that way is `Frames`. */
  lemma {:induction false} FramesUnique(fs: seq<Bytes>, rest: Bytes, cap: nat)
    requires forall i :: 0 <= i < |fs| ==> WellFramed(fs[i], cap)
    requires !FirstPacket(rest, cap).Frame?
    ensures Frames(Concat(fs) + rest, cap) == fs
  {
    if fs == [] {
      assert Concat(fs) + rest == rest;
    } else {
      var tail := Concat(fs[1..]) + rest;
      assert Concat(fs) + rest == fs[0] + tail;
      FirstPacketOfFrame(fs[0], tail, cap);
      assert (fs[0] + tail)[|fs[0]|..] == tail;
      FramesUnique(fs[1..], rest, cap);
    }
  }

  lemma ConcatNothing()
    ensures Concat([]) == []
  {
  }

  lemma ConcatCons(f: Bytes, fs: seq<Bytes>)
    ensures Concat([f] + fs) == f + Concat(fs)
  {
    assert ([f] + fs)[1..] == fs;
  }

  lemma FramesStep(stream: Bytes, cap: nat)
    ensures var first := FirstPacket(stream, cap);
      Frames(stream, cap) == if first.Frame? then [first.f] + Frames(stream[|first.f|..], cap) else []
  {
    hide FirstPacket;
  }

  /** Conversely every stream is its frames followed by such a rest. */
  lemma {:induction false} FramesCover(stream: Bytes, cap: nat) returns (rest: Bytes)
    ensures stream == Concat(Frames(stream, cap)) + rest
    ensures !FirstPacket(rest, cap).Frame?
    decreases |stream|
  {
    hide FirstPacket, Concat, Frames, PktLen, WellFramed;
    ConcatNothing();
    FramesStep(stream, cap);
    var first := FirstPacket(stream, cap);
    if first.Frame? {
      rest := FramesCover(stream[|first.f|..], cap);
      ConcatCons(first.f, Frames(stream[|first.f|..], cap));
      assert stream == first.f + stream[|first.f|..];
    } else {
      rest := stream;
      assert [] + rest == stream;
    }
  }
}
