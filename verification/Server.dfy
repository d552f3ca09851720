/** fdkd.c: one connection's loop. */
module Server {
  import opened Bytes
  import opened Machines
  import opened Packet
  import opened Transfer
  import opened Handler

  /** The machine a run of frames leaves, the replies made, and whether a
      DISCONNECT ended the run. */
  datatype Run = Run(m: Machine, replies: seq<Bytes>, closed: bool)

  /** One reply per frame, up to and including the first DISCONNECT. */
  function HandleAll(m: Machine, fs: seq<Bytes>): (r: Run)
    requires forall i :: 0 <= i < |fs| ==> |fs[i]| >= HEADER
    decreases |fs|
  {
    if fs == [] then Run(m, [], false)
    else
      var h := Handle(m, fs[0]);
      if h.close then Run(h.m, [h.reply], true)
      else
        var r := HandleAll(h.m, fs[1..]);
        r.(replies := [h.reply] + r.replies)
  }

  datatype Served = Served(m: Machine, out: Bytes)

  /** The same when the peer accepts only `room` more bytes: the loop ends at the
      first reply that does not fit. */
  function Serve(m: Machine, fs: seq<Bytes>, room: nat): Served
    requires forall i :: 0 <= i < |fs| ==> |fs[i]| >= HEADER
    decreases |fs|
  {
    if fs == [] then Served(m, [])
    else
      var h := Handle(m, fs[0]);
      if h.close || |h.reply| > room then Served(h.m, h.reply[..Min(|h.reply|, room)])
      else
        var s := Serve(h.m, fs[1..], room - |h.reply|);
        s.(out := h.reply + s.out)
  }

  /** One round of the loop; `stop` when the connection is to be closed. */
  method ServeOne(sock: Socket, hw: Hardware, packet: array<byte>) returns (stop: bool)
    requires packet.Length == MAX_PKT
    modifies sock, hw, packet
    ensures match FirstPacket(old(sock.incoming), MAX_PKT)
      case Frame(f) =>
        var h := Handle(old(hw.m), f);
        var n := Min(|h.reply|, old(sock.room));
        && hw.m == h.m && stop == (h.close || n < |h.reply|)
        && sock.outgoing == old(sock.outgoing) + h.reply[..n] && sock.room == old(sock.room) - n
        && (!stop ==> sock.incoming == old(sock.incoming)[|f|..])
      case _ => stop && hw.m == old(hw.m) && sock.outgoing == old(sock.outgoing)
  {
    hide Handle, FirstPacket;
    var r := ReadPacket(sock, packet);
    if r <= 0 {
      return true;
    }
    ghost var f := packet[..r];
    ghost var h := Handle(hw.m, f);
    ReplyFramed(hw.m, f);
    var close := HandleRequestPacket(packet, hw, r);
    PacketLength(packet, h.reply);
    ghost var n := Min(|h.reply|, sock.room);
    assert packet[..n] == packet[..|h.reply|][..n] == h.reply[..n];
    var ok := WritePacket(sock, packet);
    stop := close || !ok;
  }

  /** Serves one connection until the stream ends, a frame is bad, the client
      disconnects or the peer stops reading. What it sends and does depends on
      the frames of the incoming stream alone, however the stream was split. */
  method HandleIncomingConnection(sock: Socket, hw: Hardware)
    modifies sock, hw
    ensures var s := Serve(old(hw.m), Frames(old(sock.incoming), MAX_PKT), old(sock.room));
      hw.m == s.m && sock.outgoing == old(sock.outgoing) + s.out
  {
    hide Handle, FirstPacket, Serve, Frames;
    var packet := new byte[MAX_PKT](_ => 0);
    ghost var goal := Serve(hw.m, Frames(sock.incoming, MAX_PKT), sock.room);
    ghost var sent: Bytes := [];
    var stop := false;
    while !stop
      invariant fresh(packet)
      invariant sock.outgoing == old(sock.outgoing) + sent
      invariant var s := Serve(hw.m, Frames(sock.incoming, MAX_PKT), sock.room);
        if stop then goal == Served(hw.m, sent) else goal == Served(s.m, sent + s.out)
      decreases !stop, |sock.incoming|
    {
      ghost var stream, m, room := sock.incoming, hw.m, sock.room;
      stop := ServeOne(sock, hw, packet);
      ghost var first := FirstPacket(stream, MAX_PKT);
      if first.Frame? {
        FramesCons(stream, first.f);
        ghost var reply := Handle(m, first.f).reply;
        ServeCons(m, first.f, Frames(stream[|first.f|..], MAX_PKT), room);
        sent := sent + reply[..Min(|reply|, room)];
      } else {
        NothingToServe(m, stream, room);
      }
    }
  }

  lemma ServeCons(m: Machine, f: Bytes, fs: seq<Bytes>, room: nat)
    requires |f| >= HEADER && forall i :: 0 <= i < |fs| ==> |fs[i]| >= HEADER
    ensures var h := Handle(m, f);
      Serve(m, [f] + fs, room) ==
        if h.close || |h.reply| > room then Served(h.m, h.reply[..Min(|h.reply|, room)])
        else
          var s := Serve(h.m, fs, room - |h.reply|);
          Served(s.m, h.reply[..Min(|h.reply|, room)] + s.out)
  {
    hide Handle;
    assert ([f] + fs)[1..] == fs;
    var h := Handle(m, f);
    assert h.reply[..|h.reply|] == h.reply;
  }

  lemma NothingToServe(m: Machine, stream: Bytes, room: nat)
    requires !FirstPacket(stream, MAX_PKT).Frame?
    ensures Serve(m, Frames(stream, MAX_PKT), room) == Served(m, [])
  {
    hide FirstPacket;
  }

  lemma FramesCons(stream: Bytes, f: Bytes)
    requires FirstPacket(stream, MAX_PKT) == Frame(f)
    ensures Frames(stream, MAX_PKT) == [f] + Frames(stream[|f|..], MAX_PKT)
    ensures ([f] + Frames(stream[|f|..], MAX_PKT))[1..] == Frames(stream[|f|..], MAX_PKT)
  {
    hide FirstPacket;
  }

  lemma PacketLength(packet: array<byte>, reply: Bytes)
    requires packet.Length == MAX_PKT && Holds(packet, reply)
    requires HEADER <= |reply| && PktLen(reply) == |reply|
    ensures PktLen(packet[..HEADER]) == |reply|
  {
    assert packet[..HEADER][4..8] == packet[..|reply|][4..8];
  }

  /** However little the peer accepts, it gets a prefix of the replies; when it
      accepts them all, exactly the replies, and every frame took effect. */
  lemma {:induction false} ServePrefix(m: Machine, fs: seq<Bytes>, room: nat)
    requires forall i :: 0 <= i < |fs| ==> |fs[i]| >= HEADER
    ensures var s, r := Serve(m, fs, room), HandleAll(m, fs);
      var all := Concat(r.replies);
      && s.out == all[..Min(|all|, room)]
      && (room >= |all| ==> s.m == r.m)
    decreases |fs|
  {
    hide Handle;
    if fs != [] {
      var h := Handle(m, fs[0]);
      if h.close {
        ConcatCons(h.reply, []);
        ConcatNothing();
      } else {
        var r := HandleAll(h.m, fs[1..]);
        ConcatCons(h.reply, r.replies);
        if |h.reply| <= room {
          ServePrefix(h.m, fs[1..], room - |h.reply|);
        }
      }
    }
  }

  /** Exactly one reply per handled frame: all frames, or those up to the first
      DISCONNECT; each reply is a whole packet. */
  lemma {:induction false} OneReplyEach(m: Machine, fs: seq<Bytes>)
    requires forall i :: 0 <= i < |fs| ==> |fs[i]| >= HEADER
    ensures var r := HandleAll(m, fs);
      && |r.replies| <= |fs|
      && (!r.closed ==> |r.replies| == |fs|)
      && (r.closed ==> |r.replies| > 0 && Opcode(fs[|r.replies| - 1]) == REQ_DISCONNECT)
      && (forall i :: 0 <= i < |r.replies| - (if r.closed then 1 else 0) ==> Opcode(fs[i]) != REQ_DISCONNECT)
      && (forall i :: 0 <= i < |r.replies| ==> WellFramed(r.replies[i], MAX_PKT))
    decreases |fs|
  {
    hide Handle, WellFramed;
    if fs != [] {
      CloseIsDisconnect(m, fs[0]);
      var h := Handle(m, fs[0]);
      if !h.close {
        OneReplyEach(h.m, fs[1..]);
        var r := HandleAll(h.m, fs[1..]);
        forall i | 0 <= i < |r.replies| + 1 - (if r.closed then 1 else 0) ensures Opcode(fs[i]) != REQ_DISCONNECT {
          if i > 0 { assert fs[i] == fs[1..][i - 1]; }
        }
      }
    }
  }

  lemma CloseIsDisconnect(m: Machine, f: Bytes)
    requires |f| >= HEADER
    ensures Handle(m, f).close <==> Opcode(f) == REQ_DISCONNECT
    ensures WellFramed(Handle(m, f).reply, MAX_PKT)
  {
    hide Perform, Reply, DecodeRead, DecodeWrite;
    ReplyFramed(m, f);
  }

  /** Which streams are answered at all: to a peer that reads, the server sends
      something exactly when a header arrives, the length it announces lies in
      8..8192 and that many bytes arrive; otherwise it closes in silence. What it sends first is then a
      reply to that packet, a NACK exactly when the packet does not decode. */
  lemma AnsweredIffFramed(m: Machine, stream: Bytes, room: nat)
    ensures var s := Serve(m, Frames(stream, MAX_PKT), room);
      var framed := |stream| >= HEADER && HEADER <= PktLen(stream) <= MAX_PKT && PktLen(stream) <= |stream|;
      && (s.out != [] <==> framed && room > 0)
      && (!framed ==> s.m == m)
      && (framed ==>
           var f := stream[..PktLen(stream)];
           var r := Handle(m, f).reply;
           && Min(|r|, room) <= |s.out| && s.out[..Min(|r|, room)] == r[..Min(|r|, room)]
           && (Opcode(r) == RSP_NACK <==> Decode(f).None?))
  {
    hide Handle, Serve, Frames, Decode, Opcode;
    match FirstPacket(stream, MAX_PKT)
    case Frame(f) =>
      FramesCons(stream, f);
      ServeCons(m, f, Frames(stream[|f|..], MAX_PKT), room);
      ReplyFramed(m, f);
      NackIffMalformed(m, f);
    case _ => NothingToServe(m, stream, room);
  }

  /** Not every malformed request is NACKed: a header that announces 7 bytes ends
      the connection without a word. */
  lemma BadHeaderCloses(m: Machine, room: nat)
    ensures Serve(m, Frames([1, 0, 0, 0, 7, 0, 0, 0], MAX_PKT), room) == Served(m, [])
  {
    hide Serve, Frames;
    var stream: Bytes := [1, 0, 0, 0, 7, 0, 0, 0];
    assert stream[4..8] == [7, 0, 0, 0] == Le(4, 7);
    Spans();
    FieldExact(4, 7);
    NothingToServe(m, stream, room);
  }
}
