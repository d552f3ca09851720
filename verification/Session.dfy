/** A client and the server on one connection, as a state machine whose steps are
    the partial reads and writes of either side in any order.  Whatever the
    schedule, the client's program cannot tell the session from calling the back
    ends directly. */
module Session {
  import opened Bytes
  import opened Listing
  import opened Machines
  import opened Packet
  import opened Transfer
  import opened Handler
  import opened Client
  import opened Server

  type Call = q: Request | Sound(q) witness Request(REQ_CONNECT, 0, 0, None)

  /** A client program: the next call, given every outcome so far. */
  type Program = seq<Outcome> -> Option<Call>

  /** Where the client is in executeFunction: between calls, with `rest` of the
      request still to write, or with `got` of the reply read. */
  datatype ClientPc = Ready | Sending(q: Call, rest: Bytes) | Awaiting(q: Call, got: Bytes)

  /** Where the server is in its loop: with `got` of a request read, with `rest`
      of a reply still to write, or past it. */
  datatype ServerPc = Receiving(got: Bytes) | Replying(rest: Bytes, close: bool) | Gone

  datatype World = World(
    m: Machine,
    c2s: Bytes,   // written by the client, not yet read
    s2c: Bytes,   // written by the server, not yet read
    client: ClientPc,
    server: ServerPc,
    results: seq<Outcome>)

  function Init(m: Machine): World { World(m, [], [], Ready, Receiving([]), []) }

  /** How many bytes a reader that holds `got` asks for next; None when the
      header it holds announces an impossible length. */
  function Wanted(got: Bytes): Option<nat> {
    if |got| < HEADER then Some(HEADER - |got|)
    else if PktLen(got) < HEADER || PktLen(got) > MAX_PKT || PktLen(got) < |got| then None
    else Some(PktLen(got) - |got|)
  }

  /** The steps. `n` bytes move at a time; a closed peer fails a write or ends a
      read; EINTR changes nothing. */
  datatype Step =
    | Begin
    | ClientWrite(n: nat)
    | ClientWriteFails
    | ClientRead(n: nat)
    | ClientEof
    | ServerRead(n: nat)
    | ServerWrite(n: nat)
    | Interrupted

  predicate Readable(got: Bytes, pipe: Bytes, n: nat) {
    Wanted(got).Some? && 0 < n <= Wanted(got).value && n <= |pipe|
  }

  predicate Enabled(prog: Program, w: World, s: Step) {
    match s
    case Begin => w.client.Ready? && prog(w.results).Some?
    case ClientWrite(n) => w.client.Sending? && 0 < n <= |w.client.rest|
    case ClientWriteFails => w.client.Sending? && w.server.Gone?
    case ClientRead(n) => w.client.Awaiting? && Readable(w.client.got, w.s2c, n)
    case ClientEof => w.client.Awaiting? && w.server.Gone? && w.s2c == []
    case ServerRead(n) => w.server.Receiving? && Readable(w.server.got, w.c2s, n)
    case ServerWrite(n) => w.server.Replying? && 0 < n <= |w.server.rest|
    case Interrupted => true
  }

  /** The call returns with this outcome. */
  function Return(w: World, o: Outcome): World {
    w.(client := Ready, results := w.results + [o])
  }

  function AfterClientRead(w: World, q: Call, got: Bytes): World {
    match Wanted(got)
    case None => Return(w, Failed)
    case Some(k) =>
      if |got| >= HEADER && k == 0 then Return(w, Interpret(q.op, got)) else w.(client := Awaiting(q, got))
  }

  function AfterServerRead(w: World, got: Bytes): World {
    match Wanted(got)
    case None => w.(server := Gone)
    case Some(k) =>
      if |got| >= HEADER && k == 0 then
        var h := Handle(w.m, got);
        w.(m := h.m, server := Replying(h.reply, h.close))
      else w.(server := Receiving(got))
  }

  function Apply(prog: Program, w: World, s: Step): World
    requires Enabled(prog, w, s)
  {
    match s
    case Begin =>
      var q := prog(w.results).value;
      if Encode(q).None? then Return(w, Failed) else w.(client := Sending(q, Encode(q).value))
    case ClientWrite(n) =>
      var rest := w.client.rest[n..];
      w.(c2s := w.c2s + w.client.rest[..n],
         client := if rest == [] then Awaiting(w.client.q, []) else w.client.(rest := rest))
    case ClientWriteFails => Return(w, Failed)
    case ClientRead(n) =>
      AfterClientRead(w.(s2c := w.s2c[n..]), w.client.q, w.client.got + w.s2c[..n])
    case ClientEof => Return(w, Failed)
    case ServerRead(n) =>
      AfterServerRead(w.(c2s := w.c2s[n..]), w.server.got + w.c2s[..n])
    case ServerWrite(n) =>
      var rest := w.server.rest[n..];
      w.(s2c := w.s2c + w.server.rest[..n],
         server := if rest != [] then w.server.(rest := rest) else if w.server.close then Gone else Receiving([]))
    case Interrupted => w
  }

  /** The world after a schedule, if the schedule can happen. */
  function After(prog: Program, m0: Machine, steps: seq<Step>): Option<World> {
    if steps == [] then Some(Init(m0))
    else
      var k := |steps| - 1;
      match After(prog, m0, steps[..k])
      case Some(w) => if Enabled(prog, w, steps[k]) then Some(Apply(prog, w, steps[k])) else None
      case None => None
  }

  // -------------------------------------------------------- the specification

  /** The same program calling the back ends in its own process. `open` turns
      false at DISCONNECT; calls after that fail. */
  datatype Local = Local(m: Machine, open: bool, results: seq<Outcome>)

  function LocalCall(l: Local, q: Call): Local {
    if Intended(q).Refused? || !l.open then l.(results := l.results + [Failed])
    else
      var c := Direct(l.m, q);
      Local(c.m, q.op != REQ_DISCONNECT, l.results + [c.outcome])
  }

  /** The first `n` calls of the program. */
  function LocalRun(prog: Program, m0: Machine, n: nat): Local {
    if n == 0 then Local(m0, true, [])
    else
      var l := LocalRun(prog, m0, n - 1);
      match prog(l.results) case Some(q) => LocalCall(l, q) case None => l
  }

  // --------------------------------------------------------------- invariant

  /** No call is in progress: nothing in flight, machines agree. */
  ghost predicate Quiet(l: Local, w: World) {
    && w.m == l.m && w.s2c == []
    && if l.open then w.server == Receiving([]) && w.c2s == [] else w.server == Gone
  }

  /** The request is on its way: what was read, what is in the pipe and what is
      unsent add up to it, and the server has not acted yet. */
  ghost predicate RequestInFlight(l: Local, w: World, f: Bytes, unsent: Bytes) {
    && w.m == l.m && w.s2c == [] && w.server.Receiving?
    && w.server.got + w.c2s + unsent == f && |w.server.got| < |f|
  }

  /** The server has acted once and its reply is on its way. */
  ghost predicate ReplyInFlight(l: Local, w: World, f: Bytes, got: Bytes)
    requires |f| >= HEADER
  {
    var h := Handle(l.m, f);
    && w.m == h.m && w.c2s == [] && |got| < |h.reply|
    && match w.server
       case Replying(rest, close) => rest != [] && close == h.close && got + w.s2c + rest == h.reply
       case Receiving(g) => g == [] && !h.close && got + w.s2c == h.reply
       case Gone => h.close && got + w.s2c == h.reply
  }

  /** The call in progress is the program's next, and the client did emit it. */
  ghost predicate Current(prog: Program, w: World, q: Call) {
    prog(w.results) == Some(q) && Encode(q).Some?
  }

  ghost predicate Inv(prog: Program, m0: Machine, w: World) {
    var l := LocalRun(prog, m0, |w.results|);
    && w.results == l.results
    && match w.client
       case Ready => Quiet(l, w)
       case Sending(q, rest) =>
         && Current(prog, w, q) && rest != []
         && if l.open then RequestInFlight(l, w, Encode(q).value, rest) else Quiet(l, w)
       case Awaiting(q, got) =>
         && Current(prog, w, q)
         && if !l.open then Quiet(l, w) && got == []
            else (RequestInFlight(l, w, Encode(q).value, []) && got == [])
                 || ReplyInFlight(l, w, Encode(q).value, got)
  }

  /** A reader holding part of a whole packet knows how much more to ask for,
      and never asks beyond it. */
  lemma WantedOfPart(f: Bytes, got: Bytes, more: Bytes)
    requires WellFramed(f, MAX_PKT) && got + more == f && more != []
    ensures Wanted(got).Some? && 0 < Wanted(got).value <= |more|
    ensures |got| >= HEADER ==> Wanted(got).value == |more|
  {
    if |got| >= HEADER { assert got[4..8] == f[4..8]; }
  }

  lemma WantedOfWhole(f: Bytes)
    requires WellFramed(f, MAX_PKT)
    ensures Wanted(f) == Some(0)
  {
  }

  lemma BeginKeeps(prog: Program, m0: Machine, w: World)
    requires Inv(prog, m0, w) && Enabled(prog, w, Begin)
    ensures Inv(prog, m0, Apply(prog, w, Begin))
  {
    hide Handle, Direct, Encode, Intended;
    var q := prog(w.results).value;
    DecodeOfEncode(q);
    var l := LocalRun(prog, m0, |w.results|);
    if Encode(q).None? {
      assert LocalRun(prog, m0, |w.results| + 1) == LocalCall(l, q);
    }
  }

  lemma ClientWriteKeeps(prog: Program, m0: Machine, w: World, n: nat)
    requires Inv(prog, m0, w) && Enabled(prog, w, ClientWrite(n))
    ensures Inv(prog, m0, Apply(prog, w, ClientWrite(n)))
  {
    hide Handle, Encode, LocalRun;
    var rest := w.client.rest;
    assert rest == rest[..n] + rest[n..];
    var l := LocalRun(prog, m0, |w.results|);
    if l.open {
      assert w.server.got + (w.c2s + rest[..n]) + rest[n..] == w.server.got + w.c2s + rest;
      if rest[n..] == [] {
        assert w.server.got + (w.c2s + rest[..n]) + [] == w.server.got + w.c2s + rest;
      }
    }
  }

  /** After DISCONNECT every call that reaches the wire fails. */
  lemma ClosedCallFails(prog: Program, m0: Machine, w: World)
    requires Inv(prog, m0, w) && (w.client.Sending? || w.client.Awaiting?)
    requires !LocalRun(prog, m0, |w.results|).open
    ensures Inv(prog, m0, Return(w, Failed))
  {
    hide Handle, Encode, Direct, Intended;
    var l := LocalRun(prog, m0, |w.results|);
    assert LocalRun(prog, m0, |w.results| + 1) == LocalCall(l, w.client.q);
  }

  lemma ClosedWhenGone(prog: Program, m0: Machine, w: World)
    requires Inv(prog, m0, w)
    requires w.server.Gone? && (w.client.Sending? || (w.client.Awaiting? && w.s2c == []))
    ensures !LocalRun(prog, m0, |w.results|).open
  {
    hide Handle, Encode, LocalRun;
  }

  /** More of the request has arrived. */
  lemma ServerReadsPart(l: Local, w: World, f: Bytes, unsent: Bytes, n: nat)
    requires RequestInFlight(l, w, f, unsent) && WellFramed(f, MAX_PKT) && Readable(w.server.got, w.c2s, n)
    ensures var got := w.server.got + w.c2s[..n];
      var w' := AfterServerRead(w.(c2s := w.c2s[n..]), got);
      && (|got| < |f| ==> RequestInFlight(l, w', f, unsent) && w' == w.(c2s := w.c2s[n..], server := w'.server))
      && (|got| >= |f| ==> got == f && unsent == [] && w.c2s[n..] == [])
      && (|got| >= |f| ==> var h := Handle(l.m, f); w' == w.(c2s := [], m := h.m, server := Replying(h.reply, h.close)))
  {
    hide Handle, PktLen, WellFramed;
    var got, more := w.server.got, w.c2s + unsent;
    assert got + more == f;
    WantedOfPart(f, got, more);
    var got' := got + w.c2s[..n];
    assert w.c2s == w.c2s[..n] + w.c2s[n..];
    assert got' + w.c2s[n..] + unsent == f;
    if |got'| == |f| {
      assert got' == f;
      WantedOfWhole(f);
      WellFramedLength(f);
    } else {
      WantedOfPart(f, got', w.c2s[n..] + unsent);
      assert got' + (w.c2s[n..] + unsent) == f;
    }
  }

  lemma WellFramedLength(f: Bytes)
    requires WellFramed(f, MAX_PKT)
    ensures |f| >= HEADER
  {
  }

  lemma ServerReadKeeps(prog: Program, m0: Machine, w: World, n: nat)
    requires Inv(prog, m0, w) && Enabled(prog, w, ServerRead(n))
    ensures Inv(prog, m0, Apply(prog, w, ServerRead(n)))
  {
    hide Handle, LocalRun, Encode, WellFramed, PktLen, Wanted, AfterServerRead;
    var l := LocalRun(prog, m0, |w.results|);
    var q := w.client.q;
    var f := Encode(q).value;
    DecodeOfEncode(q);
    var unsent := if w.client.Sending? then w.client.rest else [];
    assert RequestInFlight(l, w, f, unsent);
    ServerReadsPart(l, w, f, unsent, n);
    ReplyFramed(l.m, f);
    var reply := Handle(l.m, f).reply;
    assert [] + [] + reply == reply;
  }

  lemma ServerWriteKeeps(prog: Program, m0: Machine, w: World, n: nat)
    requires Inv(prog, m0, w) && Enabled(prog, w, ServerWrite(n))
    ensures Inv(prog, m0, Apply(prog, w, ServerWrite(n)))
  {
    hide Handle, LocalRun, Encode;
    var rest := w.server.rest;
    var got := w.client.got;
    assert rest == rest[..n] + rest[n..];
    assert got + (w.s2c + rest[..n]) + rest[n..] == got + w.s2c + rest;
    if rest[n..] == [] {
      assert got + (w.s2c + rest[..n]) == got + w.s2c + rest;
    }
  }

  lemma NextCall(prog: Program, m0: Machine, n: nat, q: Call)
    requires prog(LocalRun(prog, m0, n).results) == Some(q)
    ensures LocalRun(prog, m0, n + 1) == LocalCall(LocalRun(prog, m0, n), q)
  {
    hide LocalCall;
  }

  lemma ClientReadKeeps(prog: Program, m0: Machine, w: World, n: nat)
    requires Inv(prog, m0, w) && Enabled(prog, w, ClientRead(n))
    ensures Inv(prog, m0, Apply(prog, w, ClientRead(n)))
  {
    hide Handle, Encode, WellFramed, PktLen, Direct, Interpret, Intended, LocalRun;
    var l := LocalRun(prog, m0, |w.results|);
    var q, got := w.client.q, w.client.got;
    var f := Encode(q).value;
    DecodeOfEncode(q);
    assert ReplyInFlight(l, w, f, got);
    var h := Handle(l.m, f);
    ReplyIsPacket(l.m, f);
    var unsent := if w.server.Replying? then w.server.rest else [];
    assert got + (w.s2c + unsent) == h.reply;
    WantedOfPart(h.reply, got, w.s2c + unsent);
    var got' := got + w.s2c[..n];
    assert w.s2c == w.s2c[..n] + w.s2c[n..];
    assert got' + (w.s2c[n..] + unsent) == h.reply;
    if |got'| == |h.reply| {
      assert got' == h.reply;
      WantedOfWhole(h.reply);
      WireIsDirect(l.m, q);
      NextCall(prog, m0, |w.results|, q);
    } else {
      WantedOfPart(h.reply, got', w.s2c[n..] + unsent);
      assert got' + w.s2c[n..] + unsent == h.reply;
      assert unsent == [] ==> got' + w.s2c[n..] == h.reply;
    }
  }

  lemma ReplyIsPacket(m: Machine, f: Bytes)
    requires |f| >= HEADER
    ensures WellFramed(Handle(m, f).reply, MAX_PKT)
  {
    hide Handle;
    ReplyFramed(m, f);
  }

  lemma StepKeeps(prog: Program, m0: Machine, w: World, s: Step)
    requires Inv(prog, m0, w) && Enabled(prog, w, s)
    ensures Inv(prog, m0, Apply(prog, w, s))
  {
    hide Inv;
    match s
    case Begin => BeginKeeps(prog, m0, w);
    case ClientWrite(n) => ClientWriteKeeps(prog, m0, w, n);
    case ClientWriteFails => ClosedWhenGone(prog, m0, w); ClosedCallFails(prog, m0, w);
    case ClientRead(n) => ClientReadKeeps(prog, m0, w, n);
    case ClientEof => ClosedWhenGone(prog, m0, w); ClosedCallFails(prog, m0, w);
    case ServerRead(n) => ServerReadKeeps(prog, m0, w, n);
    case ServerWrite(n) => ServerWriteKeeps(prog, m0, w, n);
    case Interrupted =>
  }

  lemma {:induction false} ReachableInv(prog: Program, m0: Machine, steps: seq<Step>)
    requires After(prog, m0, steps).Some?
    ensures Inv(prog, m0, After(prog, m0, steps).value)
    decreases |steps|
  {
    hide Inv, Apply, Enabled;
    if steps == [] {
      InitInv(prog, m0);
    } else {
      var k := |steps| - 1;
      ReachableInv(prog, m0, steps[..k]);
      StepKeeps(prog, m0, After(prog, m0, steps[..k]).value, steps[k]);
    }
  }

  lemma InitInv(prog: Program, m0: Machine)
    ensures Inv(prog, m0, Init(m0))
  {
  }

  /** Session refinement. Along every schedule of every program on every machine,
      the outcomes the client has seen are those of the same number of direct
      calls; between calls the machine is the one those calls leave, and during a
      call it is that one or the one the current call will leave. */
  lemma SessionRefinesDirect(prog: Program, m0: Machine, steps: seq<Step>)
    requires After(prog, m0, steps).Some?
    ensures var w := After(prog, m0, steps).value;
      var l := LocalRun(prog, m0, |w.results|);
      && w.results == l.results
      && (w.client.Ready? ==> w.m == l.m && w.s2c == [])
      && (w.m == l.m || (prog(l.results).Some? && l.open && w.m == Direct(l.m, prog(l.results).value).m))
  {
    hide Handle, Direct, Encode, LocalRun, Apply, Enabled;
    ReachableInv(prog, m0, steps);
    var w := After(prog, m0, steps).value;
    if w.client.Awaiting? || w.client.Sending? {
      WireIsDirect(LocalRun(prog, m0, |w.results|).m, w.client.q);
    }
  }

  /** The step-wise reader and ReadPacket agree on what is a whole packet, what
      is hopeless and what is still too short: while it asks for more, the stream
      must not end, and once the header is in, the bytes it asks for complete the
      packet. */
  lemma ReaderIsReadPacket(got: Bytes, rest: Bytes)
    ensures |got| >= HEADER && Wanted(got) == Some(0) <==> FirstPacket(got, MAX_PKT) == Frame(got)
    ensures |got| >= HEADER && Wanted(got) == Some(0) ==> FirstPacket(got + rest, MAX_PKT) == Frame(got)
    ensures |got| >= HEADER && (PktLen(got) < HEADER || PktLen(got) > MAX_PKT) ==>
      Wanted(got) == None && FirstPacket(got + rest, MAX_PKT) == Bad
    ensures Wanted(got).Some? && Wanted(got).value > 0 ==> !FirstPacket(got, MAX_PKT).Frame?
    ensures |got| >= HEADER && Wanted(got) == Some(|rest|) ==> FirstPacket(got + rest, MAX_PKT) == Frame(got + rest)
  {
    if |got| >= HEADER {
      assert (got + rest)[4..8] == got[4..8];
      assert (got + rest)[..|got + rest|] == got + rest;
      if FirstPacket(got, MAX_PKT) == Frame(got) {
        FirstPacketOfFrame(got, rest, MAX_PKT);
      }
      if Wanted(got) == Some(0) {
        assert got[..|got|] == got;
        FirstPacketOfFrame(got, rest, MAX_PKT);
      }
    }
  }

  // ------------------------------------------------- no deadlock, termination

  /** How much work the current call still takes: unsent bytes count twice, bytes
      in a pipe once, and a request not yet handled stands for a full reply. */
  function Rank(w: World): nat {
    var unsent := if w.client.Sending? then |w.client.rest| else 0;
    var owed := if w.server.Replying? then |w.server.rest| else 0;
    var pending := w.server.Receiving? && (w.client.Sending? || w.c2s != []);
    2 * unsent + |w.c2s| + (if pending then 2 * MAX_PKT + 1 else 0) + 2 * owed + |w.s2c|
    + (if w.client.Ready? then 0 else 1)
  }

  lemma ServerReadDecreases(prog: Program, m0: Machine, w: World, n: nat)
    requires Inv(prog, m0, w) && Enabled(prog, w, ServerRead(n))
    ensures Rank(Apply(prog, w, ServerRead(n))) < Rank(w)
  {
    hide Handle, LocalRun, Encode, WellFramed, PktLen, Wanted;
    var q := w.client.q;
    var f := Encode(q).value;
    DecodeOfEncode(q);
    var unsent := if w.client.Sending? then w.client.rest else [];
    assert w.server.got + (w.c2s + unsent) == f;
    WantedOfPart(f, w.server.got, w.c2s + unsent);
    var got, more := w.server.got + w.c2s[..n], w.c2s[n..] + unsent;
    assert got + more == f;
    if more == [] {
      assert got == f;
      WantedOfWhole(f);
      ReplySize(w.m, f);
    } else {
      WantedOfPart(f, got, more);
    }
  }

  lemma ClientReadDecreases(prog: Program, w: World, n: nat)
    requires Enabled(prog, w, ClientRead(n))
    ensures Rank(Apply(prog, w, ClientRead(n))) < Rank(w)
  {
    hide Interpret, Wanted;
  }

  /** Every step but the start of a call and an interrupt brings the call nearer
      its end. */
  lemma StepDecreases(prog: Program, m0: Machine, w: World, s: Step)
    requires Inv(prog, m0, w) && Enabled(prog, w, s) && s != Begin && s != Interrupted
    ensures Rank(Apply(prog, w, s)) < Rank(w)
  {
    hide Inv, Readable;
    match s
    case ServerRead(n) => ServerReadDecreases(prog, m0, w, n);
    case ClientRead(n) => ClientReadDecreases(prog, w, n);
    case ServerWrite(n) => ServerWriteDecreases(prog, m0, w, n);
    case ClientWrite(n) => ClientWriteDecreases(prog, w, n);
    case ClientWriteFails =>
    case ClientEof =>
  }

  lemma ServerWriteDecreases(prog: Program, m0: Machine, w: World, n: nat)
    requires Inv(prog, m0, w) && Enabled(prog, w, ServerWrite(n))
    ensures Rank(Apply(prog, w, ServerWrite(n))) < Rank(w)
  {
    hide Handle, LocalRun, Encode;
  }

  lemma ClientWriteDecreases(prog: Program, w: World, n: nat)
    requires Enabled(prog, w, ClientWrite(n))
    ensures Rank(Apply(prog, w, ClientWrite(n))) < Rank(w)
  {
  }

  lemma ReplySize(m: Machine, f: Bytes)
    requires |f| >= HEADER
    ensures |Handle(m, f).reply| <= MAX_PKT
  {
    hide Handle;
    ReplyFramed(m, f);
  }

  /** No schedule gets stuck: unless the program is over, some step that is not an
      interrupt can always be taken. */
  lemma NeverStuck(prog: Program, m0: Machine, w: World) returns (s: Step)
    requires Inv(prog, m0, w) && !(w.client.Ready? && prog(w.results).None?)
    ensures s != Interrupted && Enabled(prog, w, s)
  {
    hide Handle, LocalRun, Encode, WellFramed, PktLen, Wanted;
    var l := LocalRun(prog, m0, |w.results|);
    match w.client
    case Ready => s := Begin;
    case Sending(q, rest) => s := ClientWrite(|rest|);
    case Awaiting(q, got) =>
      var f := Encode(q).value;
      DecodeOfEncode(q);
      if !l.open {
        s := ClientEof;
      } else if RequestInFlight(l, w, f, []) && got == [] {
        assert w.server.got + w.c2s == f by { assert w.c2s + [] == w.c2s; }
        WantedOfPart(f, w.server.got, w.c2s);
        s := ServerRead(1);
      } else if w.server.Replying? {
        s := ServerWrite(|w.server.rest|);
      } else {
        ReplyIsPacket(l.m, f);
        WantedOfPart(Handle(l.m, f).reply, got, w.s2c);
        s := ClientRead(1);
      }
  }

  function Moves(steps: seq<Step>): nat {
    if steps == [] then 0
    else Moves(steps[..|steps| - 1]) + (if steps[|steps| - 1] == Interrupted then 0 else 1)
  }

  /** However it is scheduled, a call in progress takes at most `Rank` steps that
      are not interrupts, so it returns. */
  lemma {:induction false} CallsReturn(prog: Program, m0: Machine, past: seq<Step>, future: seq<Step>)
    requires After(prog, m0, past).Some? && After(prog, m0, past + future).Some?
    requires Begin !in future
    ensures Moves(future) + Rank(After(prog, m0, past + future).value) <= Rank(After(prog, m0, past).value)
    decreases |future|
  {
    hide Rank, Apply, Enabled;
    if future == [] {
      assert past + future == past;
    } else {
      var k := |future| - 1;
      var all := past + future;
      assert all[..|all| - 1] == past + future[..k] && all[|all| - 1] == future[k];
      CallsReturn(prog, m0, past, future[..k]);
      var w := After(prog, m0, past + future[..k]).value;
      ReachableInv(prog, m0, past + future[..k]);
      if future[k] != Interrupted {
        StepDecreases(prog, m0, w, future[k]);
      } else {
        InterruptIsIdle(prog, w);
      }
    }
  }

  lemma InterruptIsIdle(prog: Program, w: World)
    ensures Enabled(prog, w, Interrupted) && Apply(prog, w, Interrupted) == w
  {
  }

  // -------------------------------------------- the same, stream by stream

  /** The request stream of the program's first `n` calls, as frames. */
  function Emitted(prog: Program, m0: Machine, n: nat): (fs: seq<Bytes>)
    ensures forall i :: 0 <= i < |fs| ==> |fs[i]| >= HEADER
  {
    if n == 0 then []
    else
      var l, fs := LocalRun(prog, m0, n - 1), Emitted(prog, m0, n - 1);
      match prog(l.results)
      case Some(q) => if l.open && Encode(q).Some? then fs + [Encode(q).value] else fs
      case None => fs
  }

  lemma {:induction false} HandleOneMore(m: Machine, fs: seq<Bytes>, f: Bytes)
    requires |f| >= HEADER && forall i :: 0 <= i < |fs| ==> |fs[i]| >= HEADER
    requires !HandleAll(m, fs).closed
    ensures var r, h := HandleAll(m, fs), Handle(HandleAll(m, fs).m, f);
      HandleAll(m, fs + [f]) == Run(h.m, r.replies + [h.reply], h.close)
    decreases |fs|
  {
    hide Handle;
    if fs == [] {
      assert [] + [f] == [f] && [f][1..] == [];
    } else {
      HandleOneMore(Handle(m, fs[0]).m, fs[1..], f);
      assert (fs + [f])[1..] == fs[1..] + [f];
    }
  }

  /** What the connection loop makes of that stream is the direct run: the same
      machine, one reply per frame, closed exactly by DISCONNECT; and the reply to
      the next call is interpreted as that call's direct outcome. */
  lemma {:induction false} StreamRefinesDirect(prog: Program, m0: Machine, n: nat)
    ensures var l, fs := LocalRun(prog, m0, n), Emitted(prog, m0, n);
      var r := HandleAll(m0, fs);
      && r.m == l.m && r.closed == !l.open && |r.replies| == |fs|
      && Frames(Concat(fs), MAX_PKT) == fs
      && (l.open && prog(l.results).Some? && Encode(prog(l.results).value).Some? ==>
            var q := prog(l.results).value;
            var next := HandleAll(m0, Emitted(prog, m0, n + 1)).replies;
            && |next| == |fs| + 1 && next[..|fs|] == r.replies && |next[|fs|]| >= HEADER
            && LocalRun(prog, m0, n + 1).results == l.results + [Interpret(q.op, next[|fs|])])
  {
    hide Handle, Encode, Direct, Interpret, Intended, Frames;
    var l, fs := LocalRun(prog, m0, n), Emitted(prog, m0, n);
    if n > 0 {
      StreamRefinesDirect(prog, m0, n - 1);
      StreamStep(prog, m0, n - 1);
    }
    EmittedFramed(prog, m0, n);
    if l.open && prog(l.results).Some? && Encode(prog(l.results).value).Some? {
      StreamStep(prog, m0, n);
    }
  }

  /** So the connection loop, fed the program's requests and allowed to answer,
      leaves the direct run's machine and sends exactly the replies. */
  lemma ServerIsLocal(prog: Program, m0: Machine, n: nat, room: nat)
    requires room >= |Concat(HandleAll(m0, Emitted(prog, m0, n)).replies)|
    ensures var s := Serve(m0, Frames(Concat(Emitted(prog, m0, n)), MAX_PKT), room);
      && s.m == LocalRun(prog, m0, n).m
      && s.out == Concat(HandleAll(m0, Emitted(prog, m0, n)).replies)
  {
    hide Handle, Encode, LocalRun, Frames, Emitted;
    StreamRefinesDirect(prog, m0, n);
    var fs := Emitted(prog, m0, n);
    ServePrefix(m0, fs, room);
    var all := Concat(HandleAll(m0, fs).replies);
    assert all[..|all|] == all;
  }

  lemma StreamStep(prog: Program, m0: Machine, n: nat)
    requires var l, r := LocalRun(prog, m0, n), HandleAll(m0, Emitted(prog, m0, n));
      r.m == l.m && r.closed == !l.open && |r.replies| == |Emitted(prog, m0, n)|
    ensures var l, fs := LocalRun(prog, m0, n), Emitted(prog, m0, n);
      var l', fs' := LocalRun(prog, m0, n + 1), Emitted(prog, m0, n + 1);
      var r, r' := HandleAll(m0, fs), HandleAll(m0, fs');
      && r'.m == l'.m && r'.closed == !l'.open && |r'.replies| == |fs'|
      && (l.open && prog(l.results).Some? && Encode(prog(l.results).value).Some? ==>
            var q := prog(l.results).value;
            && |r'.replies| == |fs| + 1 && r'.replies[..|fs|] == r.replies && |r'.replies[|fs|]| >= HEADER
            && l'.results == l.results + [Interpret(q.op, r'.replies[|fs|])])
  {
    hide Handle, Encode, Direct, Interpret, Intended;
    var l, fs := LocalRun(prog, m0, n), Emitted(prog, m0, n);
    if prog(l.results).Some? {
      var q := prog(l.results).value;
      DecodeOfEncode(q);
      if l.open && Encode(q).Some? {
        HandleOneMore(m0, fs, Encode(q).value);
        WireIsDirect(l.m, q);
        ReplyIsPacket(l.m, Encode(q).value);
      }
    }
  }

  lemma {:induction false} EmittedFramed(prog: Program, m0: Machine, n: nat)
    ensures Frames(Concat(Emitted(prog, m0, n)), MAX_PKT) == Emitted(prog, m0, n)
  {
    var fs := Emitted(prog, m0, n);
    EmittedWhole(prog, m0, n);
    FramesUnique(fs, [], MAX_PKT);
    assert Concat(fs) + [] == Concat(fs);
  }

  lemma {:induction false} EmittedWhole(prog: Program, m0: Machine, n: nat)
    ensures forall i :: 0 <= i < |Emitted(prog, m0, n)| ==> WellFramed(Emitted(prog, m0, n)[i], MAX_PKT)
  {
    hide Encode, WellFramed, LocalRun;
    if n > 0 {
      EmittedWhole(prog, m0, n - 1);
      var l := LocalRun(prog, m0, n - 1);
      if prog(l.results).Some? { DecodeOfEncode(prog(l.results).value); }
    }
  }
}
