/** One connection of `src/server_loop.cpp`: bytes arrive and leave in pieces of any size, and
    requests are cut out of them. */
module Connections {
  import opened Bytes
  import opened Wire
  import opened Requests

  // ---------- one pass over a whole stream ----------

  /** What stands at the front of a stream of requests. */
  datatype Head = Incomplete | Refused | Next(cmd: Command, length: nat)

  ghost function Front(stream: bytes): (h: Head)
    ensures h.Next? ==> 4 <= h.length <= |stream|
  {
    if |stream| < 4 then Incomplete
    else
      var len := ReadU32(stream);
      if len > MAX_MSG then Refused
      else if 4 + len > |stream| then Incomplete
      else if NoCommand(stream[4..4 + len]) then Refused
      else
        var c: Command :| Fits(c) && stream[4..4 + len] == Body(c);
        Next(c, 4 + len)
  }

  /** The commands of a stream, the bytes after them, and whether those bytes end the connection. */
  datatype Pass = Pass(commands: seq<Command>, rest: bytes, closes: bool)

  function After(cmds: seq<Command>, p: Pass): Pass { Pass(cmds + p.commands, p.rest, p.closes) }

  lemma AfterAfter(cmds: seq<Command>, more: seq<Command>, p: Pass)
    ensures After(cmds, After(more, p)) == After(cmds + more, p)
    ensures After([], p) == p
    ensures p.commands == [] ==> After(more, p) == Pass(more, p.rest, p.closes)
    ensures After(cmds, Pass(more, p.rest, p.closes)) == Pass(cmds + more, p.rest, p.closes)
  {
    assert cmds + (more + p.commands) == cmds + more + p.commands;
  }

  ghost function Scan(stream: bytes): Pass
    decreases |stream|
  {
    match Front(stream)
    case Incomplete => Pass([], stream, false)
    case Refused => Pass([], stream, true)
    case Next(cmd, n) => After([cmd], Scan(stream[n..]))
  }

  /** Later bytes do not change what a complete front holds. */
  lemma FrontGrows(a: bytes, b: bytes)
    requires !Front(a).Incomplete?
    ensures Front(a + b) == Front(a)
  {
    hide Fits, Body;
    assert ReadU32(a + b) == ReadU32(a);
    var len := ReadU32(a);
    if len <= MAX_MSG {
      assert (a + b)[4..4 + len] == a[4..4 + len];
      if Front(a).Next? {
        var c, d := Front(a).cmd, Front(a + b).cmd;
        assert Body(c) + [] == Body(d);
        BodyPrefixFree(c, d, []);
      }
    }
  }

  /** A pass can be interrupted anywhere and resumed with the bytes it left over. */
  lemma {:induction false} ScanResumes(a: bytes, b: bytes)
    ensures var p := Scan(a);
            Scan(a + b) == if p.closes then Pass(p.commands, p.rest + b, true) else After(p.commands, Scan(p.rest + b))
    decreases |a|
  {
    hide Front, After;
    if Front(a).Refused? {
      FrontGrows(a, b);
    } else if Front(a).Next? {
      FrontGrows(a, b);
      var n, c, p := Front(a).length, [Front(a).cmd], Scan(a[Front(a).length..]);
      assert (a + b)[n..] == a[n..] + b;
      ScanResumes(a[n..], b);
      AfterAfter(c, p.commands, if p.closes then Pass([], p.rest + b, true) else Scan(p.rest + b));
      AfterAfter(c, p.commands, Pass([], p.rest, p.closes));
    } else {
      AfterAfter([], [], Scan(a + b));
    }
  }

  /** Once a prefix of the stream has ended the connection, the rest of the stream does not matter. */
  lemma DecidedEarly(stream: bytes, seen: bytes)
    requires seen <= stream && (seen == stream || Scan(seen).closes)
    ensures Scan(seen).commands == Scan(stream).commands && Scan(seen).closes == Scan(stream).closes
  {
    assert stream == seen + stream[|seen|..];
    ScanResumes(seen, stream[|seen|..]);
  }

  /** The requests of a client, one after the other. */
  function Requested(cmds: seq<Command>): bytes {
    if cmds == [] then [] else U32(|Body(cmds[0])|) + Body(cmds[0]) + Requested(cmds[1..])
  }

  /** What a client sends is what the server executes. */
  lemma {:induction false} RequestsScan(cmds: seq<Command>, tail: bytes)
    requires forall c :: c in cmds ==> Fits(c)
    ensures Scan(Requested(cmds) + tail) == After(cmds, Scan(tail))
  {
    hide Front, After, U32, Body, Fits;
    if cmds == [] {
      assert Requested(cmds) + tail == tail;
      AfterAfter([], [], Scan(tail));
    } else {
      var rest := Requested(cmds[1..]) + tail;
      RequestsScan(cmds[1..], tail);
      RequestFront(cmds[0], rest);
      assert Requested(cmds) + tail == U32(|Body(cmds[0])|) + Body(cmds[0]) + rest;
      AfterAfter([cmds[0]], cmds[1..], Scan(tail));
      assert [cmds[0]] + cmds[1..] == cmds;
    }
  }

  lemma RequestFront(c: Command, rest: bytes)
    requires Fits(c)
    ensures var s := U32(|Body(c)|) + Body(c) + rest;
            Front(s) == Next(c, 4 + |Body(c)|) && s[4 + |Body(c)|..] == rest
  {
    hide U32, ReadU32, Body;
    var body := Body(c);
    var s := U32(|body|) + body + rest;
    assert |body| <= MAX_MSG;
    assert s == U32(|body|) + (body + rest);
    ReadU32OfU32(|body|, body + rest);
    assert s[4..4 + |body|] == body;
    assert !NoCommand(body);
    var d := Front(s).cmd;
    assert Body(d) + [] == Body(c);
    BodyPrefixFree(d, c, []);
  }

  /** A request that is refused: it announces too many bytes, or its bytes are all there and are no command. */
  ghost predicate Malformed(b: bytes) {
    |b| >= 4 && (ReadU32(b) > MAX_MSG || (|b| >= 4 + ReadU32(b) && NoCommand(b[4..4 + ReadU32(b)])))
  }

  /** The beginning of a request that may become a good one. */
  predicate Partial(b: bytes) { |b| < 4 || (ReadU32(b) <= MAX_MSG && |b| < 4 + ReadU32(b)) }

  lemma FrontIs(stream: bytes)
    ensures match Front(stream)
      case Incomplete => Partial(stream)
      case Refused => Malformed(stream)
      case Next(c, n) => Fits(c) && stream[..n] == U32(|Body(c)|) + Body(c)
  {
    hide U32, ReadU32, Fits, Body;
    if |stream| >= 4 { U32OfReadU32(stream); }
    if Front(stream).Next? { assert stream[..Front(stream).length] == stream[..4] + stream[4..Front(stream).length]; }
  }

  /** Every stream is requests, one after the other, and then the beginning of one or a malformed one. */
  lemma {:induction false} StreamIs(stream: bytes)
    ensures var p := Scan(stream);
            && stream == Requested(p.commands) + p.rest && (forall c :: c in p.commands ==> Fits(c))
            && if p.closes then Malformed(p.rest) else Partial(p.rest)
    decreases |stream|
  {
    hide U32, Fits, Body, Front, Malformed, Partial, Requested;
    FrontIs(stream);
    if Front(stream).Next? {
      var c, n := Front(stream).cmd, Front(stream).length;
      StreamIs(stream[n..]);
      OneRequest(stream, n, c, Scan(stream[n..]).commands, Scan(stream[n..]).rest);
    } else {
      NoRequest(stream);
    }
  }

  lemma OneRequest(stream: bytes, n: nat, c: Command, cmds: seq<Command>, rest: bytes)
    requires n <= |stream| && stream[..n] == U32(|Body(c)|) + Body(c) && stream[n..] == Requested(cmds) + rest
    ensures stream == Requested([c] + cmds) + rest
  {
    hide U32, Body;
    assert ([c] + cmds)[1..] == cmds;
    assert stream == stream[..n] + stream[n..];
  }

  lemma NoRequest(stream: bytes)
    ensures stream == Requested([]) + stream
  {}

  /** And these are its commands, and whether it closes the connection. */
  lemma ClosesExactly(cmds: seq<Command>, tail: bytes)
    requires forall c :: c in cmds ==> Fits(c)
    ensures Malformed(tail) ==> Scan(Requested(cmds) + tail) == Pass(cmds, tail, true)
    ensures Partial(tail) ==> Scan(Requested(cmds) + tail) == Pass(cmds, tail, false)
  {
    hide ReadU32, NoCommand, Requested;
    RequestsScan(cmds, tail);
    assert cmds + [] == cmds;
  }

  // ---------- the connection ----------

  /** What `read` delivers: at the end of the stream, no bytes. */
  datatype Arrival = Data(chunk: bytes) | NotNow | ReadError

  /** What `write` takes. */
  datatype Room = Takes(n: nat) | Full | WriteError

  /** One round of the event loop as the kernel decides it: how much arrives, and how much leaves. */
  datatype Round = Round(readable: bool, size: nat, room: Room, writable: bool, later: Room)

  /** How many of `pending` bytes leave. */
  function Taken(room: Room, pending: nat): nat {
    if !room.Takes? then 0 else if room.n <= pending then room.n else pending
  }

  /** The response frames for the commands so far; the last command gets `handler(cmds)`. */
  function Replies(handler: seq<Command> -> bytes, cmds: seq<Command>): bytes {
    if cmds == [] then [] else Replies(handler, cmds[..|cmds| - 1]) + Frame(handler(cmds))
  }

  /** How far a run of rounds has come: bytes read, bytes written, and whether the connection is open. */
  datatype Progress = Progress(read: nat, sent: nat, open: bool)

  /** How many bytes answer the requests among the first `read` bytes of the stream. */
  ghost function Owed(handler: seq<Command> -> bytes, stream: bytes, read: nat): nat
    requires read <= |stream|
  { |Replies(handler, Scan(stream[..read]).commands)| }

  ghost predicate InStep(handler: seq<Command> -> bytes, stream: bytes, p: Progress) {
    p.read <= |stream| && p.sent <= Owed(handler, stream, p.read)
  }

  /** Cut into frames, the bytes hold these bodies and nothing else. */
  ghost predicate Framed(b: bytes, bodies: seq<bytes>) {
    if bodies == [] then b == []
    else
      && |b| >= 4 && |b| >= 4 + ReadU32(b) && b[4..4 + ReadU32(b)] == bodies[0]
      && Framed(b[4 + ReadU32(b)..], bodies[1..])
  }

  lemma {:induction false} FramedMore(b: bytes, bodies: seq<bytes>, body: bytes)
    requires Framed(b, bodies) && |body| < 0x1_0000_0000
    ensures Framed(b + (U32(|body|) + body), bodies + [body])
  {
    hide U32, ReadU32;
    var c := U32(|body|) + body;
    if bodies == [] {
      assert b + c == c && bodies + [body] == [body];
      OneFramed(body);
    } else {
      FramedMore(b[4 + ReadU32(b)..], bodies[1..], body);
      SameFront(b, c, 4 + ReadU32(b));
      assert (bodies + [body])[1..] == bodies[1..] + [body];
    }
  }

  lemma OneFramed(body: bytes)
    requires |body| < 0x1_0000_0000
    ensures Framed(U32(|body|) + body, [body])
  {
    hide U32, ReadU32;
    var b := U32(|body|) + body;
    ReadU32OfU32(|body|, body);
    assert b[4..4 + |body|] == body && b[4 + |body|..] == [] && [body][1..] == [];
  }

  lemma SameFront(b: bytes, c: bytes, n: nat)
    requires 4 <= n <= |b|
    ensures ReadU32(b + c) == ReadU32(b) && (b + c)[4..n] == b[4..n] && (b + c)[n..] == b[n..] + c
  {}

  /** The body that answers the command at `i`: what the handler appended, or the error if that is too long. */
  ghost predicate IsAnswer(handler: seq<Command> -> bytes, cmds: seq<Command>, i: nat, body: bytes)
    requires i < |cmds|
  {
    var appended := handler(cmds[..i + 1]);
    body == if |appended| <= MAX_MSG then appended else Encode(Err(ERR_TOO_BIG, Ascii("response is too big.")))
  }

  /** A client that cuts the responses into frames finds the answer to every command, in order; for one that
      is too long it finds the error. */
  lemma {:induction false} OneFrameEach(handler: seq<Command> -> bytes, cmds: seq<Command>) returns (bodies: seq<bytes>)
    ensures Framed(Replies(handler, cmds), bodies) && |bodies| == |cmds|
    ensures forall i :: 0 <= i < |cmds| ==> IsAnswer(handler, cmds, i, bodies[i])
  {
    hide Framed, Encode, Ascii, U32;
    if cmds == [] {
      bodies := [];
      NoFrames();
    } else {
      var n := |cmds| - 1;
      var front := OneFrameEach(handler, cmds[..n]);
      bodies := front + [Clip(handler(cmds))];
      forall i | 0 <= i < |cmds| ensures IsAnswer(handler, cmds, i, bodies[i]) {
        if i < n { assert cmds[..n][..i + 1] == cmds[..i + 1]; } else { assert cmds[..n + 1] == cmds; }
      }
      FramedMore(Replies(handler, cmds[..n]), front, Clip(handler(cmds)));
    }
  }

  lemma NoFrames()
    ensures Framed([], [])
  {}

  lemma {:induction false} RepliesGrow(handler: seq<Command> -> bytes, cmds: seq<Command>, more: seq<Command>)
    ensures |Replies(handler, cmds)| <= |Replies(handler, cmds + more)|
  {
    hide Frame;
    if more == [] {
      assert cmds + more == cmds;
    } else {
      var n := |more| - 1;
      RepliesGrow(handler, cmds, more[..n]);
      assert (cmds + more)[..|cmds| + n] == cmds + more[..n];
    }
  }

  lemma OwedGrows(handler: seq<Command> -> bytes, stream: bytes, read: nat, read': nat)
    requires read <= read' <= |stream|
    ensures Owed(handler, stream, read) <= Owed(handler, stream, read')
  {
    hide Scan, Replies;
    var p, more := Scan(stream[..read]), stream[read..read'];
    assert stream[..read'] == stream[..read] + more;
    ScanResumes(stream[..read], more);
    if p.closes {
      RepliesGrow(handler, p.commands, []);
      assert p.commands + [] == p.commands;
    } else {
      RepliesGrow(handler, p.commands, Scan(p.rest + more).commands);
    }
  }

  /** One round. Bytes are read only when none wait to be written. */
  ghost function Advance(handler: seq<Command> -> bytes, stream: bytes, p: Progress, r: Round): (p': Progress)
    requires InStep(handler, stream, p)
    ensures InStep(handler, stream, p')
  {
    var pending := Owed(handler, stream, p.read) - p.sent;
    if !p.open then p
    else if pending > 0 then if r.writable then p.(sent := p.sent + Taken(r.later, pending)) else p
    else if !r.readable then p
    else
      var read := if r.size <= |stream| - p.read then p.read + r.size else |stream|;
      OwedGrows(handler, stream, p.read, read);
      Progress(read, p.sent + Taken(r.room, Owed(handler, stream, read) - p.sent), !Scan(stream[..read]).closes)
  }

  /** A whole run of rounds. */
  ghost function Served(handler: seq<Command> -> bytes, stream: bytes, rounds: seq<Round>): (p: Progress)
    ensures InStep(handler, stream, p)
  {
    if rounds == [] then Progress(0, 0, true)
    else Advance(handler, stream, Served(handler, stream, rounds[..|rounds| - 1]), rounds[|rounds| - 1])
  }

  lemma ServedMore(handler: seq<Command> -> bytes, stream: bytes, rounds: seq<Round>, i: nat)
    requires i < |rounds|
    ensures var p := Served(handler, stream, rounds[..i]);
            && Served(handler, stream, rounds[..i + 1]) == Advance(handler, stream, p, rounds[i])
            && (!p.open ==> Served(handler, stream, rounds[..i + 1]) == p)
  {
    assert rounds[..i + 1][..i] == rounds[..i];
  }

  /** A round in which anything that can move moves. */
  predicate Willing(r: Round) {
    r.readable && r.size > 0 && r.writable && r.room.Takes? && r.room.n > 0 && r.later.Takes? && r.later.n > 0
  }

  ghost predicate Finished(handler: seq<Command> -> bytes, stream: bytes, p: Progress) {
    !p.open || (p.read == |stream| && p.sent == Owed(handler, stream, |stream|))
  }

  /** Every willing round moves a byte, until everything is read and answered or the connection is closed. */
  lemma {:induction false} EveryRoundCounts(handler: seq<Command> -> bytes, stream: bytes, rounds: seq<Round>)
    requires forall r :: r in rounds ==> Willing(r)
    ensures var p := Served(handler, stream, rounds); Finished(handler, stream, p) || p.read + p.sent >= |rounds|
  {
    hide Owed, Scan;
    if rounds != [] {
      var n := |rounds| - 1;
      EveryRoundCounts(handler, stream, rounds[..n]);
      assert Willing(rounds[n]);
    }
  }

  /** So that happens within as many rounds as there are bytes to read and to write. */
  lemma AllServed(handler: seq<Command> -> bytes, stream: bytes, rounds: seq<Round>)
    requires forall r :: r in rounds ==> Willing(r)
    requires |rounds| >= |stream| + |Replies(handler, Scan(stream).commands)|
    ensures Finished(handler, stream, Served(handler, stream, rounds))
  {
    hide Scan, Replies, Served;
    var p := Served(handler, stream, rounds);
    EveryRoundCounts(handler, stream, rounds);
    OwedGrows(handler, stream, p.read, |stream|);
    assert stream[..|stream|] == stream;
  }

  class Conn {
    /** What `on_request` appends for the last of the commands, given the ones before it. */
    const handler: seq<Command> -> bytes
    const outgoing: Buffer
    var incoming: bytes
    var wantRead: bool
    var wantWrite: bool
    var wantClose: bool

    /** The commands given to the handler. */
    var executed: seq<Command>

    /** All bytes read, all bytes written, and whether the socket failed. */
    ghost var received: bytes
    ghost var written: bytes
    ghost var failed: bool

    ghost predicate Answered()
      reads `written, `executed, outgoing
    { written + outgoing.data == Replies(handler, executed) }

    ghost predicate Flags()
      reads `wantRead, `wantWrite, outgoing
    { (wantRead <==> outgoing.data == []) && (wantWrite <==> outgoing.data != []) }

    ghost predicate Valid()
      reads this, outgoing
    {
      && Answered() && Flags()
      && executed == Scan(received).commands && incoming == Scan(received).rest
      && (wantClose <==> failed || Scan(received).closes)
    }

    constructor (handler: seq<Command> -> bytes)
      ensures Valid() && received == written == [] && executed == [] && !wantClose && this.handler == handler
      ensures fresh(outgoing)
    {
      this.handler := handler;
      incoming := [];
      outgoing := new Buffer();
      wantRead, wantWrite, wantClose := true, false, false;
      received, written, executed, failed := [], [], [], false;
    }

    /** `try_one_request`: takes the first request out of `incoming`, if there is a whole one. */
    method TryOneRequest() returns (more: bool, ghost cmds: seq<Command>)
      requires Answered() && !wantClose
      modifies `incoming, `wantClose, `executed, outgoing
      ensures Answered() && executed == old(executed) + cmds
      ensures more ==> Scan(old(incoming)) == After(cmds, Scan(incoming)) && |incoming| < |old(incoming)| && !wantClose
      ensures !more ==> cmds == [] && incoming == old(incoming) && outgoing.data == old(outgoing.data)
      ensures !more ==> Scan(incoming) == Pass([], incoming, wantClose)
    {
      hide U32, ReadU32, Fits, Body, Frame, NoCommand;
      cmds := [];
      if |incoming| < 4 { return false, cmds; }
      var len := ReadU32(incoming);
      if len > MAX_MSG {
        wantClose := true;
        return false, cmds;
      }
      if 4 + len > |incoming| { return false, cmds; }
      var ok, cmd := ParseReq(incoming[4..4 + len]);
      if !ok {
        wantClose := true;
        return false, cmds;
      }
      TheCommand(incoming, len, cmd);
      ghost var before := outgoing.data;
      var header := outgoing.ResponseBegin();
      ghost var history := executed + [cmd];
      Respond(cmd);
      outgoing.ResponseEnd(header, before, handler(history));
      assert history[..|history| - 1] == old(executed);
      incoming := incoming[4 + len..];
      cmds := [cmd];
      more := true;
    }

    lemma TheCommand(stream: bytes, len: nat, cmd: Command)
      requires |stream| >= 4 && len == ReadU32(stream) <= MAX_MSG && 4 + len <= |stream|
      requires Fits(cmd) && stream[4..4 + len] == Body(cmd)
      ensures Front(stream) == Next(cmd, 4 + len)
    {
      hide ReadU32, Body;
      assert !NoCommand(stream[4..4 + len]);
      assert Body(Front(stream).cmd) + [] == Body(cmd);
      BodyPrefixFree(Front(stream).cmd, cmd, []);
    }

    /** `on_request` */
    method Respond(cmd: Command)
      modifies `executed, outgoing
      ensures executed == old(executed) + [cmd] && outgoing.data == old(outgoing.data) + handler(executed)
    {
      executed := executed + [cmd];
      outgoing.data := outgoing.data + handler(executed);
    }

    /** `handle_write` */
    method HandleWrite(room: Room)
      requires Answered() && Flags() && outgoing.data != []
      modifies `wantRead, `wantWrite, `wantClose, `written, `failed, outgoing
      ensures Answered() && Flags()
      ensures !room.Takes? ==> written == old(written) && outgoing.data == old(outgoing.data)
      ensures room.Takes? && room.n >= |old(outgoing.data)| ==>
        written == old(written) + old(outgoing.data) && outgoing.data == []
      ensures room.Takes? && room.n < |old(outgoing.data)| ==>
        written == old(written) + old(outgoing.data)[..room.n] && outgoing.data == old(outgoing.data)[room.n..]
      ensures |written| == |old(written)| + Taken(room, |old(outgoing.data)|)
      ensures wantClose <==> old(wantClose) || room.WriteError?
      ensures failed <==> old(failed) || room.WriteError?
    {
      if room.Full? { return; }
      if room.WriteError? {
        wantClose, failed := true, true;
        return;
      }
      var n := if room.n <= |outgoing.data| then room.n else |outgoing.data|;
      assert outgoing.data == outgoing.data[..n] + outgoing.data[n..];
      assert written + outgoing.data == written + outgoing.data[..n] + outgoing.data[n..];
      written := written + outgoing.data[..n];
      outgoing.data := outgoing.data[n..];
      if outgoing.data == [] {
        wantRead, wantWrite := true, false;
      }
    }

    /** The loop of `handle_read`: every whole request in `incoming` is executed. */
    method Drain()
      requires Answered() && !wantClose
      modifies `incoming, `wantClose, `executed, outgoing
      ensures Answered()
      ensures var p := Scan(old(incoming));
              executed == old(executed) + p.commands && incoming == p.rest && wantClose == p.closes
    {
      hide Scan, Replies;
      var more, cmds := TryOneRequest();
      ghost var done := cmds;
      while more
        invariant Answered() && executed == old(executed) + done
        invariant more ==> !wantClose && Scan(old(incoming)) == After(done, Scan(incoming))
        invariant !more ==> Scan(old(incoming)) == After(done, Pass([], incoming, wantClose))
        decreases more, |incoming|
      {
        ghost var was := Scan(incoming);
        more, cmds := TryOneRequest();
        assert done + (cmds + Scan(incoming).commands) == done + cmds + Scan(incoming).commands;
        done := done + cmds;
      }
    }

    /** `handle_read`; `room` is for the write at its end. */
    method HandleRead(arrival: Arrival, room: Room)
      requires Valid() && !wantClose && wantRead
      modifies this, outgoing
      ensures Valid()
      ensures received == old(received) + (if arrival.Data? then arrival.chunk else [])
      ensures |Replies(handler, executed)| >= |old(written)|
      ensures failed <==> arrival.ReadError? || arrival == Data([]) ||
                          (room.WriteError? && |Replies(handler, executed)| > |old(written)|)
      ensures |written| == |old(written)| + Taken(room, |Replies(handler, executed)| - |old(written)|)
    {
      hide Scan, Replies;
      match arrival
      case NotNow =>
      case ReadError => wantClose, failed := true, true;
      case Data(chunk) =>
        if chunk == [] {
          wantClose, failed := true, true;
          return;
        }
        ScanResumes(received, chunk);
        received := received + chunk;
        incoming := incoming + chunk;
        Drain();
        if outgoing.data != [] {
          wantRead, wantWrite := false, true;
          HandleWrite(room);
        }
    }

    /** One round of the event loop: `readable`, `writable` and `hangup` are what `poll` reports. */
    method Turn(readable: bool, arrival: Arrival, room: Room, writable: bool, later: Room, hangup: bool)
        returns (open: bool)
      requires Valid() && !wantClose
      modifies this, outgoing
      ensures Valid()
      ensures received == old(received) + (if readable && arrival.Data? && old(wantRead) then arrival.chunk else [])
      ensures |Replies(handler, executed)| >= |old(written)|
      ensures |written| == |old(written)| +
                if readable && old(wantRead) then Taken(room, |Replies(handler, executed)| - |old(written)|)
                else if writable && old(wantWrite) then Taken(later, |old(outgoing.data)|)
                else 0
      ensures open <==> !wantClose && !hangup
      ensures failed <==>
        if readable && old(wantRead) then
          arrival.ReadError? || arrival == Data([]) ||
          (room.WriteError? && |Replies(handler, executed)| > |old(written)|)
        else writable && old(wantWrite) && later.WriteError?
    {
      hide Scan, Replies;
      var pollin, pollout := readable && wantRead, writable && wantWrite;
      if pollin { HandleRead(arrival, room); }
      if pollout && !wantClose && outgoing.data != [] { HandleWrite(later); }
      open := !(hangup || wantClose);
    }

    lemma Unserved(stream: bytes)
      requires Valid() && received == []
      ensures written == [] && Served(handler, stream, []) == Progress(0, 0, true)
    {}

    /** What one pass over the received part says is owed bounds what was written. */
    lemma NowInStep(stream: bytes, pos: nat)
      requires Valid() && pos <= |stream| && received == stream[..pos]
      ensures InStep(handler, stream, Progress(pos, |written|, true))
      ensures Owed(handler, stream, pos) == |written| + |outgoing.data|
    {
      hide Scan, Replies;
    }

    /** One round without socket errors: the next bytes of the stream are the ones that arrive. */
    method ServeOne(stream: bytes, pos: nat, r: Round) returns (pos': nat, open: bool)
      requires Valid() && !failed && !wantClose && pos <= |stream| && received == stream[..pos]
      requires !r.room.WriteError? && !r.later.WriteError? && InStep(handler, stream, Progress(pos, |written|, true))
      modifies this, outgoing
      ensures Valid() && !failed && (open <==> !wantClose)
      ensures pos' <= |stream| && received == stream[..pos']
      ensures Progress(pos', |written|, open) == Advance(handler, stream, Progress(pos, |old(written)|, true), r)
    {
      hide Scan, Replies;
      NowInStep(stream, pos);
      var n := if r.size <= |stream| - pos then r.size else |stream| - pos;
      var chunk := stream[pos..pos + n];
      var arrival := if n == 0 then NotNow else Data(chunk);
      pos' := pos + if r.readable && wantRead then n else 0;
      assert stream[..pos] + chunk == stream[..pos + n] && stream[..pos] + [] == stream[..pos];
      open := Turn(r.readable, arrival, r.room, r.writable, r.later, false);
      NowInStep(stream, pos');
    }

    /** The connection over a run of rounds without socket errors: `stream` arrives in pieces of the
        sizes the rounds give, and the responses leave in pieces of the sizes they take. The rounds decide
        how far it comes, and nothing else: what is executed and whether the server closes is what one
        pass says, and enough willing rounds get everything read and answered. */
    method Serve(stream: bytes, rounds: seq<Round>) returns (open: bool)
      requires Valid() && received == [] && !wantClose
      requires forall r :: r in rounds ==> !r.room.WriteError? && !r.later.WriteError?
      modifies this, outgoing
      ensures Valid() && (open <==> !wantClose)
      ensures var p := Served(handler, stream, rounds);
              received == stream[..p.read] && |written| == p.sent && open == p.open
      ensures written + outgoing.data == Replies(handler, executed)
      ensures received == stream || !open ==> executed == Scan(stream).commands && (open <==> !Scan(stream).closes)
      ensures (forall r :: r in rounds ==> Willing(r)) &&
              |rounds| >= |stream| + |Replies(handler, Scan(stream).commands)| ==>
        !open || (received == stream && written == Replies(handler, Scan(stream).commands))
    {
      hide Scan, Replies, Served, Advance, Willing;
      open := true;
      var pos, i := 0, 0;
      assert rounds[..0] == [] && stream[..0] == [];
      Unserved(stream);
      while i < |rounds|
        invariant i <= |rounds| && 0 <= pos <= |stream| && received == stream[..pos]
        invariant Valid() && !failed && (open <==> !wantClose)
        invariant Served(handler, stream, rounds[..i]) == Progress(pos, |written|, open)
      {
        ServedMore(handler, stream, rounds, i);
        if open {
          pos, open := ServeOne(stream, pos, rounds[i]);
        }
        i := i + 1;
      }
      assert rounds[..|rounds|] == rounds && stream[..|stream|] == stream;
      NowInStep(stream, pos);
      if received == stream || !open { DecidedEarly(stream, received); }
      if (forall r :: r in rounds ==> Willing(r)) && |rounds| >= |stream| + |Replies(handler, Scan(stream).commands)| {
        AllServed(handler, stream, rounds);
      }
    }
  }
}
