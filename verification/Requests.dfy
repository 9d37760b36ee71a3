/** Requests on the wire: `encode_request` and `parse_req` of `src/protocol.cpp`. */
module Requests {
  import opened Bytes
  import opened Wire

  type Command = seq<bytes>

  /** A string as it travels: its length, then its bytes. */
  function Field(s: bytes): bytes { U32(|s|) + s }

  function Fields(cmd: Command): bytes { if cmd == [] then [] else Field(cmd[0]) + Fields(cmd[1..]) }

  /** The body of the request that carries `cmd`. */
  function Body(cmd: Command): bytes { U32(|cmd|) + Fields(cmd) }

  /** The two limits of the protocol. */
  predicate Fits(cmd: Command) { |cmd| <= MAX_ARGS && |Body(cmd)| <= MAX_MSG }

  /** No command within the limits has this body. */
  ghost predicate NoCommand(body: bytes) { forall c: Command :: Fits(c) ==> body != Body(c) }

  // ---------- the format is unambiguous ----------

  predicate Short(cmd: Command) { |cmd| < 0x1_0000_0000 && forall s :: s in cmd ==> |s| < 0x1_0000_0000 }

  lemma {:induction false} FieldsJoin(c: Command, d: Command)
    ensures Fields(c + d) == Fields(c) + Fields(d)
  {
    if c == [] {
      assert c + d == d;
    } else {
      assert (c + d)[1..] == c[1..] + d;
      FieldsJoin(c[1..], d);
      assert Field(c[0]) + (Fields(c[1..]) + Fields(d)) == Fields(c) + Fields(d);
    }
  }

  lemma FieldsMore(c: Command, s: bytes)
    ensures Fields(c + [s]) == Fields(c) + Field(s)
  {
    FieldsJoin(c, [s]);
    assert Fields([s]) == Field(s) + Fields([]);
  }

  lemma CountCancel(n: nat, m: nat, x: bytes, y: bytes)
    requires n < 0x1_0000_0000 && m < 0x1_0000_0000 && U32(n) + x == U32(m) + y
    ensures n == m && x == y
  {
    hide U32, ReadU32;
    ReadU32OfU32(n, x);
    ReadU32OfU32(m, y);
    assert (U32(n) + x)[4..] == x && (U32(m) + y)[4..] == y;
  }

  /** A field is cut off the front in one way only. */
  lemma FieldCancel(s: bytes, t: bytes, x: bytes, y: bytes)
    requires |s| < 0x1_0000_0000 && |t| < 0x1_0000_0000 && Field(s) + x == Field(t) + y
    ensures s == t && x == y
  {
    var b := Field(s) + x;
    assert b == U32(|s|) + (s + x) && b == U32(|t|) + (t + y);
    CountCancel(|s|, |t|, s + x, t + y);
    assert (s + x)[..|s|] == s && (t + y)[..|s|] == t;
    assert (s + x)[|s|..] == x && (t + y)[|s|..] == y;
  }

  lemma {:induction false} FieldsCancel(c: Command, d: Command, x: bytes, y: bytes)
    requires Short(c) && Short(d) && |c| == |d| && Fields(c) + x == Fields(d) + y
    ensures c == d && x == y
  {
    if c == [] {
      assert Fields(c) + x == x && Fields(d) + y == y;
    } else {
      assert Field(c[0]) + (Fields(c[1..]) + x) == Fields(c) + x;
      assert Field(d[0]) + (Fields(d[1..]) + y) == Fields(d) + y;
      FieldCancel(c[0], d[0], Fields(c[1..]) + x, Fields(d[1..]) + y);
      FieldsCancel(c[1..], d[1..], x, y);
      assert c == [c[0]] + c[1..] && d == [d[0]] + d[1..];
    }
  }

  /** Every string of a command is shorter than its body. */
  lemma {:induction false} FieldsLength(c: Command, s: bytes)
    requires s in c
    ensures |s| + 4 <= |Fields(c)|
  {
    if s != c[0] { FieldsLength(c[1..], s); }
  }

  lemma FitsShort(c: Command)
    requires Fits(c)
    ensures Short(c)
  {
    forall s | s in c ensures |s| < 0x1_0000_0000 { FieldsLength(c, s); }
  }

  /** No body is a strict prefix of another one, so no prefix or extension of an accepted body is
      accepted, and a body has one command. */
  lemma BodyPrefixFree(c: Command, d: Command, x: bytes)
    requires Fits(c) && Fits(d) && Body(c) + x == Body(d)
    ensures c == d && x == []
  {
    FitsShort(c);
    FitsShort(d);
    assert Body(c) + x == U32(|c|) + (Fields(c) + x) && Body(d) == U32(|d|) + (Fields(d) + []);
    CountCancel(|c|, |d|, Fields(c) + x, Fields(d) + []);
    FieldsCancel(c, d, x, []);
  }

  // ---------- encode_request ----------

  /** The framed request, or nothing when a limit is exceeded. */
  method EncodeRequest(cmd: Command) returns (buf: bytes)
    ensures buf == if Fits(cmd) then U32(|Body(cmd)|) + Body(cmd) else []
  {
    hide U32;
    if |cmd| > MAX_ARGS { return []; }
    var len := 4;
    var i := 0;
    assert cmd[..0] == [];
    while i < |cmd|
      invariant i <= |cmd| && len == |Body(cmd[..i])| <= MAX_MSG
    {
      FieldsMore(cmd[..i], cmd[i]);
      assert cmd[..i] + [cmd[i]] == cmd[..i + 1];
      if len > MAX_MSG - 4 || |cmd[i]| > MAX_MSG - len - 4 {
        FieldsJoin(cmd[..i + 1], cmd[i + 1..]);
        assert cmd[..i + 1] + cmd[i + 1..] == cmd;
        return [];
      }
      len := len + 4 + |cmd[i]|;
      i := i + 1;
    }
    assert cmd[..|cmd|] == cmd;
    buf := U32(len) + U32(|cmd|);
    i := 0;
    while i < |cmd|
      invariant i <= |cmd| && buf == U32(len) + U32(|cmd|) + Fields(cmd[..i])
    {
      buf := buf + U32(|cmd[i]|);
      buf := buf + cmd[i];
      FieldsMore(cmd[..i], cmd[i]);
      assert cmd[..i] + [cmd[i]] == cmd[..i + 1];
      i := i + 1;
    }
  }

  // ---------- parse_req ----------

  lemma JoinCancel(a: Command, b: Command, out: Command, rest: bytes)
    requires Short(a) && Short(out) && |a| == |out| && Fields(a + b) == Fields(out) + rest
    ensures a == out && rest == Fields(b)
  {
    FieldsJoin(a, b);
    FieldsCancel(a, out, Fields(b), rest);
  }

  lemma AfterCount(body: bytes, n: nat, out: Command, rest: bytes, c: Command)
    requires Fits(c) && body == Body(c) && |body| >= 4 && n == ReadU32(body)
    requires body == U32(n) + Fields(out) + rest
    ensures n == |c| && Short(c) && Fields(c) == Fields(out) + rest
  {
    hide U32, ReadU32, Field;
    FitsShort(c);
    assert body == U32(n) + (Fields(out) + rest);
    CountCancel(|c|, n, Fields(c), Fields(out) + rest);
  }

  lemma Halves(c: Command, k: nat)
    requires Short(c) && k <= |c|
    ensures c == c[..k] + c[k..] && Short(c[..k]) && |c[..k]| == k
  {}

  /** Where a body has a command, what is left after `out` fields is the rest of its fields. */
  lemma Continues(body: bytes, n: nat, out: Command, rest: bytes, c: Command)
    requires Fits(c) && body == Body(c) && |body| >= 4 && n == ReadU32(body)
    requires body == U32(n) + Fields(out) + rest && |out| <= n && Short(out)
    ensures n == |c| && out == c[..|out|] && rest == Fields(c[|out|..])
  {
    hide U32, ReadU32, Fits, Body, Fields, Short;
    AfterCount(body, n, out, rest, c);
    Halves(c, |out|);
    JoinCancel(c[..|out|], c[|out|..], out, rest);
  }

  lemma FirstField(c: Command)
    requires c != [] && Short(c)
    ensures |Fields(c)| >= 4 && ReadU32(Fields(c)) == |c[0]| <= |Fields(c)| - 4
  {
    ReadU32OfU32(|c[0]|, c[0] + Fields(c[1..]));
    assert Fields(c) == U32(|c[0]|) + (c[0] + Fields(c[1..]));
  }

  /** The next string cannot be read: then there is no command. */
  lemma CannotContinue(body: bytes, n: nat, out: Command, rest: bytes)
    requires |body| >= 4 && n == ReadU32(body) && Short(out)
    requires body == U32(n) + Fields(out) + rest && |out| < n
    requires |rest| < 4 || ReadU32(rest) > |rest| - 4
    ensures NoCommand(body)
  {
    hide U32, ReadU32;
    forall c: Command | Fits(c) ensures body != Body(c) {
      if body == Body(c) {
        Continues(body, n, out, rest, c);
        FitsShort(c);
        FirstField(c[|out|..]);
      }
    }
  }

  /** Bytes are left over: then there is no command. */
  lemma CannotEnd(body: bytes, n: nat, out: Command, rest: bytes)
    requires |body| >= 4 && n == ReadU32(body) && Short(out)
    requires body == U32(n) + Fields(out) + rest && |out| == n && rest != []
    ensures NoCommand(body)
  {
    forall c: Command | Fits(c) ensures body != Body(c) {
      if body == Body(c) {
        Continues(body, n, out, rest, c);
      }
    }
  }

  lemma WrongSize(body: bytes)
    requires |body| < 4 || |body| > MAX_MSG
    ensures NoCommand(body)
  {}

  lemma CountTooBig(body: bytes)
    requires |body| >= 4 && ReadU32(body) > MAX_ARGS
    ensures NoCommand(body)
  {
    forall c: Command | Fits(c) ensures body != Body(c) {
      ReadU32OfU32(|c|, Fields(c));
    }
  }

  /** Accepts exactly the bodies of the commands within the limits, and returns the command. */
  method ParseReq(body: bytes) returns (ok: bool, out: Command)
    ensures ok ==> Fits(out) && body == Body(out)
    ensures !ok ==> NoCommand(body)
  {
    hide U32, ReadU32, NoCommand;
    out := [];
    if |body| < 4 || |body| > MAX_MSG {
      WrongSize(body);
      return false, out;
    }
    var n, pos := ReadU32(body), 4;
    U32OfReadU32(body);
    if n > MAX_ARGS {
      CountTooBig(body);
      return false, out;
    }
    while |out| < n
      invariant 4 <= pos <= |body| && |out| <= n && Short(out)
      invariant body == U32(n) + Fields(out) + body[pos..]
    {
      ghost var rest := body[pos..];
      if |body| - pos < 4 {
        CannotContinue(body, n, out, rest);
        return false, out;
      }
      var len := ReadU32(body[pos..]);
      if len > |body| - (pos + 4) {
        CannotContinue(body, n, out, rest);
        return false, out;
      }
      var s := body[pos + 4..pos + 4 + len];
      U32OfReadU32(rest);
      FieldsMore(out, s);
      assert rest == Field(s) + body[pos + 4 + len..];
      assert U32(n) + Fields(out) + rest == U32(n) + Fields(out + [s]) + body[pos + 4 + len..];
      out := out + [s];
      pos := pos + 4 + len;
    }
    ok := pos == |body|;
    if !ok {
      CannotEnd(body, n, out, body[pos..]);
    } else {
      assert body == Body(out) + [];
    }
  }
}
