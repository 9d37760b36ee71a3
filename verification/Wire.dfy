/** The bytes of `src/protocol.cpp`: fixed-width integers in native byte order (little endian here),
    and tagged values. */
module Wire {
  import opened Bytes
  import opened Doubles

  /** `k_max_msg` */
  const MAX_MSG := 33554432
  /** `k_max_args` */
  const MAX_ARGS := 200000

  /** A string literal as bytes. */
  function Ascii(s: string): bytes { seq(|s|, i requires 0 <= i < |s| => s[i] as int % 256) }

  // ---------- integers ----------

  /** The low 32 bits of `n`. */
  function U32(n: nat): (b: bytes)
    ensures |b| == 4
  { [n % 256, n / 256 % 256, n / 65536 % 256, n / 16777216 % 256] }

  function ReadU32(b: bytes): (n: nat)
    requires |b| >= 4
    ensures n < 0x1_0000_0000
  { (b[0] as int) + 256 * (b[1] as int) + 65536 * (b[2] as int) + 16777216 * (b[3] as int) }

  lemma ReadU32OfU32(n: nat, rest: bytes)
    requires n < 0x1_0000_0000
    ensures ReadU32(U32(n) + rest) == n
  {
    var q1, q2, q3 := n / 256, n / 65536, n / 16777216;
    assert q2 == q1 / 256 && q3 == q2 / 256 && q3 < 256;
    assert n == n % 256 + 256 * q1 && q1 == q1 % 256 + 256 * q2 && q2 == q2 % 256 + 256 * q3;
  }

  lemma BaseDigits(b0: int, b1: int, b2: int, b3: int)
    requires 0 <= b0 < 256 && 0 <= b1 < 256 && 0 <= b2 < 256 && 0 <= b3 < 256
    ensures var n := b0 + 256 * b1 + 65536 * b2 + 16777216 * b3;
            n % 256 == b0 && n / 256 % 256 == b1 && n / 65536 % 256 == b2 && n / 16777216 % 256 == b3
  {
    var n := b0 + 256 * b1 + 65536 * b2 + 16777216 * b3;
    assert n / 256 == b1 + 256 * b2 + 65536 * b3;
    assert n / 65536 == b2 + 256 * b3;
    assert n / 16777216 == b3;
  }

  lemma U32OfReadU32(b: bytes)
    requires |b| >= 4
    ensures U32(ReadU32(b)) == b[..4]
  {
    BaseDigits(b[0], b[1], b[2], b[3]);
  }

  function U64(n: nat): (b: bytes)
    ensures |b| == 8
  { U32(n % 0x1_0000_0000) + U32(n / 0x1_0000_0000) }

  /** A signed 64-bit integer in two's complement. */
  function I64(i: int): (b: bytes)
    ensures |b| == 8
  { U64(i % 0x1_0000_0000_0000_0000) }

  // ---------- tagged values ----------

  datatype Value =
    | Nil
    | Err(code: nat, msg: bytes)
    | Str(s: bytes)
    | Int(i: int)
    | Dbl(d: Double)
    | Arr(items: seq<Value>)

  const ERR_UNKNOWN := 1
  const ERR_TOO_BIG := 2
  const ERR_BAD_TYP := 3
  const ERR_BAD_ARG := 4

  function Encode(v: Value): (b: bytes)
    ensures |b| >= 1
    decreases v, 0
  {
    match v
    case Nil => [0]
    case Err(code, msg) => [1] + U32(code) + U32(|msg|) + msg
    case Str(s) => [2] + U32(|s|) + s
    case Int(i) => [3] + I64(i)
    case Dbl(d) => [4] + U64(d)
    case Arr(items) => [5] + U32(|items|) + EncodeAll(items)
  }

  function EncodeAll(items: seq<Value>): bytes
    decreases items, 1
  {
    if items == [] then [] else EncodeAll(items[..|items| - 1]) + Encode(items[|items| - 1])
  }

  lemma EncodeAllSnoc(items: seq<Value>, v: Value)
    ensures EncodeAll(items + [v]) == EncodeAll(items) + Encode(v)
  {
    assert (items + [v])[..|items|] == items;
  }

  lemma EncodeArr(items: seq<Value>)
    ensures Encode(Arr(items)) == [5] + U32(|items|) + EncodeAll(items)
    ensures items == [] ==> Encode(Arr(items)) == [5] + U32(0)
  {}

  // ---------- responses ----------

  /** What the body of a response becomes: one that is too long is replaced by an error. */
  function Clip(body: bytes): (r: bytes)
    ensures |r| <= MAX_MSG
  {
    if |body| > MAX_MSG then Encode(Err(ERR_TOO_BIG, Ascii("response is too big."))) else body
  }

  /** A response on the wire. */
  function Frame(body: bytes): bytes { U32(|Clip(body)|) + Clip(body) }

  // ---------- output buffers ----------

  /** `Buffer`, which the `out_*` functions append to and patch. */
  class Buffer {
    var data: bytes

    constructor ()
      ensures data == []
    { data := []; }

    /** `out_nil`, `out_str`, `out_int`, `out_dbl` and `out_err`: one value is appended. */
    method Out(v: Value)
      requires !v.Arr?
      modifies this
      ensures data == old(data) + Encode(v)
    {
      match v
      case Nil => data := data + [0];
      case Err(code, msg) =>
        data := data + [1];
        data := data + U32(code);
        data := data + U32(|msg|);
        data := data + msg;
      case Str(s) => data := data + [2]; data := data + U32(|s|); data := data + s;
      case Int(i) => data := data + [3]; data := data + I64(i);
      case Dbl(d) => data := data + [4]; data := data + U64(d);
    }

    /** `out_arr` */
    method OutArr(n: nat)
      modifies this
      ensures data == old(data) + [5] + U32(n)
    {
      data := data + [5];
      data := data + U32(n);
    }

    /** `out_begin_arr` */
    method BeginArr() returns (ctx: nat)
      modifies this
      ensures data == old(data) + [5] + U32(0) && ctx == |old(data)| + 1
    {
      data := data + [5];
      data := data + U32(0);
      ctx := |data| - 4;
    }

    /** `out_end_arr`: the count is written over the placeholder. */
    method EndArr(ctx: nat, n: nat, ghost before: bytes, ghost body: bytes)
      requires data == before + [5] + U32(0) + body && ctx == |before| + 1
      modifies this
      ensures data == before + [5] + U32(n) + body
    {
      assert data[ctx - 1] == 5;
      data := data[..ctx] + U32(n) + data[ctx + 4..];
    }

    /** `response_begin` */
    method ResponseBegin() returns (header: nat)
      modifies this
      ensures data == old(data) + U32(0) && header == |old(data)|
    {
      header := |data|;
      data := data + U32(0);
    }

    /** `response_end`: the length is written over the placeholder. */
    method ResponseEnd(header: nat, ghost before: bytes, ghost body: bytes)
      requires data == before + U32(0) + body && header == |before|
      modifies this
      ensures data == before + Frame(body)
    {
      hide U32, Encode;
      var size := |data| - header - 4;
      if size > MAX_MSG {
        data := data[..header + 4];
        assert data == before + U32(0);
        Out(Err(ERR_TOO_BIG, Ascii("response is too big.")));
        size := |data| - header - 4;
      }
      assert data == before + U32(0) + Clip(body);
      data := data[..header] + U32(size) + data[header + 4..];
    }
  }
}
