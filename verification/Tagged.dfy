/** Tagged values read back: `print_response` of `src/client.cpp` accepts what the `out_*` functions
    of `src/protocol.cpp` write, and nothing else. */
module Tagged {
  import opened Bytes
  import opened Wire
  import opened Decimals
  import opened Requests

  // ---------- integers ----------

  function ReadU64(b: bytes): (n: nat)
    requires |b| >= 8
    ensures n < 0x1_0000_0000_0000_0000
  { ReadU32(b) + 0x1_0000_0000 * ReadU32(b[4..]) }

  function ReadI64(b: bytes): (i: int)
    requires |b| >= 8
    ensures IsInt64(i)
  {
    var n := ReadU64(b);
    if n < 0x8000_0000_0000_0000 then n else n - 0x1_0000_0000_0000_0000
  }

  lemma U64OfReadU64(b: bytes)
    requires |b| >= 8
    ensures U64(ReadU64(b)) == b[..8]
  {
    hide U32, ReadU32;
    U32OfReadU32(b);
    U32OfReadU32(b[4..]);
    assert b[4..][..4] == b[4..8] && b[..8] == b[..4] + b[4..8];
  }

  lemma I64OfReadI64(b: bytes)
    requires |b| >= 8
    ensures I64(ReadI64(b)) == b[..8]
  {
    hide U64, ReadU64;
    U64OfReadU64(b);
  }

  lemma ReadU64OfU64(n: nat, rest: bytes)
    requires n < 0x1_0000_0000_0000_0000
    ensures ReadU64(U64(n) + rest) == n
  {
    hide U32, ReadU32;
    var lo, hi := U32(n % 0x1_0000_0000), U32(n / 0x1_0000_0000);
    assert U64(n) + rest == lo + (hi + rest) && (U64(n) + rest)[4..] == hi + rest;
    ReadU32OfU32(n % 0x1_0000_0000, hi + rest);
    ReadU32OfU32(n / 0x1_0000_0000, rest);
  }

  lemma ReadI64OfI64(i: int, rest: bytes)
    requires IsInt64(i)
    ensures ReadI64(I64(i) + rest) == i
  {
    hide U64, ReadU64;
    ReadU64OfU64(i % 0x1_0000_0000_0000_0000, rest);
  }

  lemma FixedIntegers()
    ensures U32(0) == [0, 0, 0, 0] && U32(1) == [1, 0, 0, 0] && U32(2) == [2, 0, 0, 0] && U32(4) == [4, 0, 0, 0]
    ensures U32(258) == [2, 1, 0, 0]
    ensures U32(0xFFFF_FFFF) == [255, 255, 255, 255] && U32(0xFFFF_FFFE) == [254, 255, 255, 255]
  {}

  lemma FixedNumbers()
    ensures U64(1) == [1, 0, 0, 0, 0, 0, 0, 0] && I64(-2) == [254, 255, 255, 255, 255, 255, 255, 255]
  {
    hide U32;
    FixedIntegers();
  }

  lemma FixedItems()
    ensures EncodeAll([Nil, Nil]) == [0, 0]
  {
    assert [] + [Nil] == [Nil] && [Nil] + [Nil] == [Nil, Nil];
    EncodeAllSnoc([], Nil);
    EncodeAllSnoc([Nil], Nil);
  }

  /** Some values as the protocol describes them. */
  lemma FixedValues()
    ensures Encode(Nil) == [0] && Encode(Err(4, [120])) == [1, 4, 0, 0, 0, 1, 0, 0, 0, 120]
    ensures Encode(Str([104, 105])) == [2, 2, 0, 0, 0, 104, 105] && Encode(Dbl(1)) == [4, 1, 0, 0, 0, 0, 0, 0, 0]
    ensures Encode(Int(-2)) == [3, 254, 255, 255, 255, 255, 255, 255, 255]
    ensures Encode(Arr([Nil, Nil])) == [5, 2, 0, 0, 0, 0, 0]
  {
    hide U32, U64, I64, EncodeAll;
    FixedIntegers();
    FixedNumbers();
    FixedItems();
  }

  /** A request as the protocol describes it. */
  lemma FixedRequest()
    ensures Body([[97, 98], []]) == [2, 0, 0, 0, 2, 0, 0, 0, 97, 98, 0, 0, 0, 0]
  {
    hide U32;
    FixedIntegers();
    var one: Command, two: Command := [[]], [[97, 98], []];
    assert one[1..] == [] && two[1..] == one;
    assert Fields(one) == Field([]) && Fields(two) == Field([97, 98]) + Fields(one);
  }

  // ---------- the values the format can carry ----------

  ghost predicate WellFormed(v: Value) {
    match v
    case Nil => true
    case Err(code, msg) => code < 0x1_0000_0000 && |msg| < 0x1_0000_0000
    case Str(s) => |s| < 0x1_0000_0000
    case Int(i) => IsInt64(i)
    case Dbl(d) => true
    case Arr(items) => |items| < 0x1_0000_0000 && forall x :: x in items ==> WellFormed(x)
  }

  /** At nesting level `depth`, no part of `v` lies deeper than level 64. */
  ghost predicate Shallow(v: Value, depth: nat) {
    depth <= 64 && (v.Arr? ==> forall x :: x in v.items ==> Shallow(x, depth + 1))
  }

  // ---------- the format is unambiguous ----------

  lemma {:induction false} EncodeAllJoin(a: seq<Value>, b: seq<Value>)
    ensures EncodeAll(a + b) == EncodeAll(a) + EncodeAll(b)
  {
    hide Encode;
    if b == [] {
      assert a + b == a;
    } else {
      var k := |b| - 1;
      EncodeAllJoin(a, b[..k]);
      assert a + b == a + b[..k] + [b[k]];
      EncodeAllSnoc(a + b[..k], b[k]);
      assert EncodeAll(a) + EncodeAll(b[..k]) + Encode(b[k]) == EncodeAll(a) + (EncodeAll(b[..k]) + Encode(b[k]));
    }
  }

  lemma EncodeAllFirst(items: seq<Value>)
    requires items != []
    ensures EncodeAll(items) == Encode(items[0]) + EncodeAll(items[1..])
  {
    assert items == [items[0]] + items[1..];
    EncodeAllJoin([items[0]], items[1..]);
    EncodeAllSnoc([], items[0]);
    assert [] + [items[0]] == [items[0]];
  }

  /** A value is cut off the front in one way only. */
  lemma {:induction false} EncodeCancel(v: Value, w: Value, x: bytes, y: bytes)
    requires WellFormed(v) && WellFormed(w) && Encode(v) + x == Encode(w) + y
    ensures v == w && x == y
    decreases v, 0
  {
    hide U32, ReadU32, U64, I64;
    assert (Encode(v) + x)[0] == Encode(v)[0] && (Encode(w) + y)[0] == Encode(w)[0];
    var a, b := (Encode(v) + x)[1..], (Encode(w) + y)[1..];
    match v
    case Nil =>
      assert a == x && b == y;
    case Err(code, msg) =>
      assert a == U32(code) + (Field(msg) + x) && b == U32(w.code) + (Field(w.msg) + y);
      CountCancel(code, w.code, Field(msg) + x, Field(w.msg) + y);
      FieldCancel(msg, w.msg, x, y);
    case Str(s) =>
      assert a == Field(s) + x && b == Field(w.s) + y;
      FieldCancel(s, w.s, x, y);
    case Int(i) =>
      assert a == I64(i) + x && b == I64(w.i) + y;
      ReadI64OfI64(i, x);
      ReadI64OfI64(w.i, y);
      assert a[8..] == x && b[8..] == y;
    case Dbl(d) =>
      assert a == U64(d) + x && b == U64(w.d) + y;
      ReadU64OfU64(d, x);
      ReadU64OfU64(w.d, y);
      assert a[8..] == x && b[8..] == y;
    case Arr(items) =>
      assert a == U32(|items|) + (EncodeAll(items) + x) && b == U32(|w.items|) + (EncodeAll(w.items) + y);
      CountCancel(|items|, |w.items|, EncodeAll(items) + x, EncodeAll(w.items) + y);
      EncodeAllCancel(items, w.items, x, y);
  }

  lemma {:induction false} EncodeAllCancel(vs: seq<Value>, ws: seq<Value>, x: bytes, y: bytes)
    requires |vs| == |ws| && EncodeAll(vs) + x == EncodeAll(ws) + y
    requires (forall v :: v in vs ==> WellFormed(v)) && (forall w :: w in ws ==> WellFormed(w))
    ensures vs == ws && x == y
    decreases vs, 1
  {
    hide Encode, WellFormed;
    if vs == [] {
      assert EncodeAll(vs) + x == x && EncodeAll(ws) + y == y;
    } else {
      EncodeAllFirst(vs);
      EncodeAllFirst(ws);
      var a, b := EncodeAll(vs[1..]) + x, EncodeAll(ws[1..]) + y;
      assert EncodeAll(vs) + x == Encode(vs[0]) + a && EncodeAll(ws) + y == Encode(ws[0]) + b;
      EncodeCancel(vs[0], ws[0], a, b);
      EncodeAllCancel(vs[1..], ws[1..], x, y);
      assert vs == [vs[0]] + vs[1..] && ws == [ws[0]] + ws[1..];
    }
  }

  // ---------- print_response ----------

  /** `data` does not begin with a value that may stand at level `depth`. */
  ghost predicate NoValue(data: bytes, depth: nat) {
    forall v: Value :: WellFormed(v) && Shallow(v, depth) ==> !(Encode(v) <= data)
  }

  lemma TagOf(v: Value)
    ensures Encode(v)[0] == match v
      case Nil => 0
      case Err(_, _) => 1
      case Str(_) => 2
      case Int(_) => 3
      case Dbl(_) => 4
      case Arr(_) => 5
  {}

  lemma BadTag(data: bytes, depth: nat)
    requires data == [] || depth > 64 || data[0] > 5
    ensures NoValue(data, depth)
  {
    forall v: Value | WellFormed(v) && Shallow(v, depth) ensures !(Encode(v) <= data) { TagOf(v); }
  }

  /** `case TAG_ERR` */
  method DecodeErr(data: bytes, depth: nat) returns (n: int, v: Value)
    requires 1 <= |data| < 0x8000_0000 && depth <= 64 && data[0] == 1
    ensures n < 0 ==> NoValue(data, depth)
    ensures n >= 0 ==> n <= |data| && WellFormed(v) && Shallow(v, depth) && data[..n] == Encode(v)
  {
    hide U32, ReadU32, NoValue;
    if |data| < 9 {
      CutErr(data, depth);
      return -1, Nil;
    }
    var code, len := ReadU32(data[1..]), ReadU32(data[5..]);
    if len > |data| - 9 {
      CutErr(data, depth);
      return -1, Nil;
    }
    n, v := 9 + len, Err(code, data[9..9 + len]);
    U32OfReadU32(data[1..]);
    U32OfReadU32(data[5..]);
    assert data[..9 + len] == [1] + data[1..][..4] + data[5..][..4] + data[9..9 + len];
  }

  lemma CutErr(data: bytes, depth: nat)
    requires |data| >= 1 && data[0] == 1 && (|data| < 9 || ReadU32(data[5..]) > |data| - 9)
    ensures NoValue(data, depth)
  {
    hide U32, ReadU32;
    forall v: Value | WellFormed(v) && Shallow(v, depth) ensures !(Encode(v) <= data) {
      TagOf(v);
      if v.Err? && Encode(v) <= data {
        var rest := data[|Encode(v)|..];
        assert data == Encode(v) + rest;
        assert data[5..] == U32(|v.msg|) + (v.msg + rest);
        ReadU32OfU32(|v.msg|, v.msg + rest);
      }
    }
  }

  /** `case TAG_STR` */
  method DecodeStr(data: bytes, depth: nat) returns (n: int, v: Value)
    requires 1 <= |data| < 0x8000_0000 && depth <= 64 && data[0] == 2
    ensures n < 0 ==> NoValue(data, depth)
    ensures n >= 0 ==> n <= |data| && WellFormed(v) && Shallow(v, depth) && data[..n] == Encode(v)
  {
    hide U32, ReadU32, NoValue;
    if |data| < 5 {
      CutStr(data, depth);
      return -1, Nil;
    }
    var len := ReadU32(data[1..]);
    if len > |data| - 5 {
      CutStr(data, depth);
      return -1, Nil;
    }
    n, v := 5 + len, Str(data[5..5 + len]);
    U32OfReadU32(data[1..]);
    assert data[..5 + len] == [2] + data[1..][..4] + data[5..5 + len];
  }

  lemma CutStr(data: bytes, depth: nat)
    requires |data| >= 1 && data[0] == 2 && (|data| < 5 || ReadU32(data[1..]) > |data| - 5)
    ensures NoValue(data, depth)
  {
    hide U32, ReadU32;
    forall v: Value | WellFormed(v) && Shallow(v, depth) ensures !(Encode(v) <= data) {
      TagOf(v);
      if v.Str? && Encode(v) <= data {
        var rest := data[|Encode(v)|..];
        assert data == Encode(v) + rest;
        assert data[1..] == U32(|v.s|) + (v.s + rest);
        ReadU32OfU32(|v.s|, v.s + rest);
      }
    }
  }

  /** `case TAG_INT` and `case TAG_DBL` */
  method DecodeNumber(data: bytes, depth: nat) returns (n: int, v: Value)
    requires 1 <= |data| < 0x8000_0000 && depth <= 64 && 3 <= data[0] <= 4
    ensures n < 0 ==> NoValue(data, depth)
    ensures n >= 0 ==> n <= |data| && WellFormed(v) && Shallow(v, depth) && data[..n] == Encode(v)
  {
    hide U64, I64, ReadU64, ReadI64;
    if |data| < 9 {
      forall w: Value | WellFormed(w) && Shallow(w, depth) ensures !(Encode(w) <= data) { TagOf(w); }
      return -1, Nil;
    }
    I64OfReadI64(data[1..]);
    U64OfReadU64(data[1..]);
    assert data[..9] == [data[0]] + data[1..][..8];
    n, v := 9, if data[0] == 3 then Int(ReadI64(data[1..])) else Dbl(ReadU64(data[1..]));
  }

  /** `case TAG_ARR` */
  method DecodeArr(data: bytes, depth: nat) returns (n: int, v: Value)
    requires 1 <= |data| < 0x8000_0000 && depth <= 64 && data[0] == 5
    ensures n < 0 ==> NoValue(data, depth)
    ensures n >= 0 ==> n <= |data| && WellFormed(v) && Shallow(v, depth) && data[..n] == Encode(v)
    decreases |data|, 0
  {
    hide U32, ReadU32, NoValue, Encode;
    if |data| < 5 {
      CutArr(data, depth);
      return -1, Nil;
    }
    var len := ReadU32(data[1..]);
    U32OfReadU32(data[1..]);
    var pos: nat, items: seq<Value> := 5, [];
    assert data == [5] + data[1..][..4] + data[5..];
    while |items| < len
      invariant |items| <= len && 5 <= pos <= |data| && data == [5] + U32(len) + EncodeAll(items) + data[pos..]
      invariant forall x :: x in items ==> WellFormed(x) && Shallow(x, depth + 1)
      decreases len - |items|
    {
      var rv, x := Decode(data[pos..], depth + 1);
      if rv < 0 {
        StuckItem(data, depth, len, items, data[pos..]);
        return -1, Nil;
      }
      EncodeAllSnoc(items, x);
      OneMore(data, pos, rv, [5] + U32(len) + EncodeAll(items), Encode(x));
      items, pos := items + [x], pos + rv;
    }
    n, v := pos, Arr(items);
    EncodeArr(items);
    assert data[..pos] == [5] + U32(len) + EncodeAll(items);
  }

  lemma OneMore(data: bytes, pos: nat, n: nat, before: bytes, item: bytes)
    requires pos <= |data| && n <= |data| - pos && data == before + data[pos..] && data[pos..][..n] == item
    ensures data == before + item + data[pos + n..]
  {
    assert data[pos..] == data[pos..][..n] + data[pos + n..];
  }

  lemma CutArr(data: bytes, depth: nat)
    requires 1 <= |data| < 5 && data[0] == 5
    ensures NoValue(data, depth)
  {
    forall v: Value | WellFormed(v) && Shallow(v, depth) ensures !(Encode(v) <= data) { TagOf(v); }
  }

  /** If the next item cannot be read, no array of that many items stands at the front. */
  lemma StuckItem(data: bytes, depth: nat, len: nat, items: seq<Value>, rest: bytes)
    requires |items| < len < 0x1_0000_0000 && data == [5] + U32(len) + EncodeAll(items) + rest
    requires (forall x :: x in items ==> WellFormed(x)) && NoValue(rest, depth + 1)
    ensures NoValue(data, depth)
  {
    hide U32, EncodeAll, Encode, WellFormed, Shallow;
    forall v: Value | WellFormed(v) && Shallow(v, depth) ensures !(Encode(v) <= data) {
      TagOf(v);
      if v.Arr? && Encode(v) <= data {
        SameItems(data, depth, len, items, rest, v, data[|Encode(v)|..]);
      }
    }
  }

  lemma Small(v: Value)
    requires WellFormed(v) && v.Arr?
    ensures |v.items| < 0x1_0000_0000 && forall x :: x in v.items ==> WellFormed(x)
  {}

  lemma ArrCancel(n: nat, m: nat, a: bytes, b: bytes, x: bytes, y: bytes)
    requires n < 0x1_0000_0000 && m < 0x1_0000_0000 && [5] + U32(n) + a + x == [5] + U32(m) + b + y
    ensures n == m && a + x == b + y
  {
    hide U32;
    assert ([5] + U32(n) + a + x)[1..] == U32(n) + (a + x) && ([5] + U32(m) + b + y)[1..] == U32(m) + (b + y);
    CountCancel(n, m, a + x, b + y);
  }

  lemma SameItems(data: bytes, depth: nat, len: nat, items: seq<Value>, rest: bytes, v: Value, tail: bytes)
    requires |items| < len < 0x1_0000_0000 && data == [5] + U32(len) + EncodeAll(items) + rest
    requires WellFormed(v) && Shallow(v, depth) && v.Arr? && data == Encode(v) + tail && forall x :: x in items ==>
        WellFormed(x)
    ensures |v.items| == len && Encode(v.items[|items|]) <= rest
    ensures WellFormed(v.items[|items|]) && Shallow(v.items[|items|], depth + 1)
  {
    hide U32, WellFormed;
    Small(v);
    ArrCancel(len, |v.items|, EncodeAll(items), EncodeAll(v.items), rest, tail);
    NextItem(items, rest, v.items, tail);
    assert v.items[|items|] in v.items;
  }

  lemma SplitAt(all: seq<Value>, k: nat, tail: bytes)
    requires k < |all|
    ensures EncodeAll(all) + tail == EncodeAll(all[..k]) + (Encode(all[k]) + (EncodeAll(all[k + 1..]) + tail))
  {
    hide Encode;
    Around(all, k);
    SplitParts(all[..k], all[k], all[k + 1..], tail);
  }

  lemma Around(all: seq<Value>, k: nat)
    requires k < |all|
    ensures all == all[..k] + ([all[k]] + all[k + 1..])
  {}

  lemma SplitParts(a: seq<Value>, x: Value, b: seq<Value>, tail: bytes)
    ensures EncodeAll(a + ([x] + b)) + tail == EncodeAll(a) + (Encode(x) + (EncodeAll(b) + tail))
  {
    hide Encode;
    EncodeAllJoin(a, [x] + b);
    EncodeAllFirst([x] + b);
    assert ([x] + b)[1..] == b;
  }

  lemma NextItem(items: seq<Value>, rest: bytes, all: seq<Value>, tail: bytes)
    requires |items| < |all| && EncodeAll(items) + rest == EncodeAll(all) + tail
    requires (forall x :: x in items ==> WellFormed(x)) && forall x :: x in all ==> WellFormed(x)
    ensures Encode(all[|items|]) <= rest && items == all[..|items|]
  {
    hide Encode, WellFormed;
    var k := |items|;
    SplitAt(all, k, tail);
    EncodeAllCancel(items, all[..k], rest, Encode(all[k]) + (EncodeAll(all[k + 1..]) + tail));
  }

  /** `print_response`: how many bytes the value at the front takes, or -1 if there is none; `v` is the
      value that is printed. Sizes are within `int32_t`. */
  method Decode(data: bytes, depth: nat) returns (n: int, v: Value)
    requires |data| < 0x8000_0000
    ensures n < 0 ==> NoValue(data, depth)
    ensures n >= 0 ==> n <= |data| && WellFormed(v) && Shallow(v, depth) && data[..n] == Encode(v)
    decreases |data|, 1
  {
    hide NoValue;
    if |data| < 1 || depth > 64 {
      BadTag(data, depth);
      return -1, Nil;
    }
    match data[0]
    case 0 =>
      n, v := 1, Nil;
      assert data[..1] == [0];
    case 1 => n, v := DecodeErr(data, depth);
    case 2 => n, v := DecodeStr(data, depth);
    case 3 => n, v := DecodeNumber(data, depth);
    case 4 => n, v := DecodeNumber(data, depth);
    case 5 => n, v := DecodeArr(data, depth);
    case _ =>
      BadTag(data, depth);
      return -1, Nil;
  }

  /** What a server encodes, a client reads back, and it consumes exactly that. */
  method ReadBack(v: Value, suffix: bytes) returns (n: int, w: Value)
    requires WellFormed(v) && Shallow(v, 0) && |Encode(v) + suffix| < 0x8000_0000
    ensures w == v && n == |Encode(v)|
  {
    hide Encode, WellFormed, Shallow;
    n, w := Decode(Encode(v) + suffix, 0);
    assert Encode(v) <= Encode(v) + suffix;
    assert Encode(w) + (Encode(v) + suffix)[n..] == Encode(v) + suffix;
    EncodeCancel(w, v, (Encode(v) + suffix)[n..], suffix);
  }
}
