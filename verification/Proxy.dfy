/** The proxy of `src/proxy.cpp` and the shards of `src/shard_main.cpp`. */
module Proxy {
  import opened Bytes
  import opened HashMap
  import opened Wire
  import opened Requests
  import opened Tagged
  import opened StoreSpec
  import opened Sharding
  import opened KvStore

  // ---------- key lists on the wire ----------

  /** The body of the answer to `keys`. */
  function KeysBody(keys: seq<bytes>): bytes { Encode(Arr(Strs(keys))) }

  ghost predicate NotKeys(body: bytes) { forall keys: seq<bytes> :: Short(keys) ==> body != KeysBody(keys) }

  function Joined(parts: seq<seq<bytes>>): seq<bytes> {
    if parts == [] then [] else Joined(parts[..|parts| - 1]) + parts[|parts| - 1]
  }

  lemma BadHead(body: bytes)
    requires |body| < 5 || body[0] != 5
    ensures NotKeys(body)
  {
    hide U32, Strs;
    forall keys: seq<bytes> | Short(keys) ensures body != KeysBody(keys) { EncodeArr(Strs(keys)); }
  }

  lemma StrsOf(keys: seq<bytes>)
    requires Short(keys)
    ensures |Strs(keys)| == |keys| && forall v :: v in Strs(keys) ==> WellFormed(v)
  {}

  lemma StrFront(s: bytes, rest: bytes)
    requires |s| < 0x1_0000_0000 && Encode(Str(s)) <= rest
    ensures |rest| >= 5 && rest[0] == 2 && ReadU32(rest[1..]) == |s| <= |rest| - 5
  {
    hide U32, ReadU32;
    var tail := rest[5 + |s|..];
    assert rest == Encode(Str(s)) + tail;
    assert rest[1..] == U32(|s|) + (s + tail);
    ReadU32OfU32(|s|, s + tail);
  }

  /** A list of keys with this beginning goes on with a key. */
  lemma NextKey(body: bytes, n: nat, keys: seq<bytes>, rest: bytes, all: seq<bytes>)
    requires n < 0x1_0000_0000 && Short(keys) && Short(all) && |keys| <= n
    requires body == [5] + U32(n) + EncodeAll(Strs(keys)) + rest && body == KeysBody(all)
    ensures |all| == n && (|keys| < n ==> Encode(Str(all[|keys|])) <= rest) && (|keys| == n ==> rest == [])
  {
    hide U32, Encode, EncodeAll, WellFormed;
    var vs, ws := Strs(keys), Strs(all);
    StrsOf(keys);
    StrsOf(all);
    EncodeArr(ws);
    assert body == body + [];
    ArrCancel(n, |all|, EncodeAll(vs), EncodeAll(ws), rest, []);
    if |keys| < n {
      NextItem(vs, rest, ws, []);
    } else {
      EncodeAllCancel(vs, ws, rest, []);
    }
  }

  lemma StuckKey(body: bytes, n: nat, keys: seq<bytes>, rest: bytes)
    requires n < 0x1_0000_0000 && Short(keys) && |keys| < n && body == [5] + U32(n) + EncodeAll(Strs(keys)) + rest
    requires |rest| < 5 || rest[0] != 2 || ReadU32(rest[1..]) > |rest| - 5
    ensures NotKeys(body)
  {
    hide U32, ReadU32, Encode, EncodeAll, KeysBody, Strs;
    forall all: seq<bytes> | Short(all) ensures body != KeysBody(all) {
      if body == KeysBody(all) {
        NextKey(body, n, keys, rest, all);
        StrFront(all[|keys|], rest);
      }
    }
  }

  lemma LeftOver(body: bytes, n: nat, keys: seq<bytes>, rest: bytes)
    requires n < 0x1_0000_0000 && Short(keys) && |keys| == n && body == [5] + U32(n) + EncodeAll(Strs(keys)) + rest
    requires rest != []
    ensures NotKeys(body)
  {
    hide U32, Encode, EncodeAll, KeysBody, Strs;
    forall all: seq<bytes> | Short(all) ensures body != KeysBody(all) {
      if body == KeysBody(all) { NextKey(body, n, keys, rest, all); }
    }
  }

  /** The inner loop of `merge_key_arrays`: accepts exactly the encoded lists of strings. */
  method ParseKeys(body: bytes) returns (ok: bool, keys: seq<bytes>)
    ensures ok ==> body == KeysBody(keys) && Short(keys)
    ensures !ok ==> NotKeys(body)
  {
    hide U32, ReadU32, Encode, EncodeAll, NotKeys, Strs;
    keys := [];
    if |body| == 0 || body[0] != 5 || |body| < 5 {
      BadHead(body);
      return false, keys;
    }
    var n, off := ReadU32(body[1..]), 5;
    U32OfReadU32(body[1..]);
    NothingYet(keys);
    assert body == [5] + body[1..][..4] + body[5..];
    while |keys| < n
      invariant 5 <= off <= |body| && |keys| <= n && Short(keys)
      invariant body == [5] + U32(n) + EncodeAll(Strs(keys)) + body[off..]
    {
      if |body| - off < 5 || body[off] != 2 {
        StuckKey(body, n, keys, body[off..]);
        return false, keys;
      }
      var len := ReadU32(body[off + 1..]);
      assert body[off..][1..] == body[off + 1..];
      if off + 5 + len > |body| {
        StuckKey(body, n, keys, body[off..]);
        return false, keys;
      }
      var key := body[off + 5..off + 5 + len];
      KeyThere(body, off, len);
      KeyAdded(keys, key);
      OneMore(body, off, 5 + len, [5] + U32(n) + EncodeAll(Strs(keys)), Encode(Str(key)));
      keys, off := keys + [key], off + 5 + len;
    }
    ok := off == |body|;
    if ok {
      KeysDone(keys);
      assert body[off..] == [];
    } else {
      LeftOver(body, n, keys, body[off..]);
    }
  }

  lemma KeysDone(keys: seq<bytes>)
    ensures KeysBody(keys) == [5] + U32(|keys|) + EncodeAll(Strs(keys))
  {
    hide U32, EncodeAll;
    EncodeArr(Strs(keys));
  }

  lemma KeyThere(body: bytes, off: nat, len: nat)
    requires off + 5 + len <= |body| && body[off] == 2 && ReadU32(body[off + 1..]) == len
    ensures body[off..][..5 + len] == Encode(Str(body[off + 5..off + 5 + len]))
  {
    hide U32, ReadU32;
    U32OfReadU32(body[off + 1..]);
    assert body[off..][..5 + len] == [body[off]] + body[off + 1..][..4] + body[off + 5..off + 5 + len];
  }

  lemma KeyAdded(keys: seq<bytes>, key: bytes)
    ensures EncodeAll(Strs(keys + [key])) == EncodeAll(Strs(keys)) + Encode(Str(key))
  {
    hide Encode;
    assert Strs(keys + [key]) == Strs(keys) + [Str(key)];
    EncodeAllSnoc(Strs(keys), Str(key));
  }

  /** `merge_key_arrays`: if every body is a list of strings, the output is the list of all of them, in
      order; if not, nothing is written. */
  method MergeKeyArrays(bodies: seq<bytes>, out: Buffer) returns (ok: bool, ghost parts: seq<seq<bytes>>)
    modifies out
    ensures ok ==> |parts| == |bodies| && forall i :: 0 <= i < |bodies| ==>
      bodies[i] == KeysBody(parts[i]) && Short(parts[i])
    ensures ok ==> out.data == old(out.data) + KeysBody(Joined(parts))
    ensures !ok ==> out.data == old(out.data) && exists i :: 0 <= i < |bodies| && NotKeys(bodies[i])
  {
    hide U32, Encode, EncodeAll, NotKeys, Strs, Short, KeysBody;
    var keys: seq<bytes> := [];
    parts := [];
    var i := 0;
    while i < |bodies|
      invariant i <= |bodies| && |parts| == i && keys == Joined(parts) && out.data == old(out.data)
      invariant forall j :: 0 <= j < i ==> bodies[j] == KeysBody(parts[j]) && Short(parts[j])
    {
      var good, part := ParseKeys(bodies[i]);
      if !good {
        return false, parts;
      }
      assert (parts + [part])[..i] == parts;
      parts, keys, i := parts + [part], keys + part, i + 1;
    }
    out.OutArr(|keys|);
    ghost var head := out.data;
    i := 0;
    NothingYet(keys);
    while i < |keys|
      invariant i <= |keys| && out.data == head + EncodeAll(Strs(keys[..i]))
    {
      out.Out(Str(keys[i]));
      OneKey(keys, i);
      i := i + 1;
    }
    assert keys[..|keys|] == keys;
    KeysDone(keys);
    assert out.data == old(out.data) + ([5] + U32(|keys|) + EncodeAll(Strs(keys)));
    ok := true;
  }

  /** `extract_response_body`: accepts exactly the frames. */
  method ExtractBody(framed: bytes) returns (ok: bool, body: bytes)
    ensures ok ==> framed == U32(|body|) + body && |body| < 0x1_0000_0000
    ensures !ok ==> forall b: bytes :: |b| < 0x1_0000_0000 ==> framed != U32(|b|) + b
  {
    hide U32, ReadU32;
    body := [];
    if |framed| < 4 { return false, body; }
    var len := ReadU32(framed);
    if len != |framed| - 4 {
      forall b: bytes | |b| < 0x1_0000_0000 ensures framed != U32(|b|) + b { ReadU32OfU32(|b|, b); }
      return false, body;
    }
    body := framed[4..4 + len];
    U32OfReadU32(framed);
    ok := true;
  }

  // ---------- a shard ----------

  /** The ownership guard of a shard. */
  predicate Refuses(id: nat, n: nat, cmd: Command) {
    n > 1 && RoutingKey(cmd).Some? && ShardFor(RoutingKey(cmd).value, n) != id
  }

  datatype Times = Times(now: nat, later: nat)

  ghost predicate ShardExecutes(s: Store, id: nat, n: nat, cmd: Command, t: Times, strtod: bytes -> Strtod, s': Store,
      reply: Value) {
    if Refuses(id, n, cmd) then s' == s && reply == BadArg("key does not belong to this shard")
    else Executes(s, cmd, t.now, t.later, strtod, s', reply)
  }

  /** `on_request` of a shard. */
  method ShardRequest(kv: KVStore, id: nat, n: nat, cmd: Command, t: Times, out: Buffer) returns (ghost reply: Value)
    requires kv.Valid() && t.now <= t.later
    modifies kv.Repr, out
    ensures kv.Valid() && kv.Repr >= old(kv.Repr) && fresh(kv.Repr - old(kv.Repr))
    ensures ShardExecutes(old(kv.store), id, n, cmd, t, kv.strtod, kv.store, reply)
    ensures out.data == old(out.data) + Encode(reply)
  {
    hide KVStore.Valid, Executes, Encode, Ascii;
    if n > 1 {
      var key := RoutingKey(cmd);
      if key.Some? && ShardFor(key.value, n) != id {
        kv.Inside();
        reply := BadArg("key does not belong to this shard");
        out.Out(BadArg("key does not belong to this shard"));
        return;
      }
    }
    reply := kv.Execute(cmd, t.now, t.later, out);
  }

  /** `tcp_rpc` to a shard that can be reached, and what the server loop of the shard does with it. */
  method Rpc(kv: KVStore, id: nat, n: nat, cmd: Command, t: Times) returns (framed: bytes, ghost reply: Value)
    requires kv.Valid() && t.now <= t.later && Fits(cmd)
    modifies kv.Repr
    ensures kv.Valid() && kv.Repr >= old(kv.Repr) && fresh(kv.Repr - old(kv.Repr))
    ensures ShardExecutes(old(kv.store), id, n, cmd, t, kv.strtod, kv.store, reply)
    ensures framed == Frame(Encode(reply))
  {
    hide KVStore.Valid, Executes, Encode, Frame, U32, Body, Fits, ShardExecutes;
    var request := EncodeRequest(cmd);
    var ok, received := ParseReq(request[4..]);
    assert request[4..] == Body(cmd);
    assert Body(received) + [] == Body(cmd);
    BodyPrefixFree(received, cmd, []);
    var out := new Buffer();
    var header := out.ResponseBegin();
    reply := ShardRequest(kv, id, n, received, t, out);
    out.ResponseEnd(header, [], Encode(reply));
    framed := out.data;
  }

  // ---------- the proxy ----------

  /** What the proxy makes of the bodies the shards send for `keys`. */
  ghost predicate Gathers(replies: seq<Value>, body: bytes) {
    || (exists parts: seq<seq<bytes>> :: IsParts(replies, parts) && body == KeysBody(Joined(parts)))
    || (body == Encode(Err(ERR_UNKNOWN, Ascii("failed to merge keys"))) && exists i ::
      0 <= i < |replies| && NotKeys(Clip(Encode(replies[i]))))
  }

  ghost predicate IsParts(replies: seq<Value>, parts: seq<seq<bytes>>) {
    |parts| == |replies| && forall i :: 0 <= i < |parts| ==>
      Clip(Encode(replies[i])) == KeysBody(parts[i]) && Short(parts[i])
  }

  ghost predicate ScatterStep(ss: seq<Store>, cmd: Command, times: seq<Times>, strtod: bytes -> Strtod,
      ss': seq<Store>, replies: seq<Value>)
    requires |times| == |ss|
  {
    && |ss'| == |ss| && |replies| == |ss|
    && forall i :: 0 <= i < |ss| ==> ShardExecutes(ss[i], i, |ss|, cmd, times[i], strtod, ss'[i], replies[i])
  }

  /** What the proxy with its shards does with a command: the body it answers and the new shard states. */
  ghost predicate ClusterExecutes(ss: seq<Store>, cmd: Command, times: seq<Times>, strtod: bytes -> Strtod,
      ss': seq<Store>, replies: seq<Value>, body: bytes)
    requires |times| == |ss| > 0
  {
    if IsPing(cmd) then ss' == ss && body == Encode(Str(if |cmd| == 2 then cmd[1] else Ascii("PONG")))
    else if IsScatterGather(cmd) then ScatterStep(ss, cmd, times, strtod, ss', replies) && Gathers(replies, body)
    else match RoutingKey(cmd)
      case None => ss' == ss && body == Encode(Err(ERR_UNKNOWN, Ascii("cannot route command")))
      case Some(key) =>
        var id := ShardFor(key, |ss|);
        && |ss'| == |ss| && ss' == ss[id := ss'[id]] && |replies| == 1
        && ShardExecutes(ss[id], id, |ss|, cmd, times[id], strtod, ss'[id], replies[0])
        && body == Clip(Encode(replies[0]))
  }

  /** A request to one shard and the body of its answer. */
  method Ask(shards: seq<KVStore>, id: nat, cmd: Command, t: Times, ghost ss: seq<Store>)
      returns (body: bytes, ghost reply: Value, ghost ss': seq<Store>)
    requires id < |shards| == |ss| && t.now <= t.later && Fits(cmd)
    requires forall i :: 0 <= i < |shards| ==> shards[i].Valid() && shards[i].store == ss[i]
    requires forall i, j :: 0 <= i < j < |shards| ==> shards[i].Repr !! shards[j].Repr
    modifies shards[id].Repr
    ensures |ss'| == |ss| && ss' == ss[id := ss'[id]]
    ensures forall i :: 0 <= i < |shards| ==> shards[i].Valid() && shards[i].store == ss'[i]
    ensures forall i, j :: 0 <= i < j < |shards| ==> shards[i].Repr !! shards[j].Repr
    ensures forall i :: 0 <= i < |shards| ==>
      shards[i].Repr >= old(shards[i].Repr) && fresh(shards[i].Repr - old(shards[i].Repr))
    ensures ShardExecutes(ss[id], id, |ss|, cmd, t, shards[id].strtod, ss'[id], reply)
    ensures body == Clip(Encode(reply))
  {
    hide KVStore.Valid, ShardExecutes, Encode, U32, Fits, Clip;
    forall i | 0 <= i < |shards| ensures Contained(shards[i]) { shards[i].Inside(); }
    var framed;
    framed, reply := Rpc(shards[id], id, |shards|, cmd, t);
    ss' := ss[id := shards[id].store];
    var ok;
    ok, body := ExtractBody(framed);
    FrameBody(Encode(reply), ok, framed, body);
  }

  ghost predicate Contained(kv: KVStore)
    reads kv, kv.entries
    reads set e | e in kv.entries :: e.zset
  {
    kv in kv.Repr && kv.db in kv.Repr && kv.heap in kv.Repr && forall e :: e in kv.entries ==>
      e in kv.Repr && e.zset.Repr() <= kv.Repr
  }

  lemma FrameBody(sent: bytes, ok: bool, framed: bytes, body: bytes)
    requires framed == Frame(sent) && (ok ==> framed == U32(|body|) + body && |body| < 0x1_0000_0000)
    requires !ok ==> forall b: bytes :: |b| < 0x1_0000_0000 ==> framed != U32(|b|) + b
    ensures ok && body == Clip(sent)
  {
    hide U32, Clip;
    if ok { CountCancel(|body|, |Clip(sent)|, body, Clip(sent)); }
  }

  /** The loop of `on_request` that asks every shard. */
  method Scatter(shards: seq<KVStore>, cmd: Command, times: seq<Times>, ghost strtod: bytes -> Strtod,
      ghost ss: seq<Store>)
    returns (bodies: seq<bytes>, ghost replies: seq<Value>, ghost ss': seq<Store>)
    requires |times| == |shards| == |ss| && Fits(cmd) && forall t :: t in times ==> t.now <= t.later
    requires forall i :: 0 <= i < |shards| ==>
      shards[i].Valid() && shards[i].store == ss[i] && shards[i].strtod == strtod
    requires forall i, j :: 0 <= i < j < |shards| ==> shards[i].Repr !! shards[j].Repr
    modifies set i, o | 0 <= i < |shards| && o in shards[i].Repr :: o
    ensures ScatterStep(ss, cmd, times, strtod, ss', replies)
    ensures forall i :: 0 <= i < |shards| ==> shards[i].Valid() && shards[i].store == ss'[i]
    ensures forall i, j :: 0 <= i < j < |shards| ==> shards[i].Repr !! shards[j].Repr
    ensures forall i :: 0 <= i < |shards| ==>
      shards[i].Repr >= old(shards[i].Repr) && fresh(shards[i].Repr - old(shards[i].Repr))
    ensures |bodies| == |replies| && forall i :: 0 <= i < |bodies| ==> bodies[i] == Clip(Encode(replies[i]))
  {
    hide KVStore.Valid, ShardExecutes, Encode, Fits, Clip;
    bodies, replies, ss' := [], [], ss;
    var id := 0;
    while id < |shards|
      invariant id <= |shards| && |bodies| == |replies| == id && |ss'| == |ss|
      invariant forall i :: 0 <= i < |shards| ==> shards[i].Valid() && shards[i].store == ss'[i]
      invariant forall i, j :: 0 <= i < j < |shards| ==> shards[i].Repr !! shards[j].Repr
      invariant forall i :: 0 <= i < |shards| ==>
        shards[i].Repr >= old(shards[i].Repr) && fresh(shards[i].Repr - old(shards[i].Repr))
      invariant forall i :: id <= i < |shards| ==> ss'[i] == ss[i]
      invariant forall i :: 0 <= i < id ==> ShardExecutes(ss[i], i, |ss|, cmd, times[i], strtod, ss'[i], replies[i])
      invariant forall i :: 0 <= i < id ==> bodies[i] == Clip(Encode(replies[i]))
    {
      ghost var now := ss';
      var body;
      ghost var reply;
      body, reply, ss' := Ask(shards, id, cmd, times[id], now);
      bodies, replies := bodies + [body], replies + [reply];
      id := id + 1;
    }
  }

  /** `on_request` of the proxy, when every shard can be reached and the shards are listed by their ids. */
  method OnRequest(shards: seq<KVStore>, cmd: Command, times: seq<Times>, out: Buffer, ghost strtod: bytes -> Strtod,
      ghost ss: seq<Store>)
    returns (ghost ss': seq<Store>, ghost replies: seq<Value>, ghost body: bytes)
    requires |times| == |shards| == |ss| > 0 && Fits(cmd) && forall t :: t in times ==> t.now <= t.later
    requires forall i :: 0 <= i < |shards| ==>
      shards[i].Valid() && shards[i].store == ss[i] && shards[i].strtod == strtod && out !in shards[i].Repr
    requires forall i, j :: 0 <= i < j < |shards| ==> shards[i].Repr !! shards[j].Repr
    modifies set i, o | 0 <= i < |shards| && o in shards[i].Repr :: o
    modifies out
    ensures |ss'| == |ss| && ClusterExecutes(ss, cmd, times, strtod, ss', replies, body)
    ensures out.data == old(out.data) + body
    ensures forall i :: 0 <= i < |shards| ==> shards[i].Valid() && shards[i].store == ss'[i] && out !in shards[i].Repr
    ensures forall i, j :: 0 <= i < j < |shards| ==> shards[i].Repr !! shards[j].Repr
    ensures forall i :: 0 <= i < |shards| ==>
      shards[i].Repr >= old(shards[i].Repr) && fresh(shards[i].Repr - old(shards[i].Repr))
  {
    hide KVStore.Valid, ShardExecutes, Encode, Fits, Clip, Ascii, Gathers, ShardFor;
    forall i | 0 <= i < |shards| ensures Contained(shards[i]) { shards[i].Inside(); }
    ss', replies := ss, [];
    if IsPing(cmd) {
      body := Encode(Str(if |cmd| == 2 then cmd[1] else Ascii("PONG")));
      out.Out(Str(if |cmd| == 2 then cmd[1] else Ascii("PONG")));
      return;
    }
    if IsScatterGather(cmd) {
      var bodies;
      bodies, replies, ss' := Scatter(shards, cmd, times, strtod, ss);
      body := Gather(bodies, out, replies);
      return;
    }
    var key := RoutingKey(cmd);
    if key.None? {
      body := Encode(Err(ERR_UNKNOWN, Ascii("cannot route command")));
      out.Out(Err(ERR_UNKNOWN, Ascii("cannot route command")));
      return;
    }
    var id := ShardFor(key.value, |shards|);
    var answer;
    ghost var reply;
    answer, reply, ss' := Ask(shards, id, cmd, times[id], ss);
    replies, body := [reply], answer;
    out.data := out.data + answer;
  }

  /** The end of the scattered request. */
  method Gather(bodies: seq<bytes>, out: Buffer, ghost replies: seq<Value>) returns (ghost body: bytes)
    requires |bodies| == |replies| && forall i :: 0 <= i < |bodies| ==> bodies[i] == Clip(Encode(replies[i]))
    modifies out
    ensures Gathers(replies, body) && out.data == old(out.data) + body
  {
    hide Encode, Clip, Ascii, KeysBody, NotKeys, Short;
    var ok;
    ghost var parts;
    ok, parts := MergeKeyArrays(bodies, out);
    if ok {
      body := KeysBody(Joined(parts));
      assert IsParts(replies, parts);
    } else {
      body := Encode(Err(ERR_UNKNOWN, Ascii("failed to merge keys")));
      out.Out(Err(ERR_UNKNOWN, Ascii("failed to merge keys")));
      ghost var i :| 0 <= i < |bodies| && NotKeys(bodies[i]);
      assert NotKeys(Clip(Encode(replies[i])));
    }
  }
}
