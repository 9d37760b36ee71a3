/** Every answer of a store that fits in a response is one that the client can print. */
module Readable {
  import opened Bytes
  import opened Decimals
  import opened HashMap
  import opened Wire
  import opened Requests
  import opened ZSets
  import opened StoreSpec
  import opened StoreRuns
  import opened Tagged

  /** A value that is not an array, or an array of strings and doubles, with one of the error codes. */
  ghost predicate Plain(v: Value) {
    && (v.Err? ==> v.code <= ERR_BAD_ARG)
    && (v.Arr? ==> forall x :: x in v.items ==> x.Str? || x.Dbl?)
  }

  lemma {:induction false} PairsPlain(s: seq<Member>)
    ensures forall x :: x in Pairs(s) ==> x.Str? || x.Dbl?
  {
    if s != [] { PairsPlain(s[..|s| - 1]); }
  }

  lemma QueryPlain(s: Store, key: bytes, score: MaybeDouble, name: bytes, offset: bytes, limit: bytes, reply: Value)
    requires Zquery(s, key, score, name, offset, limit, reply)
    ensures Plain(reply) && !reply.Int?
  {
    hide Ascii, Parse, Pairs, IsListing, SeekPoint, Slice;
    if reply.Arr? && reply.items != [] {
      var list, k: nat :| IsListing(list, StoreSpec.Scores(s, key)) && SeekPoint(list, Member(name, score.value), k) &&
        reply == Arr(Pairs(if k == |list| then [] else Slice(list, k + Parse(offset).value, Parse(limit).value)));
      PairsPlain(if k == |list| then [] else Slice(list, k + Parse(offset).value, Parse(limit).value));
    }
  }

  /** An integer answer is in range. */
  predicate InRange(v: Value) { v.Int? ==> IsInt64(v.i) }

  lemma PlainByFunction(s: Store, k: bytes, x: bytes, now: nat, score: MaybeDouble)
    ensures Plain(Persist(s, k).reply) && InRange(Persist(s, k).reply)
    ensures Plain(Incr(s, k).reply) && InRange(Incr(s, k).reply)
    ensures Plain(Set(s, k, x).reply) && InRange(Set(s, k, x).reply)
    ensures Plain(StoreSpec.Del(s, k).reply) && InRange(StoreSpec.Del(s, k).reply)
    ensures Plain(Expire(s, k, x, now).reply) && InRange(Expire(s, k, x, now).reply)
    ensures Plain(Zadd(s, k, score, x).reply) && InRange(Zadd(s, k, score, x).reply)
    ensures Plain(Zrem(s, k, x).reply) && InRange(Zrem(s, k, x).reply)
    ensures Plain(Get(s, k)) && InRange(Get(s, k)) && Plain(Zscore(s, k, x)) && InRange(Zscore(s, k, x))
    ensures Plain(Ttl(s, k, now)) && (InRange(Ttl(s, k, now)) || Ttl(s, k, now).i >= 0)
  {
    hide Ascii, Parse, Decimal, Put;
  }

  lemma ReplyPlain(s: Store, cmd: Command, now: nat, strtod: bytes -> Strtod, s': Store, reply: Value)
    requires Dispatch(s, cmd, now, strtod, s', reply)
    ensures Plain(reply)
    ensures InRange(reply) || (|cmd| == 2 && IsOn(cmd, "pttl", 2, cmd[1]) && reply.i >= 0)
  {
    hide Ascii, Persist, Incr, Set, StoreSpec.Del, Expire, Zadd, Zrem, Get, Ttl, TypeName, Zscore, Zquery, ParseDouble;
    var n := |cmd|;
    if n >= 2 {
      var x := if n >= 4 then cmd[3] else if n >= 3 then cmd[2] else [];
      var score := if n >= 3 then ParseDouble(strtod, cmd[2]) else NotADouble;
      PlainByFunction(s, cmd[1], x, now, score);
      if n == 6 && Zquery(s, cmd[1], score, cmd[3], cmd[4], cmd[5], reply) {
        QueryPlain(s, cmd[1], score, cmd[3], cmd[4], cmd[5], reply);
      }
    }
  }

  lemma {:induction false} ItemLength(items: seq<Value>, x: Value)
    requires x in items
    ensures |Encode(x)| + |items| <= |EncodeAll(items)| + 1
  {
    hide Encode;
    var n := |items| - 1;
    if x in items[..n] {
      ItemLength(items[..n], x);
    } else if n > 0 {
      ItemLength(items[..n], items[0]);
    }
  }

  /** What fits in a response and is plain, the format can carry. */
  lemma PlainCarried(v: Value)
    requires Plain(v) && InRange(v) && |Encode(v)| <= MAX_MSG
    ensures WellFormed(v) && Shallow(v, 0)
  {
    hide EncodeAll;
    if v.Arr? {
      forall x | x in v.items ensures WellFormed(x) && Shallow(x, 1) { ItemLength(v.items, x); }
      if v.items != [] { ItemLength(v.items, v.items[0]); }
    }
  }

  /** In every run from an empty store: an answer that fits in a response is one the client accepts whole. */
  lemma AnswersReadable(states: seq<Store>, events: seq<Event>, replies: seq<Value>, strtod: bytes -> Strtod, i: nat)
    requires IsRun(states, events, replies, strtod) && states[0] == map[]
    requires i < |events| && |Encode(replies[i])| <= MAX_MSG
    ensures WellFormed(replies[i]) && Shallow(replies[i], 0)
  {
    hide Dispatch, Encode, InTime, IsOn, Ascii;
    var e := events[i];
    assert Happens(states[i], e, strtod, states[i + 1], replies[i]);
    if e.Request? {
      ReplyPlain(Reap(states[i], e.now), e.cmd, e.later, strtod, states[i + 1], replies[i]);
      if !InRange(replies[i]) {
        var j, ms := PttlBounded(states, events, replies, strtod, i, e.cmd[1]);
      }
    }
    PlainCarried(replies[i]);
  }

  /** So the client prints exactly what the store answered. */
  method ClientReads(ghost states: seq<Store>, ghost events: seq<Event>, ghost replies: seq<Value>,
      ghost strtod: bytes -> Strtod, ghost i: nat, body: bytes)
    returns (n: int, v: Value)
    requires IsRun(states, events, replies, strtod) && states[0] == map[] && i < |events|
    requires body == Encode(replies[i]) && |body| <= MAX_MSG
    ensures n == |body| && v == replies[i]
  {
    hide Encode, Happens, InTime, WellFormed, Shallow;
    AnswersReadable(states, events, replies, strtod, i);
    n, v := Decode(body, 0);
    assert Encode(replies[i]) <= body;
    assert Encode(v) + body[n..] == body + [];
    EncodeCancel(v, replies[i], body[n..], []);
  }
}
