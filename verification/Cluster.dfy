/** The proxy with its shards answers as one store would. */
module Cluster {
  import opened Bytes
  import opened HashMap
  import opened Wire
  import opened Requests
  import opened Tagged
  import opened StoreSpec
  import opened StoreRuns
  import opened Sharding
  import opened Proxy

  // ---------- the relation between one store and the shards ----------

  /** What is under a key, not counting what is due. */
  function Live(s: Store, k: bytes, t: nat): Option<Item> { if k in s && !Due(s[k], t) then Some(s[k]) else None }

  /** A shard holds only keys of its own. */
  ghost predicate Owned(ss: seq<Store>) { forall i, k :: 0 <= i < |ss| && k in ss[i] ==> ShardFor(k, |ss|) == i }

  ghost predicate SameLive(s: Store, ss: seq<Store>, t: nat)
    requires |ss| > 0
  { forall k :: Live(s, k, t) == Live(ss[ShardFor(k, |ss|)], k, t) }

  /** From `t` on, the store is the disjoint union of the shards. */
  ghost predicate Sim(s: Store, ss: seq<Store>, t: nat) { |ss| > 0 && Owned(ss) && SameLive(s, ss, t) }

  lemma SimLater(s: Store, ss: seq<Store>, t: nat, t': nat)
    requires Sim(s, ss, t) && t <= t'
    ensures Sim(s, ss, t')
  {
    forall k ensures Live(s, k, t') == Live(ss[ShardFor(k, |ss|)], k, t') {
      assert Live(s, k, t) == Live(ss[ShardFor(k, |ss|)], k, t);
    }
  }

  lemma LiveIsReaped(s: Store, k: bytes, t: nat)
    ensures Live(s, k, t) == At(Reap(s, t), k)
  {}

  // ---------- steps that nobody asked for ----------

  /** Timers may run anywhere at any time. */
  lemma ShardTimer(s: Store, ss: seq<Store>, i: nat, s': Store, t: nat)
    requires Sim(s, ss, t) && i < |ss| && PartReap(ss[i], s', t)
    ensures Sim(s, ss[i := s'], t)
  {
    var ss' := ss[i := s'];
    forall k ensures Live(s, k, t) == Live(ss'[ShardFor(k, |ss'|)], k, t) {
      assert Live(s, k, t) == Live(ss[ShardFor(k, |ss|)], k, t);
    }
  }

  lemma StoreTimer(s: Store, ss: seq<Store>, s': Store, t: nat)
    requires Sim(s, ss, t) && PartReap(s, s', t)
    ensures Sim(s', ss, t)
  {
    forall k ensures Live(s', k, t) == Live(ss[ShardFor(k, |ss|)], k, t) {
      assert Live(s, k, t) == Live(ss[ShardFor(k, |ss|)], k, t);
    }
  }

  lemma ReapIsPartReap(s: Store, now: nat, t: nat)
    requires now <= t
    ensures PartReap(s, Reap(s, now), t)
  {}

  // ---------- commands with a key ----------

  /** The shard that the proxy picks never refuses. */
  lemma GuardSilent(cmd: Command, n: nat)
    requires RoutingKey(cmd).Some?
    ensures !Refuses(ShardFor(RoutingKey(cmd).value, n), n, cmd)
  {}

  /** A command with a key: the same answer, and the relation is kept. */
  lemma Routed(s: Store, ss: seq<Store>, cmd: Command, t: Times, strtod: bytes -> Strtod, s': Store, reply: Value,
      si': Store, ri: Value)
    requires Sim(s, ss, t.now) && RoutingKey(cmd).Some? && t.now <= t.later
    requires Executes(s, cmd, t.now, t.later, strtod, s', reply)
    requires var id := ShardFor(RoutingKey(cmd).value, |ss|); ShardExecutes(ss[id], id, |ss|, cmd, t, strtod, si', ri)
    ensures ri == reply
    ensures Sim(s', ss[ShardFor(RoutingKey(cmd).value, |ss|) := si'], t.later)
  {
    hide Dispatch, Refuses, KeyedOp, ShardFor;
    var key, id := RoutingKey(cmd).value, ShardFor(RoutingKey(cmd).value, |ss|);
    GuardSilent(cmd, |ss|);
    var r, ri0 := Reap(s, t.now), Reap(ss[id], t.now);
    assert Live(s, key, t.now) == Live(ss[id], key, t.now);
    LiveIsReaped(s, key, t.now);
    LiveIsReaped(ss[id], key, t.now);
    SameAtItsKey(r, ri0, cmd, t.later, strtod, s', reply, si', ri);
    OnlyItsKey(r, cmd, t.later, strtod, s', reply);
    OnlyItsKey(ri0, cmd, t.later, strtod, si', ri);
    RoutedKeeps(s, ss, key, t, s', si');
  }

  lemma RoutedKeeps(s: Store, ss: seq<Store>, key: bytes, t: Times, s': Store, si': Store)
    requires Sim(s, ss, t.now) && t.now <= t.later
    requires var id := ShardFor(key, |ss|);
             At(s', key) == At(si', key) && OnlyAt(Reap(s, t.now), s', key) && OnlyAt(Reap(ss[id], t.now), si', key)
    ensures Sim(s', ss[ShardFor(key, |ss|) := si'], t.later)
  {
    hide ShardFor;
    var id := ShardFor(key, |ss|);
    var ss' := ss[id := si'];
    forall i, k | 0 <= i < |ss'| && k in ss'[i] ensures ShardFor(k, |ss'|) == i {
      if i == id && k != key { assert At(si', k) == At(Reap(ss[id], t.now), k); }
    }
    forall k ensures Live(s', k, t.later) == Live(ss'[ShardFor(k, |ss'|)], k, t.later) {
      assert Live(s, k, t.now) == Live(ss[ShardFor(k, |ss|)], k, t.now);
      if k != key {
        assert At(s', k) == At(Reap(s, t.now), k) && At(si', k) == At(Reap(ss[id], t.now), k);
      } else {
        assert At(s', k) == At(si', k);
      }
    }
  }

  /** A shard of several refuses a command for a key of another shard, and keeps what it has. */
  lemma ForeignRefused(s: Store, id: nat, n: nat, cmd: Command, t: Times, strtod: bytes -> Strtod, s': Store,
      reply: Value)
    requires ShardExecutes(s, id, n, cmd, t, strtod, s', reply)
    requires n > 1 && |cmd| >= 2 && KeyedOp(cmd[0]) && ShardFor(cmd[1], n) != id
    ensures s' == s && reply.Err? && reply.code == ERR_BAD_ARG
  {
    hide Executes, Ascii;
  }

  /** The keys of a shard of several are its own. */
  ghost predicate OwnKeys(s: Store, id: nat, n: nat) { n > 1 ==> forall k :: k in s ==> ShardFor(k, n) == id }

  lemma OwnKept(s: Store, id: nat, n: nat, cmd: Command, t: Times, strtod: bytes -> Strtod, s': Store, reply: Value)
    requires OwnKeys(s, id, n) && ShardExecutes(s, id, n, cmd, t, strtod, s', reply)
    ensures OwnKeys(s', id, n)
  {
    hide Dispatch, KeyedOp, ShardFor;
    if !Refuses(id, n, cmd) {
      OnlyItsKey(Reap(s, t.now), cmd, t.later, strtod, s', reply);
      if n > 1 && RoutingKey(cmd).Some? {
        forall k | k in s' ensures ShardFor(k, n) == id {
          if k != cmd[1] { assert At(s', k) == At(Reap(s, t.now), k); }
        }
      }
    }
  }

  /** Whatever clients ask a shard, past the proxy, it never holds a key of another shard. */
  lemma {:induction false} NeverForeign(states: seq<Store>, cmds: seq<Command>, times: seq<Times>, replies: seq<Value>,
      strtod: bytes -> Strtod, id: nat, n: nat, i: nat)
    requires |states| == |cmds| + 1 && |times| == |replies| == |cmds| && states[0] == map[] && i < |states|
    requires forall j :: 0 <= j < |cmds| ==>
      ShardExecutes(states[j], id, n, cmds[j], times[j], strtod, states[j + 1], replies[j])
    ensures OwnKeys(states[i], id, n)
  {
    hide ShardExecutes;
    if i > 0 {
      NeverForeign(states, cmds, times, replies, strtod, id, n, i - 1);
      OwnKept(states[i - 1], id, n, cmds[i - 1], times[i - 1], strtod, states[i], replies[i - 1]);
    }
  }

  // ---------- keys ----------

  lemma KeysAnswer(s: Store, cmd: Command, t: Times, strtod: bytes -> Strtod, s': Store, reply: Value)
    requires IsScatterGather(cmd) && Executes(s, cmd, t.now, t.later, strtod, s', reply)
    ensures s' == Reap(s, t.now) && Keys(s', reply)
  {
    hide Ascii, Keys, Reap;
    AsciiAt("keys", 0);
    AsciiAt("ping", 0);
  }

  lemma {:induction false} AllLength(keys: seq<bytes>, k: bytes)
    requires k in keys
    ensures |k| + |keys| <= |EncodeAll(Strs(keys))|
  {
    hide Encode;
    var n := |keys| - 1;
    assert keys == keys[..n] + [keys[n]];
    KeyAdded(keys[..n], keys[n]);
    EncodedKey(keys[n]);
    if k in keys[..n] {
      AllLength(keys[..n], k);
    } else if n > 0 {
      AllLength(keys[..n], keys[0]);
    }
  }

  lemma EncodedKey(k: bytes)
    ensures |Encode(Str(k))| == 5 + |k|
  {}

  lemma ShortKeys(keys: seq<bytes>)
    requires |KeysBody(keys)| <= MAX_MSG
    ensures Short(keys)
  {
    hide Encode, EncodeAll, Strs;
    KeysDone(keys);
    forall k | k in keys ensures |k| + |keys| <= MAX_MSG { AllLength(keys, k); }
    if keys != [] { assert keys[0] in keys; }
  }

  lemma KeysBodyOnce(a: seq<bytes>, b: seq<bytes>)
    requires Short(a) && Short(b) && KeysBody(a) == KeysBody(b)
    ensures a == b
  {
    hide Encode;
    StrsOf(a);
    StrsOf(b);
    var v, w := Arr(Strs(a)), Arr(Strs(b));
    assert Encode(v) + [] == Encode(w) + [];
    EncodeCancel(v, w, [], []);
    forall i | 0 <= i < |a| ensures a[i] == b[i] { assert Strs(a)[i] == Strs(b)[i]; }
  }

  /** What one shard contributes. */
  lemma OnePart(s': Store, reply: Value, part: seq<bytes>)
    requires Keys(s', reply) && |Encode(reply)| <= MAX_MSG && Clip(Encode(reply)) == KeysBody(part) && Short(part)
    ensures multiset(part) == multiset(s'.Keys)
  {
    hide Encode, Strs;
    var keys: seq<bytes> :| multiset(keys) == multiset(s'.Keys) && reply == Arr(Strs(keys));
    ShortKeys(keys);
    KeysBodyOnce(keys, part);
  }

  lemma IsKeys(s': Store, reply: Value)
    requires Keys(s', reply) && |Encode(reply)| <= MAX_MSG
    ensures !NotKeys(Clip(Encode(reply)))
  {
    hide Encode, Strs;
    var keys: seq<bytes> :| multiset(keys) == multiset(s'.Keys) && reply == Arr(Strs(keys));
    ShortKeys(keys);
  }

  ghost function KeysUpTo(ss: seq<Store>, m: nat): set<bytes>
    requires m <= |ss|
  { set i, k | 0 <= i < m && k in ss[i] :: k }

  lemma {:induction false} JoinedOnce(ss: seq<Store>, parts: seq<seq<bytes>>, m: nat)
    requires Owned(ss) && |parts| == |ss| && m <= |ss|
    requires forall i :: 0 <= i < |ss| ==> multiset(parts[i]) == multiset(ss[i].Keys)
    ensures multiset(Joined(parts[..m])) == multiset(KeysUpTo(ss, m))
  {
    hide KeysUpTo, Joined, Owned;
    if m == 0 {
      NoKeysYet(ss, parts);
    } else {
      JoinedOnce(ss, parts, m - 1);
      JoinOne(parts, m);
      KeysOne(ss, m);
      DisjointUnion(KeysUpTo(ss, m - 1), ss[m - 1].Keys);
    }
  }

  lemma NoKeysYet(ss: seq<Store>, parts: seq<seq<bytes>>)
    ensures Joined(parts[..0]) == [] && KeysUpTo(ss, 0) == {}
  {}

  lemma JoinOne(parts: seq<seq<bytes>>, m: nat)
    requires 0 < m <= |parts|
    ensures Joined(parts[..m]) == Joined(parts[..m - 1]) + parts[m - 1]
  {
    assert parts[..m][..m - 1] == parts[..m - 1];
  }

  lemma KeysOne(ss: seq<Store>, m: nat)
    requires 0 < m <= |ss| && Owned(ss)
    ensures KeysUpTo(ss, m) == KeysUpTo(ss, m - 1) + ss[m - 1].Keys && KeysUpTo(ss, m - 1) !! ss[m - 1].Keys
  {
    hide ShardFor;
    forall i, k | 0 <= i < m - 1 && k in ss[i] ensures k !in ss[m - 1] {
      assert ShardFor(k, |ss|) == i;
    }
  }

  lemma DisjointUnion(a: set<bytes>, b: set<bytes>)
    requires a !! b
    ensures multiset(a + b) == multiset(a) + multiset(b)
  {}

  lemma ScatteredStores(ss: seq<Store>, cmd: Command, times: seq<Times>, strtod: bytes -> Strtod, ss': seq<Store>,
      replies: seq<Value>)
    requires IsScatterGather(cmd) && |times| == |ss| > 0 && ScatterStep(ss, cmd, times, strtod, ss', replies)
    ensures |ss'| == |ss| == |replies| && forall i :: 0 <= i < |ss| ==>
      ss'[i] == Reap(ss[i], times[i].now) && Keys(ss'[i], replies[i])
  {
    hide Executes, Reap, Keys;
    forall i | 0 <= i < |ss| ensures ss'[i] == Reap(ss[i], times[i].now) && Keys(ss'[i], replies[i]) {
      assert !Refuses(i, |ss|, cmd);
      KeysAnswer(ss[i], cmd, times[i], strtod, ss'[i], replies[i]);
    }
  }

  /** The keys that are not due yet when their own shard is asked. */
  ghost function KeysWhenAsked(s: Store, times: seq<Times>): set<bytes>
    requires |times| > 0
  { set k | k in s && !Due(s[k], times[ShardFor(k, |times|)].now) }

  /** `body` lists those keys, each once. */
  ghost predicate KeysGathered(s: Store, times: seq<Times>, body: bytes)
    requires |times| > 0
  { exists keys: seq<bytes> :: body == KeysBody(keys) && multiset(keys) == multiset(KeysWhenAsked(s, times)) }

  /** `keys`, with the shards asked one after the other between `now` and `last`: exactly the keys that live
      until their own shard is asked, each once. */
  lemma Scattered(s: Store, ss: seq<Store>, cmd: Command, times: seq<Times>, now: nat, last: nat,
      strtod: bytes -> Strtod, ss': seq<Store>, replies: seq<Value>, body: bytes)
    requires Sim(s, ss, now) && IsScatterGather(cmd) && |times| == |ss|
    requires forall i :: 0 <= i < |times| ==> now <= times[i].now <= last
    requires ScatterStep(ss, cmd, times, strtod, ss', replies) && Gathers(replies, body)
    requires forall r :: r in replies ==> |Encode(r)| <= MAX_MSG
    ensures KeysGathered(s, times, body)
    ensures Sim(Reap(s, now), ss', last)
  {
    hide Encode, Keys, ScatterStep, KeysBody, NotKeys, Clip, Short, ShardFor, Joined, Strs, KeysWhenAsked;
    ScatteredStores(ss, cmd, times, strtod, ss', replies);
    forall i | 0 <= i < |replies| ensures !NotKeys(Clip(Encode(replies[i]))) { IsKeys(ss'[i], replies[i]); }
    var parts: seq<seq<bytes>> :| IsParts(replies, parts) && body == KeysBody(Joined(parts));
    forall i | 0 <= i < |parts| ensures multiset(parts[i]) == multiset(ss'[i].Keys) {
      OnePart(ss'[i], replies[i], parts[i]);
    }
    ScatterKeeps(s, ss, times, now, last, ss');
    JoinedOnce(ss', parts, |ss'|);
    assert parts[..|ss'|] == parts;
    AllWhenAsked(s, ss, times, now, ss');
  }

  /** If the keys of a shard do not fit in a response, the proxy says that it cannot merge them. */
  lemma TooManyKeys(replies: seq<Value>, body: bytes, i: nat)
    requires Gathers(replies, body) && i < |replies| && |Encode(replies[i])| > MAX_MSG
    ensures body == Encode(Err(ERR_UNKNOWN, Ascii("failed to merge keys")))
  {
    hide Ascii, Joined, Encode, Clip;
    forall parts: seq<seq<bytes>> ensures !IsParts(replies, parts) {
      if |parts| == |replies| { ClippedIsNoKeys(Encode(replies[i]), parts[i]); }
    }
  }

  lemma ClippedIsNoKeys(sent: bytes, keys: seq<bytes>)
    requires |sent| > MAX_MSG
    ensures Clip(sent) != KeysBody(keys)
  {
    hide Encode;
    TagOf(Err(ERR_TOO_BIG, Ascii("response is too big.")));
    TagOf(Arr(Strs(keys)));
  }

  lemma ScatterKeeps(s: Store, ss: seq<Store>, times: seq<Times>, now: nat, last: nat, ss': seq<Store>)
    requires Sim(s, ss, now) && |times| == |ss| == |ss'| && forall i :: 0 <= i < |times| ==> now <= times[i].now <= last
    requires forall i :: 0 <= i < |ss| ==> ss'[i] == Reap(ss[i], times[i].now)
    ensures Sim(Reap(s, now), ss', last)
  {
    hide ShardFor;
    forall k ensures Live(Reap(s, now), k, last) == Live(ss'[ShardFor(k, |ss'|)], k, last) {
      assert Live(s, k, now) == Live(ss[ShardFor(k, |ss|)], k, now);
    }
  }

  lemma AllWhenAsked(s: Store, ss: seq<Store>, times: seq<Times>, now: nat, ss': seq<Store>)
    requires Sim(s, ss, now) && |times| == |ss| == |ss'| && forall i :: 0 <= i < |times| ==> now <= times[i].now
    requires forall i :: 0 <= i < |ss| ==> ss'[i] == Reap(ss[i], times[i].now)
    ensures KeysUpTo(ss', |ss'|) == KeysWhenAsked(s, times)
  {
    hide ShardFor;
    forall k | k in KeysWhenAsked(s, times) ensures k in KeysUpTo(ss', |ss'|) {
      var i := ShardFor(k, |ss|);
      assert Live(s, k, now) == Live(ss[i], k, now);
      assert k in ss'[i];
    }
    forall k | k in KeysUpTo(ss', |ss'|) ensures k in KeysWhenAsked(s, times) {
      var i :| 0 <= i < |ss'| && k in ss'[i];
      assert ShardFor(k, |ss|) == i;
      assert Live(s, k, now) == Live(ss[i], k, now);
    }
  }

  /** The gathered keys are those of one store at the instant `t` if and only if every key is due at `t`
      exactly when it is due as its own shard is asked. */
  lemma OneInstant(s: Store, times: seq<Times>, t: nat)
    requires |times| > 0
    ensures KeysWhenAsked(s, times) == Reap(s, t).Keys <==>
      forall k :: k in s ==> (Due(s[k], t) <==> Due(s[k], times[ShardFor(k, |times|)].now))
  {
    hide ShardFor;
    if KeysWhenAsked(s, times) == Reap(s, t).Keys {
      forall k | k in s ensures Due(s[k], t) <==> Due(s[k], times[ShardFor(k, |times|)].now) {
        assert k in KeysWhenAsked(s, times) <==> k in Reap(s, t);
      }
    }
  }

  // ---------- commands without a key ----------

  lemma PingAnswer(s: Store, cmd: Command, t: Times, strtod: bytes -> Strtod, s': Store, reply: Value)
    requires IsPing(cmd) && Executes(s, cmd, t.now, t.later, strtod, s', reply)
    ensures s' == Reap(s, t.now) && reply == Str(if |cmd| == 2 then cmd[1] else Ascii("PONG"))
  {
    hide Ascii, Reap, DispatchMore;
  }

  /** What the proxy cannot route, a store does not know. */
  lemma UnroutableAnswer(s: Store, cmd: Command, t: Times, strtod: bytes -> Strtod, s': Store, reply: Value)
    requires !IsPing(cmd) && !IsScatterGather(cmd) && RoutingKey(cmd).None?
    requires Executes(s, cmd, t.now, t.later, strtod, s', reply)
    ensures s' == Reap(s, t.now) && reply == Err(ERR_UNKNOWN, Ascii("unknown command."))
  {
    hide Ascii, Reap, Persist, Incr, Set, StoreSpec.Del, Expire, Zadd, Zrem, Get, Ttl, TypeName, Zscore, Zquery, Keys,
        ParseDouble;
  }

  // ---------- whole runs ----------

  /** What happens to the cluster: a command, with the times at which the shards would read their clocks,
      or a timer of one shard. */
  datatype Moment = Asked(cmd: Command, times: seq<Times>) | Tick(shard: nat, now: nat)

  ghost predicate Occurs(ss: seq<Store>, m: Moment, strtod: bytes -> Strtod, ss': seq<Store>, replies: seq<Value>,
      body: bytes) {
    match m
    case Asked(cmd, times) =>
      |times| == |ss| > 0 && |ss'| == |ss| && ClusterExecutes(ss, cmd, times, strtod, ss', replies, body)
    case Tick(i, now) => i < |ss| == |ss'| && ss' == ss[i := ss'[i]] && PartReap(ss[i], ss'[i], now)
  }

  /** The same command at the same time, for one store and for the cluster: the shard that executes it
      reads the clock when the store would; the shards asked for their keys read it in between. */
  ghost predicate Together(m: Moment, e: Event) {
    match m
    case Asked(cmd, times) =>
      && e.Request? && e.cmd == cmd
      && (RoutingKey(cmd).Some? && |times| > 0 ==>
            times[ShardFor(RoutingKey(cmd).value, |times|)] == Times(e.now, e.later))
      && (IsScatterGather(cmd) ==> forall i :: 0 <= i < |times| ==> e.now <= times[i].now <= e.later)
    case Tick(_, now) => e == Timer(now)
  }

  /** No shard has more keys than fit in a response. */
  ghost predicate KeysFit(m: Moment, replies: seq<Value>) {
    m.Asked? && IsScatterGather(m.cmd) ==> forall r :: r in replies ==> |Encode(r)| <= MAX_MSG
  }

  /** The body the proxy sends is the one the store would send: the same bytes for a command with a key and
      for `ping`, the keys that live until their shard is asked for `keys`, the same error code for what cannot be
      routed. */
  ghost predicate Agrees(s: Store, m: Moment, e: Event, reply: Value, body: bytes) {
    m.Asked? && e.Request? ==>
      if IsPing(m.cmd) then body == Encode(reply)
      else if IsScatterGather(m.cmd) then
        Keys(Reap(s, e.now), reply) && |m.times| > 0 && KeysGathered(s, m.times, body)
      else if RoutingKey(m.cmd).Some? then body == Clip(Encode(reply))
      else reply.Err? && body == Encode(Err(reply.code, Ascii("cannot route command")))
  }

  lemma StepAgrees(s: Store, ss: seq<Store>, t: nat, m: Moment, e: Event, strtod: bytes -> Strtod, s': Store,
      reply: Value, ss': seq<Store>, replies: seq<Value>, body: bytes)
    requires Sim(s, ss, t) && t <= e.now <= End(e) && Together(m, e) && KeysFit(m, replies)
    requires Happens(s, e, strtod, s', reply) && Occurs(ss, m, strtod, ss', replies, body)
    ensures Sim(s', ss', End(e)) && Agrees(s, m, e, reply, body)
  {
    hide Executes, ShardExecutes, Encode, Clip, Ascii, Sim, Keys, KeyedOp, PartReap, Reap, ScatterStep, Gathers,
        KeysBody, ShardFor;
    SimLater(s, ss, t, e.now);
    if m.Tick? {
      StoreTimer(s, ss, s', e.now);
      ShardTimer(s', ss, m.shard, ss'[m.shard], e.now);
    } else {
      Answered(s, ss, m, e, strtod, s', reply, ss', replies, body);
    }
  }

  lemma Answered(s: Store, ss: seq<Store>, m: Moment, e: Event, strtod: bytes -> Strtod, s': Store, reply: Value,
      ss': seq<Store>, replies: seq<Value>, body: bytes)
    requires Sim(s, ss, e.now) && e.now <= End(e) && m.Asked? && Together(m, e) && KeysFit(m, replies)
    requires Happens(s, e, strtod, s', reply) && Occurs(ss, m, strtod, ss', replies, body)
    ensures Sim(s', ss', End(e)) && Agrees(s, m, e, reply, body)
  {
    hide Executes, ShardExecutes, Encode, Clip, Ascii, Sim, Keys, KeyedOp, PartReap, Reap, ScatterStep, Gathers,
        KeysBody, ShardFor;
    var cmd, at := m.cmd, Times(e.now, e.later);
    if IsPing(cmd) {
      PingAnswer(s, cmd, at, strtod, s', reply);
      Unasked(s, ss, e.now, e.later);
    } else if IsScatterGather(cmd) {
      KeysAnswer(s, cmd, at, strtod, s', reply);
      Scattered(s, ss, cmd, m.times, e.now, e.later, strtod, ss', replies, body);
    } else if RoutingKey(cmd).Some? {
      var id := ShardFor(RoutingKey(cmd).value, |ss|);
      Routed(s, ss, cmd, at, strtod, s', reply, ss'[id], replies[0]);
    } else {
      UnroutableAnswer(s, cmd, at, strtod, s', reply);
      Unasked(s, ss, e.now, e.later);
    }
  }

  lemma Unasked(s: Store, ss: seq<Store>, now: nat, later: nat)
    requires Sim(s, ss, now) && now <= later
    ensures Sim(Reap(s, now), ss, later)
  {
    hide Sim, Reap, PartReap;
    ReapIsPartReap(s, now, now);
    StoreTimer(s, ss, Reap(s, now), now);
    SimLater(Reap(s, now), ss, now, later);
  }

  /** A cluster and a store that start alike and get the same commands at the same times, whatever their
      timers do, answer alike all the way. */
  lemma {:induction false} RunsAgree(
    states: seq<Store>, events: seq<Event>, answers: seq<Value>,
    clusters: seq<seq<Store>>, moments: seq<Moment>, replies: seq<seq<Value>>, bodies: seq<bytes>,
    strtod: bytes -> Strtod, i: nat)
    requires IsRun(states, events, answers, strtod) && i <= |events|
    requires |clusters| == |events| + 1 && |moments| == |replies| == |bodies| == |events|
    requires forall j :: 0 <= j < |events| ==>
      Occurs(clusters[j], moments[j], strtod, clusters[j + 1], replies[j], bodies[j])
    requires forall j :: 0 <= j < |events| ==> Together(moments[j], events[j]) && KeysFit(moments[j], replies[j])
    requires Sim(states[0], clusters[0], 0)
    ensures Sim(states[i], clusters[i], if i == 0 then 0 else End(events[i - 1]))
    ensures forall j :: 0 <= j < i ==> Agrees(states[j], moments[j], events[j], answers[j], bodies[j])
  {
    hide Sim, Agrees, Occurs, Together, KeysFit, Happens;
    if i > 0 {
      RunsAgree(states, events, answers, clusters, moments, replies, bodies, strtod, i - 1);
      var t := if i == 1 then 0 else End(events[i - 2]);
      StepAgrees(states[i - 1], clusters[i - 1], t, moments[i - 1], events[i - 1], strtod, states[i], answers[i - 1],
                 clusters[i], replies[i - 1], bodies[i - 1]);
    }
  }

  // ---------- on the wire ----------

  /** The frame the client gets for a command with a key is the one the store would have sent, also when the
      answer is too long for a frame. */
  lemma SameFrame(body: bytes, reply: Value)
    requires body == Clip(Encode(reply))
    ensures Frame(body) == Frame(Encode(reply))
  {
    hide Encode, U32;
  }

  lemma {:induction false} SameTotal(a: seq<bytes>, b: seq<bytes>)
    requires multiset(a) == multiset(b)
    ensures |a| == |b| && |EncodeAll(Strs(a))| == |EncodeAll(Strs(b))|
  {
    hide Encode;
    if a == [] {
      assert |multiset(b)| == 0;
    } else {
      var n := |a| - 1;
      var x := a[n];
      assert a == a[..n] + [x];
      assert x in multiset(b);
      var j :| 0 <= j < |b| && b[j] == x;
      var rest := b[..j] + b[j + 1..];
      assert b == b[..j] + [x] + b[j + 1..];
      assert multiset(a[..n]) == multiset(a) - multiset{x} && multiset(rest) == multiset(b) - multiset{x};
      SameTotal(a[..n], rest);
      KeyAdded(a[..n], x);
      KeyMoved(b[..j], x, b[j + 1..]);
    }
  }

  lemma KeyMoved(a: seq<bytes>, x: bytes, b: seq<bytes>)
    ensures |EncodeAll(Strs(a + [x] + b))| == |EncodeAll(Strs(a + b))| + |Encode(Str(x))|
  {
    hide Encode;
    assert Strs(a + [x] + b) == Strs(a) + ([Str(x)] + Strs(b)) && Strs(a + b) == Strs(a) + Strs(b);
    SplitParts(Strs(a), Str(x), Strs(b), []);
    EncodeAllJoin(Strs(a), Strs(b));
  }

  /** The body the proxy sends for `keys` is one that a store would send at the instant `t` if and only if
      every key is due at `t` exactly when it is due as its own shard is asked. */
  lemma SameKeys(s: Store, times: seq<Times>, t: nat, body: bytes)
    requires |times| > 0 && KeysGathered(s, times, body) && |body| <= MAX_MSG
    ensures (exists reply :: Keys(Reap(s, t), reply) && body == Encode(reply)) <==>
      forall k :: k in s ==> (Due(s[k], t) <==> Due(s[k], times[ShardFor(k, |times|)].now))
  {
    hide Encode, Reap, Strs, ShardFor, Due, KeysWhenAsked, Short;
    OneInstant(s, times, t);
    var keys: seq<bytes> :| body == KeysBody(keys) && multiset(keys) == multiset(KeysWhenAsked(s, times));
    if reply :| Keys(Reap(s, t), reply) && body == Encode(reply) {
      var ks: seq<bytes> :| multiset(ks) == multiset(Reap(s, t).Keys) && reply == Arr(Strs(ks));
      ShortKeys(keys);
      ShortKeys(ks);
      KeysBodyOnce(keys, ks);
      SameSet(KeysWhenAsked(s, times), Reap(s, t).Keys);
    }
    if KeysWhenAsked(s, times) == Reap(s, t).Keys {
      assert Keys(Reap(s, t), Arr(Strs(keys)));
    }
  }

  lemma SameSet(a: set<bytes>, b: set<bytes>)
    requires multiset(a) == multiset(b)
    ensures a == b
  {
    forall k ensures k in a <==> k in b { assert k in multiset(a) <==> k in multiset(b); }
  }

  /** If no deadline passes while the shards are asked, that is so at the time of the command, and whatever
      order a store lists its keys in, it needs as many bytes. */
  lemma NothingPasses(s: Store, times: seq<Times>, now: nat, later: nat, reply: Value, body: bytes)
    requires |times| > 0 && KeysGathered(s, times, body) && Keys(Reap(s, now), reply)
    requires forall i :: 0 <= i < |times| ==> now <= times[i].now <= later
    requires forall k :: k in s && Due(s[k], later) ==> Due(s[k], now)
    ensures |body| == |Encode(reply)| && exists r :: Keys(Reap(s, now), r) && body == Encode(r)
  {
    hide Encode, Reap, Strs, EncodeAll, ShardFor, KeysWhenAsked;
    OneInstant(s, times, now);
    var keys: seq<bytes> :| body == KeysBody(keys) && multiset(keys) == multiset(KeysWhenAsked(s, times));
    var ks: seq<bytes> :| multiset(ks) == multiset(Reap(s, now).Keys) && reply == Arr(Strs(ks));
    SameTotal(keys, ks);
    KeysDone(keys);
    KeysDone(ks);
    assert Keys(Reap(s, now), Arr(Strs(keys)));
  }

  // ---------- keys at no instant ----------

  /** The keys "a" and "b" belong to different shards of two. */
  lemma TwoOwners()
    ensures ShardFor([97], 2) == 0 && ShardFor([98], 2) == 1
  {
    hide StrHash;
    HashOfA();
    HashOfB();
  }

  // Both keys are due at 10; the first shard is asked at 5 and the second at 20.
  const DUE_AT_10 := Item(Text([]), Some(10))
  const TWO_KEYS: Store := map[[97] := DUE_AT_10, [98] := DUE_AT_10]
  const TWO_SHARDS: seq<Store> := [map[[97] := DUE_AT_10], map[[98] := DUE_AT_10]]
  const ASKED: seq<Times> := [Times(5, 5), Times(20, 20)]
  const SHARDS_AFTER: seq<Store> := [map[[97] := DUE_AT_10], map[]]

  lemma TwoShardsAlike()
    ensures Sim(TWO_KEYS, TWO_SHARDS, 5)
  {
    hide ShardFor;
    TwoOwners();
  }

  lemma OneKeyAnswer(s: Store, keys: seq<bytes>, t: Times, strtod: bytes -> Strtod)
    requires multiset(keys) == multiset(Reap(s, t.now).Keys) && t.now <= t.later
    ensures Executes(s, [Ascii("keys")], t.now, t.later, strtod, Reap(s, t.now), Arr(Strs(keys)))
  {
    hide Ascii, Reap, Strs;
    AsciiAt("keys", 0);
    AsciiAt("ping", 0);
    assert Keys(Reap(s, t.now), Arr(Strs(keys)));
  }

  lemma TwoShardsAsked(strtod: bytes -> Strtod)
    ensures ScatterStep(TWO_SHARDS, [Ascii("keys")], ASKED, strtod, SHARDS_AFTER, [Arr(Strs([[97]])), Arr(Strs([]))])
  {
    hide Ascii, Executes, ShardFor, Strs;
    assert Reap(TWO_SHARDS[0], 5) == SHARDS_AFTER[0] && SHARDS_AFTER[0].Keys == {[97]};
    assert Reap(TWO_SHARDS[1], 20) == SHARDS_AFTER[1] && SHARDS_AFTER[1].Keys == {};
    OneKeyAnswer(TWO_SHARDS[0], [[97]], ASKED[0], strtod);
    OneKeyAnswer(TWO_SHARDS[1], [], ASKED[1], strtod);
  }

  lemma OneKeyGathered()
    ensures Gathers([Arr(Strs([[97]])), Arr(Strs([]))], KeysBody([[97]]))
  {
    hide Encode, Strs;
    var parts: seq<seq<bytes>> := [[[97]], []];
    OneKeyLength();
    assert IsParts([Arr(Strs([[97]])), Arr(Strs([]))], parts);
    assert parts[..1] == [[[97]]] && parts[..1][..0] == [];
    assert Joined(parts) == [[97]];
  }

  lemma OneKeyLength()
    ensures |KeysBody([[97]])| <= MAX_MSG && |KeysBody([])| <= MAX_MSG
  {
    hide Encode;
    KeysDone([[97]]);
    KeysDone([]);
    assert [] + [[97]] == [[97]];
    KeyAdded([], [97]);
    EncodedKey([97]);
  }

  /** The answer then has the one key and not the other, which is the answer of one store at no instant. */
  lemma NoInstant(strtod: bytes -> Strtod, t: nat, reply: Value)
    ensures Sim(TWO_KEYS, TWO_SHARDS, 5)
    ensures ClusterExecutes(TWO_SHARDS, [Ascii("keys")], ASKED, strtod, SHARDS_AFTER,
                            [Arr(Strs([[97]])), Arr(Strs([]))], KeysBody([[97]]))
    ensures Keys(Reap(TWO_KEYS, t), reply) ==> KeysBody([[97]]) != Encode(reply)
  {
    hide Encode, Strs, Ascii, ScatterStep, Gathers, ShardFor, KeyedOp, Reap, Sim;
    TwoShardsAlike();
    TwoShardsAsked(strtod);
    OneKeyGathered();
    AsciiAt("keys", 0);
    AsciiAt("ping", 0);
    if Keys(Reap(TWO_KEYS, t), reply) && KeysBody([[97]]) == Encode(reply) {
      var ks: seq<bytes> :| multiset(ks) == multiset(Reap(TWO_KEYS, t).Keys) && reply == Arr(Strs(ks));
      OneKeyLength();
      ShortKeys(ks);
      KeysBodyOnce([[97]], ks);
      NotJustOne(t);
    }
  }

  lemma NotJustOne(t: nat)
    ensures multiset(Reap(TWO_KEYS, t).Keys) != multiset([[97]])
  {
    var k := Reap(TWO_KEYS, t).Keys;
    assert [97] in k <==> [98] in k;
    assert [98] !in multiset([[97]]) && [97] in multiset([[97]]);
  }

  /** Empty shards and an empty store are alike. */
  lemma StartAlike(n: nat)
    requires n > 0
    ensures Sim(map[], seq(n, i => map[]), 0)
  {
    hide ShardFor;
  }
}
