/** What follows from `StoreSpec` for single commands and for whole runs of a store. */
module StoreRuns {
  import opened Bytes
  import opened Doubles
  import opened Decimals
  import opened HashMap
  import opened Wire
  import opened Requests
  import opened ZSets
  import opened StoreSpec
  import opened Sharding

  // ---------- one command touches one key ----------

  function At(s: Store, k: bytes): Option<Item> { if k in s then Some(s[k]) else None }

  /** Nothing but the key `k` differs. */
  ghost predicate OnlyAt(s: Store, s': Store, k: bytes) { forall x :: x != k ==> At(s', x) == At(s, x) }

  lemma WritesAtKey(s: Store, k: bytes, x: bytes, ms: bytes, now: nat, score: MaybeDouble)
    ensures OnlyAt(s, Persist(s, k).store, k) && OnlyAt(s, Incr(s, k).store, k) && OnlyAt(s, Set(s, k, x).store, k)
    ensures OnlyAt(s, StoreSpec.Del(s, k).store, k) && OnlyAt(s, Expire(s, k, ms, now).store, k)
    ensures OnlyAt(s, Zadd(s, k, score, x).store, k) && OnlyAt(s, Zrem(s, k, x).store, k)
  {
    hide Ascii, Parse, Decimal;
  }

  /** A command changes at most the item under its own key. */
  lemma OnlyItsKey(s: Store, cmd: Command, now: nat, strtod: bytes -> Strtod, s': Store, reply: Value)
    requires Dispatch(s, cmd, now, strtod, s', reply)
    ensures RoutingKey(cmd).None? ==> s' == s
    ensures RoutingKey(cmd).Some? ==> OnlyAt(s, s', RoutingKey(cmd).value)
  {
    hide Ascii, Persist, Incr, Set, StoreSpec.Del, Expire, Zadd, Zrem, Get, Ttl, TypeName, Zscore, Zquery, Keys,
        ParseDouble;
    if |cmd| >= 2 {
      var x := if |cmd| >= 4 then cmd[3] else if |cmd| >= 3 then cmd[2] else [];
      WritesAtKey(s, cmd[1], x, x, now, if |cmd| >= 3 then ParseDouble(strtod, cmd[2]) else NotADouble);
    }
  }

  /** The same answer, and the same left under `k`. */
  predicate Alike(a: Result, b: Result, k: bytes) { a.reply == b.reply && At(a.store, k) == At(b.store, k) }

  lemma AlikeAtKey(s: Store, t: Store, k: bytes, x: bytes, ms: bytes, now: nat)
    requires At(s, k) == At(t, k)
    ensures Alike(Persist(s, k), Persist(t, k), k) && Alike(Incr(s, k), Incr(t, k), k)
    ensures Alike(Set(s, k, x), Set(t, k, x), k) && Alike(StoreSpec.Del(s, k), StoreSpec.Del(t, k), k)
    ensures Alike(Expire(s, k, ms, now), Expire(t, k, ms, now), k) && Ttl(s, k, now) == Ttl(t, k, now)
    ensures (k in s <==> k in t) && Get(s, k) == Get(t, k) && TypeName(s, k) == TypeName(t, k)
  {
    hide Ascii, Parse, Decimal;
  }

  lemma AlikeRankings(s: Store, t: Store, k: bytes, x: bytes, score: MaybeDouble)
    requires At(s, k) == At(t, k)
    ensures Alike(Zadd(s, k, score, x), Zadd(t, k, score, x), k) && Alike(Zrem(s, k, x), Zrem(t, k, x), k)
    ensures Zscore(s, k, x) == Zscore(t, k, x)
  {
    hide Ascii, Put;
  }

  lemma AlikeQueries(s: Store, t: Store, k: bytes, score: MaybeDouble, name: bytes, offset: bytes, limit: bytes,
      r: Value, q: Value)
    requires At(s, k) == At(t, k) && Zquery(s, k, score, name, offset, limit, r) &&
        Zquery(t, k, score, name, offset, limit, q)
    ensures r == q
  {
    hide Ascii, Parse, QueryReply;
    if score.ADouble? && Parse(offset).Number? && Parse(limit).Number? && !(k in s && s[k].content.Text?) &&
        Parse(limit).value > 0 {
      QueryReplyUnique(StoreSpec.Scores(s, k), Member(name, score.value), Parse(offset).value, Parse(limit).value,
                       r, q);
    }
  }

  lemma SameMore(s: Store, t: Store, cmd: Command, now: nat, strtod: bytes -> Strtod, s': Store, r: Value, t': Store,
      q: Value)
    requires |cmd| >= 2 && At(s, cmd[1]) == At(t, cmd[1])
    requires DispatchMore(s, cmd, now, strtod, s', r) && DispatchMore(t, cmd, now, strtod, t', q)
    ensures r == q && At(s', cmd[1]) == At(t', cmd[1])
  {
    hide Ascii, Expire, Zadd, Zrem, Ttl, Zscore, Zquery, Keys, ParseDouble, At, Persist, Incr, Set, StoreSpec.Del,
        Get, TypeName;
    var k, n := cmd[1], |cmd|;
    var x := if n >= 4 then cmd[3] else if n >= 3 then cmd[2] else [];
    var score := if n >= 3 then ParseDouble(strtod, cmd[2]) else NotADouble;
    AlikeAtKey(s, t, k, x, x, now);
    AlikeRankings(s, t, k, x, score);
    if n == 6 && cmd[0] == Ascii("zquery") {
      AlikeQueries(s, t, k, score, x, cmd[4], cmd[5], r, q);
    }
  }

  /** What a command does and answers depends on the item under its key alone. */
  lemma SameAtItsKey(s: Store, t: Store, cmd: Command, now: nat, strtod: bytes -> Strtod, s': Store, r: Value,
      t': Store, q: Value)
    requires |cmd| >= 2 && At(s, cmd[1]) == At(t, cmd[1])
    requires Dispatch(s, cmd, now, strtod, s', r) && Dispatch(t, cmd, now, strtod, t', q)
    ensures r == q && At(s', cmd[1]) == At(t', cmd[1])
  {
    hide Ascii, Persist, Incr, Set, StoreSpec.Del, Get, TypeName, Expire, Ttl, At, DispatchMore;
    if DispatchMore(s, cmd, now, strtod, s', r) && DispatchMore(t, cmd, now, strtod, t', q) {
      SameMore(s, t, cmd, now, strtod, s', r, t', q);
    } else {
      AlikeAtKey(s, t, cmd[1], if |cmd| >= 3 then cmd[2] else [], [], now);
    }
  }

  // ---------- deadlines ----------

  predicate IsOn(cmd: Command, op: string, n: nat, k: bytes) { |cmd| == n >= 2 && cmd[0] == Ascii(op) && cmd[1] == k }

  lemma AsciiLength(op: string)
    ensures |Ascii(op)| == |op|
  {}

  lemma AsciiAt(op: string, i: nat)
    requires i < |op| && op[i] as int < 256
    ensures |Ascii(op)| == |op| && Ascii(op)[i] == op[i] as int
  {}

  /** What the writing commands do to the deadline of a key that is there. */
  ghost predicate Kept(s: Store, k: bytes, x: bytes, now: nat, score: MaybeDouble)
    requires k in s
  {
    && (var r := Persist(s, k); k in r.store && r.store[k].deadline == None && !r.reply.Err?)
    && (var r := Incr(s, k); k in r.store && r.store[k].deadline == s[k].deadline && (r.reply.Err? ==> r.store == s))
    && (var r := Set(s, k, x); k in r.store && (if r.reply.Err? then r.store == s else r.store[k].deadline == None))
    && (var r := Expire(s, k, x, now);
        match Parse(x)
        case NotANumber => r.store == s && r.reply.Err?
        case Number(ms) =>
          r.reply == Int(1) &&
          if ms <= 0 then k !in r.store else k in r.store && r.store[k].deadline == Some(now + ms))
    && (var r := Zadd(s, k, score, x);
        k in r.store && r.store[k].deadline == s[k].deadline && (r.reply.Err? ==> r.store == s))
    && (var r := Zrem(s, k, x); k in r.store && r.store[k].deadline == s[k].deadline && (r.reply.Err? ==> r.store == s))
  }

  /** What they do to a key that is not there. */
  ghost predicate Fresh(s: Store, k: bytes, x: bytes, now: nat, score: MaybeDouble)
    requires k !in s
  {
    && Persist(s, k).store == s && Expire(s, k, x, now).store == s && Zrem(s, k, x).store == s &&
        StoreSpec.Del(s, k).store == s
    && (k in Incr(s, k).store ==> Incr(s, k).store[k].deadline == None)
    && (k in Set(s, k, x).store ==> Set(s, k, x).store[k].deadline == None)
    && (k in Zadd(s, k, score, x).store ==> Zadd(s, k, score, x).store[k].deadline == None)
    && !Incr(s, k).reply.Err? && !Set(s, k, x).reply.Err? && (Zadd(s, k, score, x).reply.Err? ==>
        Zadd(s, k, score, x).store == s)
  }

  /** A command that fails changes nothing. */
  lemma FailureChangesNothing(s: Store, cmd: Command, now: nat, strtod: bytes -> Strtod, s': Store, reply: Value)
    requires Dispatch(s, cmd, now, strtod, s', reply) && reply.Err?
    ensures s' == s
  {
    hide Ascii, Persist, Incr, Set, Expire, Zadd, Zrem, Get, Ttl, TypeName, Zscore, Zquery, Keys, ParseDouble, Parse;
    if |cmd| >= 2 { ByFunction(s, cmd, now, strtod); }
  }

  /** The facts above for the key and the arguments of a command. */
  lemma ByFunction(s: Store, cmd: Command, now: nat, strtod: bytes -> Strtod)
    requires |cmd| >= 2
    ensures var x := if |cmd| >= 4 then cmd[3] else if |cmd| >= 3 then cmd[2] else [];
            var score := if |cmd| >= 3 then ParseDouble(strtod, cmd[2]) else NotADouble;
            if cmd[1] in s then Kept(s, cmd[1], x, now, score) else Fresh(s, cmd[1], x, now, score)
  {
    hide Ascii, Parse, Decimal, Put, ParseDouble;
  }

  /** Only `set`, `persist` and `pexpire` on a key change its deadline; `incr` and `zadd` keep it, and so
      does a command that fails. A key leaves only by `del` or by `pexpire` with no time left. */
  lemma DeadlineChanges(s: Store, cmd: Command, now: nat, strtod: bytes -> Strtod, s': Store, reply: Value, k: bytes)
    requires Dispatch(s, cmd, now, strtod, s', reply)
    ensures k in s && k in s' ==>
      if (IsOn(cmd, "set", 3, k) && !reply.Err?) || IsOn(cmd, "persist", 2, k) then s'[k].deadline == None
      else if IsOn(cmd, "pexpire", 3, k) && Parse(cmd[2]).Number? then
        Parse(cmd[2]).value > 0 && s'[k].deadline == Some(now + Parse(cmd[2]).value) && reply == Int(1)
      else s'[k].deadline == s[k].deadline
    ensures k in s && k !in s' ==>
      IsOn(cmd, "del", 2, k) || (IsOn(cmd, "pexpire", 3, k) && Parse(cmd[2]).Number? && Parse(cmd[2]).value <= 0)
    ensures k !in s && k in s' ==> s'[k].deadline == None
  {
    hide Ascii, Persist, Incr, Set, Expire, Zadd, Zrem, Get, Ttl, TypeName, Zscore, Zquery, Keys, ParseDouble, Parse;
    OnlyItsKey(s, cmd, now, strtod, s', reply);
    AsciiLength("persist");
    AsciiLength("ping");
    AsciiLength("exists");
    AsciiLength("type");
    AsciiLength("set");
    AsciiLength("pexpire");
    if |cmd| >= 2 {
      assert k != cmd[1] ==> At(s', k) == At(s, k);
      ByFunction(s, cmd, now, strtod);
    }
    if reply.Err? { FailureChangesNothing(s, cmd, now, strtod, s', reply); }
  }

  // ---------- whole runs ----------

  /** A command that comes at `now` and reads the clock again at `later`, or `process_timers` at `now`. */
  datatype Event = Request(cmd: Command, now: nat, later: nat) | Timer(now: nat)

  function End(e: Event): nat { if e.Request? then e.later else e.now }

  /** The clock never goes back. */
  ghost predicate InTime(events: seq<Event>) {
    && (forall i :: 0 <= i < |events| ==> events[i].now <= End(events[i]))
    && (forall i, j :: 0 <= i < j < |events| ==> End(events[i]) <= events[j].now)
  }

  ghost predicate Happens(s: Store, e: Event, strtod: bytes -> Strtod, s': Store, reply: Value) {
    match e
    case Request(cmd, now, later) => Executes(s, cmd, now, later, strtod, s', reply)
    case Timer(now) => PartReap(s, s', now) && reply == Nil
  }

  ghost predicate IsRun(states: seq<Store>, events: seq<Event>, replies: seq<Value>, strtod: bytes -> Strtod) {
    && |states| == |events| + 1 && |replies| == |events| && InTime(events)
    && forall i :: 0 <= i < |events| ==> Happens(states[i], events[i], strtod, states[i + 1], replies[i])
  }

  /** Event `j` gave the key `k` the deadline `d`. */
  ghost predicate SetsDeadline(e: Event, reply: Value, k: bytes, d: nat) {
    && e.Request? && IsOn(e.cmd, "pexpire", 3, k) && reply == Int(1)
    && Parse(e.cmd[2]).Number? && Parse(e.cmd[2]).value > 0 && d == e.later + Parse(e.cmd[2]).value
  }

  /** One step back: a deadline was there before, or the step set it. */
  lemma DeadlineBefore(s: Store, e: Event, strtod: bytes -> Strtod, s': Store, reply: Value, k: bytes)
    requires Happens(s, e, strtod, s', reply) && k in s' && s'[k].deadline.Some?
    ensures SetsDeadline(e, reply, k, s'[k].deadline.value) || (k in s && s[k].deadline == s'[k].deadline)
  {
    hide Dispatch, Ascii, Parse;
    if e.Request? {
      DeadlineChanges(Reap(s, e.now), e.cmd, e.later, strtod, s', reply, k);
    }
  }

  /** In every run from an empty store, a deadline comes from a `pexpire` that succeeded, and it has stood
      unchanged since. */
  lemma {:induction false} DeadlineOrigin(states: seq<Store>, events: seq<Event>, replies: seq<Value>,
      strtod: bytes -> Strtod, i: nat, k: bytes)
    returns (j: nat)
    requires IsRun(states, events, replies, strtod) && states[0] == map[]
    requires i < |states| && k in states[i] && states[i][k].deadline.Some?
    ensures j < i && SetsDeadline(events[j], replies[j], k, states[i][k].deadline.value)
    ensures forall l :: j < l <= i ==> k in states[l] && states[l][k].deadline == states[i][k].deadline
  {
    hide SetsDeadline, Happens, InTime;
    DeadlineBefore(states[i - 1], events[i - 1], strtod, states[i], replies[i - 1], k);
    if SetsDeadline(events[i - 1], replies[i - 1], k, states[i][k].deadline.value) {
      j := i - 1;
    } else {
      j := DeadlineOrigin(states, events, replies, strtod, i - 1, k);
    }
  }

  lemma PttlIsTtl(s: Store, cmd: Command, now: nat, strtod: bytes -> Strtod, s': Store, reply: Value, k: bytes)
    requires IsOn(cmd, "pttl", 2, k) && Dispatch(s, cmd, now, strtod, s', reply)
    ensures reply == Ttl(s, k, now)
  {
    hide Ascii, Persist, Incr, Set, StoreSpec.Del, Expire, Zadd, Zrem, Get, Ttl, TypeName, Zscore, Zquery, Keys,
        ParseDouble;
    AsciiAt("pttl", 1);
    AsciiAt("ping", 1);
    AsciiAt("type", 1);
    AsciiAt("incr", 1);
    AsciiLength("exists");
    AsciiLength("persist");
    AsciiLength("get");
    AsciiLength("del");
  }

  /** `pttl` answers what is left of the last duration set, so never more than that duration. */
  lemma PttlBounded(states: seq<Store>, events: seq<Event>, replies: seq<Value>, strtod: bytes -> Strtod, i: nat,
      k: bytes)
    returns (j: nat, ms: int)
    requires IsRun(states, events, replies, strtod) && states[0] == map[] && i < |events|
    requires events[i].Request? && IsOn(events[i].cmd, "pttl", 2, k) && replies[i].Int? && replies[i].i >= 0
    ensures j < i && events[j].Request? && ms > 0 && SetsDeadline(events[j], replies[j], k, events[j].later + ms)
    ensures 0 <= replies[i].i <= ms &&
        replies[i].i == if events[j].later + ms > events[i].later then events[j].later + ms - events[i].later else 0
    ensures forall l :: j < l <= i ==> k in states[l] && states[l][k].deadline == Some(events[j].later + ms)
  {
    hide IsOn, Dispatch;
    var e, s := events[i], Reap(states[i], events[i].now);
    assert Happens(states[i], e, strtod, states[i + 1], replies[i]);
    PttlIsTtl(s, e.cmd, e.later, strtod, states[i + 1], replies[i], k);
    j := DeadlineOrigin(states, events, replies, strtod, i, k);
    ms := states[i][k].deadline.value - events[j].later;
    assert End(events[j]) <= events[i].now;
  }

  // ---------- scores are numbers ----------

  ghost predicate Numbers(scores: map<bytes, Double>) { forall n :: n in scores ==> !IsNaN(scores[n]) }

  /** No score is NaN, so comparing scores orders them. */
  ghost predicate NoNaN(s: Store) {
    forall k :: k in s && s[k].content.Ranking? ==> Numbers(s[k].content.scores)
  }

  lemma NumbersByFunction(s: Store, k: bytes, x: bytes, now: nat, score: MaybeDouble)
    requires NoNaN(s) && (score.ADouble? ==> !IsNaN(score.value))
    ensures NoNaN(Persist(s, k).store) && NoNaN(Incr(s, k).store) && NoNaN(Set(s, k, x).store)
    ensures NoNaN(StoreSpec.Del(s, k).store) && NoNaN(Expire(s, k, x, now).store)
    ensures NoNaN(Zadd(s, k, score, x).store) && NoNaN(Zrem(s, k, x).store)
  {
    hide Ascii, Parse, Decimal;
  }

  lemma NumbersKept(s: Store, cmd: Command, now: nat, strtod: bytes -> Strtod, s': Store, reply: Value)
    requires NoNaN(s) && Dispatch(s, cmd, now, strtod, s', reply)
    ensures NoNaN(s')
  {
    hide Ascii, Persist, Incr, Set, StoreSpec.Del, Expire, Zadd, Zrem, Get, Ttl, TypeName, Zscore, Zquery, Keys,
        ParseDouble, NoNaN;
    if |cmd| >= 2 {
      var x := if |cmd| >= 4 then cmd[3] else if |cmd| >= 3 then cmd[2] else [];
      NumbersByFunction(s, cmd[1], x, now, if |cmd| >= 3 then ParseDouble(strtod, cmd[2]) else NotADouble);
    }
  }

  /** In every run from an empty store, whatever `strtod` makes of a text, no score is ever NaN. */
  lemma {:induction false} NeverNaN(states: seq<Store>, events: seq<Event>, replies: seq<Value>,
      strtod: bytes -> Strtod, i: nat)
    requires IsRun(states, events, replies, strtod) && states[0] == map[] && i < |states|
    ensures NoNaN(states[i])
  {
    hide Dispatch, InTime;
    if i > 0 {
      NeverNaN(states, events, replies, strtod, i - 1);
      var s, e := states[i - 1], events[i - 1];
      assert Happens(s, e, strtod, states[i], replies[i - 1]);
      if e.Request? { NumbersKept(Reap(s, e.now), e.cmd, e.later, strtod, states[i], replies[i - 1]); }
    }
  }

  // ---------- counting ----------

  function IncrTimes(s: Store, k: bytes, n: nat): Store { if n == 0 then s else Incr(IncrTimes(s, k, n - 1), k).store }

  /** `n` increments add `n`, as long as the sum is a 64-bit integer, and leave the deadline alone. */
  lemma {:induction false} IncrCounts(s: Store, k: bytes, i: int, n: nat)
    requires k in s && s[k].content == Text(Decimal(i)) && IsInt64(i) && IsInt64(i + n)
    ensures IncrTimes(s, k, n) == s[k := Item(Text(Decimal(i + n)), s[k].deadline)]
    ensures n > 0 ==> Incr(IncrTimes(s, k, n - 1), k).reply == Int(i + n)
  {
    hide Decimal, Parse;
    if n > 0 {
      IncrCounts(s, k, i, n - 1);
      ParseDecimal(i + n - 1);
    }
  }
}
