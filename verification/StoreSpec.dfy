/** What the commands of `src/kv_store.cpp` mean, on a plain map from keys to values with optional
    deadlines. Nothing here knows about tables, trees, heaps or buffers. */
module StoreSpec {
  import opened Bytes
  import opened Doubles
  import opened Decimals
  import opened HashMap
  import opened Wire
  import opened Requests
  import opened ZSets

  datatype Content = Text(s: bytes) | Ranking(scores: map<bytes, Double>)

  datatype Item = Item(content: Content, deadline: Option<nat>)

  type Store = map<bytes, Item>

  // ---------- time ----------

  predicate Due(item: Item, now: nat) { item.deadline.Some? && item.deadline.value <= now }

  /** The store without what is due at `now`. */
  function Reap(s: Store, now: nat): Store { map k | k in s && !Due(s[k], now) :: s[k] }

  /** `s'` is `s` without some of what is due. */
  ghost predicate PartReap(s: Store, s': Store, now: nat) {
    && (forall k :: k in s' ==> k in s && s'[k] == s[k])
    && (forall k :: k in s && k !in s' ==> Due(s[k], now))
  }

  lemma PartReapSelf(s: Store, now: nat)
    ensures PartReap(s, s, now)
  {}

  lemma PartReapTwice(s: Store, s': Store, s'': Store, now: nat)
    requires PartReap(s, s', now) && PartReap(s', s'', now)
    ensures PartReap(s, s'', now)
  {}

  // ---------- numbers from the outside ----------

  /** What `strtod` reports: the value, how far it read, and whether the value was out of range. */
  datatype Strtod = Strtod(value: Double, end: nat, erange: bool)

  datatype MaybeDouble = NotADouble | ADouble(value: Double)

  /** `str2dbl`, for any `strtod`. */
  function ParseDouble(strtod: bytes -> Strtod, s: bytes): (r: MaybeDouble)
    ensures r.ADouble? ==> !IsNaN(r.value)
  {
    var r := strtod(s);
    if s != [] && r.end != 0 && r.end == |s| && !r.erange && !IsNaN(r.value) then ADouble(r.value) else NotADouble
  }

  // ---------- one command ----------

  datatype Result = Result(store: Store, reply: Value)

  function BadType(msg: string): Value { Err(ERR_BAD_TYP, Ascii(msg)) }
  function BadArg(msg: string): Value { Err(ERR_BAD_ARG, Ascii(msg)) }

  function Flag(b: bool): Value { Int(if b then 1 else 0) }

  function Get(s: Store, key: bytes): Value {
    if key !in s then Nil
    else if s[key].content.Ranking? then BadType("not a string value")
    else Str(s[key].content.s)
  }

  function Set(s: Store, key: bytes, value: bytes): Result {
    if key in s && s[key].content.Ranking? then Result(s, BadType("a non-string value exists"))
    else Result(s[key := Item(Text(value), None)], Str(Ascii("OK")))
  }

  function Del(s: Store, key: bytes): Result { Result(s - {key}, Flag(key in s)) }

  function Expire(s: Store, key: bytes, ttl: bytes, now: nat): Result {
    match Parse(ttl)
    case NotANumber => Result(s, BadArg("expect int64"))
    case Number(ms) =>
      if key !in s then Result(s, Int(0))
      else if ms <= 0 then Result(s - {key}, Int(1))
      else Result(s[key := s[key].(deadline := Some(now + ms))], Int(1))
  }

  function Ttl(s: Store, key: bytes, now: nat): Value {
    if key !in s then Int(-2)
    else if s[key].deadline.None? then Int(-1)
    else Int(if s[key].deadline.value > now then s[key].deadline.value - now else 0)
  }

  function Persist(s: Store, key: bytes): Result {
    if key in s && s[key].deadline.Some? then Result(s[key := s[key].(deadline := None)], Int(1)) else Result(s, Int(0))
  }

  function Incr(s: Store, key: bytes): Result {
    if key !in s then Result(s[key := Item(Text(Decimal(1)), None)], Int(1))
    else if s[key].content.Ranking? then Result(s, BadType("not a string value"))
    else
      match Parse(s[key].content.s)
      case NotANumber => Result(s, BadArg("value is not an integer or increment would overflow"))
      case Number(i) =>
        if i == INT64_MAX then Result(s, BadArg("value is not an integer or increment would overflow"))
        else Result(s[key := s[key].(content := Text(Decimal(i + 1)))], Int(i + 1))
  }

  function Zadd(s: Store, key: bytes, score: MaybeDouble, name: bytes): Result {
    if score.NotADouble? then Result(s, BadArg("expect float"))
    else if key in s && s[key].content.Text? then Result(s, BadType("expect zset"))
    else
      var item := if key in s then s[key] else Item(Ranking(map[]), None);
      var scores := item.content.scores;
      Result(s[key := item.(content := Ranking(Put(scores, name, score.value)))], Flag(name !in scores))
  }

  /** The members under `key`: none for an absent key. */
  function Scores(s: Store, key: bytes): map<bytes, Double>
    requires key in s ==> s[key].content.Ranking?
  { if key in s then s[key].content.scores else map[] }

  function Zrem(s: Store, key: bytes, name: bytes): Result {
    if key in s && s[key].content.Text? then Result(s, BadType("expect zset"))
    else if name !in Scores(s, key) then Result(s, Int(0))
    else Result(s[key := s[key].(content := Ranking(s[key].content.scores - {name}))], Int(1))
  }

  function Zscore(s: Store, key: bytes, name: bytes): Value {
    if key in s && s[key].content.Text? then BadType("expect zset")
    else if name in Scores(s, key) then Dbl(Scores(s, key)[name])
    else Nil
  }

  /** The members of a list as alternating names and scores. */
  function Pairs(s: seq<Member>): seq<Value> {
    if s == [] then [] else Pairs(s[..|s| - 1]) + [Str(s[|s| - 1].name), Dbl(s[|s| - 1].score)]
  }

  lemma {:induction false} PairsLength(s: seq<Member>)
    ensures |Pairs(s)| == 2 * |s|
  {
    if s != [] { PairsLength(s[..|s| - 1]); }
  }

  /** At most ceil(limit / 2) members of `list` from position `start` on. */
  function Slice(list: seq<Member>, start: int, limit: int): seq<Member>
    requires limit > 0
  {
    if start < 0 || start >= |list| then []
    else
      var n := (limit + 1) / 2;
      list[start..if start + n < |list| then start + n else |list|]
  }

  /** `k` is how many members of `list` come before (score, name). */
  ghost predicate SeekPoint(list: seq<Member>, key: Member, k: nat) {
    && k <= |list|
    && (forall i :: 0 <= i < k ==> MemberLess(list[i], key))
    && (forall i :: k <= i < |list| ==> !MemberLess(list[i], key))
  }

  ghost predicate Zquery(s: Store, key: bytes, score: MaybeDouble, name: bytes, offset: bytes, limit: bytes,
      reply: Value) {
    if score.NotADouble? then reply == BadArg("expect fp number")
    else if Parse(offset).NotANumber? || Parse(limit).NotANumber? then reply == BadArg("expect int")
    else if key in s && s[key].content.Text? then reply == BadType("expect zset")
    else if Parse(limit).value <= 0 then reply == Arr([])
    else QueryReply(Scores(s, key), Member(name, score.value), Parse(offset).value, Parse(limit).value, reply)
  }

  /** The slice of the ordered list that starts `offset` places after the first member not before `key`;
      nothing if there is no such member. */
  ghost predicate QueryReply(scores: map<bytes, Double>, key: Member, offset: int, limit: int, reply: Value)
    requires limit > 0
  {
    exists list, k: nat ::
      && IsListing(list, scores)
      && SeekPoint(list, key, k)
      && reply == Arr(Pairs(if k == |list| then [] else Slice(list, k + offset, limit)))
  }

  /** A query has one answer. */
  lemma QueryReplyUnique(scores: map<bytes, Double>, key: Member, offset: int, limit: int, r1: Value, r2: Value)
    requires limit > 0 && QueryReply(scores, key, offset, limit, r1) && QueryReply(scores, key, offset, limit, r2)
    ensures r1 == r2
  {
    var l1, k1: nat :| IsListing(l1, scores) && SeekPoint(l1, key, k1)
      && r1 == Arr(Pairs(if k1 == |l1| then [] else Slice(l1, k1 + offset, limit)));
    var l2, k2: nat :| IsListing(l2, scores) && SeekPoint(l2, key, k2)
      && r2 == Arr(Pairs(if k2 == |l2| then [] else Slice(l2, k2 + offset, limit)));
    ListingUnique(l1, l2, scores);
    SeekPointUnique(l1, key, k1, k2);
  }

  lemma SeekPointUnique(list: seq<Member>, key: Member, k1: nat, k2: nat)
    requires SeekPoint(list, key, k1) && SeekPoint(list, key, k2)
    ensures k1 == k2
  {
    assert forall i :: 0 <= i < |list| ==> (MemberLess(list[i], key) <==> i < k1);
    assert forall i :: 0 <= i < |list| ==> (MemberLess(list[i], key) <==> i < k2);
    var lo, hi := if k1 < k2 then k1 else k2, if k1 < k2 then k2 else k1;
    if lo < |list| { assert (MemberLess(list[lo], key) <==> lo < k1) && (MemberLess(list[lo], key) <==> lo < k2); }
  }

  /** The keys in some order, each once. */
  ghost predicate Keys(s: Store, reply: Value) {
    exists keys: seq<bytes> ::
      && multiset(keys) == multiset(s.Keys)
      && reply == Arr(Strs(keys))
  }

  function Strs(keys: seq<bytes>): seq<Value> { seq(|keys|, i requires 0 <= i < |keys| => Str(keys[i])) }

  lemma NothingYet(keys: seq<bytes>)
    ensures EncodeAll(Strs(keys[..0])) == []
  {
    assert Strs(keys[..0]) == [];
  }

  lemma OneKey(keys: seq<bytes>, i: nat)
    requires i < |keys|
    ensures EncodeAll(Strs(keys[..i + 1])) == EncodeAll(Strs(keys[..i])) + Encode(Str(keys[i]))
  {
    hide Encode;
    assert Strs(keys[..i + 1]) == Strs(keys[..i]) + [Str(keys[i])];
    EncodeAllSnoc(Strs(keys[..i]), Str(keys[i]));
  }

  function TypeName(s: Store, key: bytes): string {
    if key !in s then "none" else if s[key].content.Text? then "string" else "zset"
  }

  /** What `execute` may do once nothing is due any more: `now` is the clock when it reads it again. */
  ghost predicate Dispatch(s: Store, cmd: Command, now: nat, strtod: bytes -> Strtod, s': Store, reply: Value) {
    var n := |cmd|;
    if (n == 1 || n == 2) && cmd[0] == Ascii("ping") then
      s' == s && reply == Str(if n == 2 then cmd[1] else Ascii("PONG"))
    else if n == 2 && cmd[0] == Ascii("exists") then s' == s && reply == Flag(cmd[1] in s)
    else if n == 2 && cmd[0] == Ascii("type") then
      s' == s && reply == Str(Ascii(TypeName(s, cmd[1])))
    else if n == 2 && cmd[0] == Ascii("persist") then Result(s', reply) == Persist(s, cmd[1])
    else if n == 2 && cmd[0] == Ascii("incr") then Result(s', reply) == Incr(s, cmd[1])
    else if n == 2 && cmd[0] == Ascii("get") then s' == s && reply == Get(s, cmd[1])
    else if n == 3 && cmd[0] == Ascii("set") then Result(s', reply) == Set(s, cmd[1], cmd[2])
    else if n == 2 && cmd[0] == Ascii("del") then Result(s', reply) == Del(s, cmd[1])
    else DispatchMore(s, cmd, now, strtod, s', reply)
  }

  ghost predicate DispatchMore(s: Store, cmd: Command, now: nat, strtod: bytes -> Strtod, s': Store, reply: Value) {
    var n := |cmd|;
    if n == 3 && cmd[0] == Ascii("pexpire") then Result(s', reply) == Expire(s, cmd[1], cmd[2], now)
    else if n == 2 && cmd[0] == Ascii("pttl") then s' == s && reply == Ttl(s, cmd[1], now)
    else if n == 1 && cmd[0] == Ascii("keys") then s' == s && Keys(s, reply)
    else if n == 4 && cmd[0] == Ascii("zadd") then
      Result(s', reply) == Zadd(s, cmd[1], ParseDouble(strtod, cmd[2]), cmd[3])
    else if n == 3 && cmd[0] == Ascii("zrem") then Result(s', reply) == Zrem(s, cmd[1], cmd[2])
    else if n == 3 && cmd[0] == Ascii("zscore") then s' == s && reply == Zscore(s, cmd[1], cmd[2])
    else if n == 6 && cmd[0] == Ascii("zquery") then
      s' == s && Zquery(s, cmd[1], ParseDouble(strtod, cmd[2]), cmd[3], cmd[4], cmd[5], reply)
    else s' == s && reply == Err(ERR_UNKNOWN, Ascii("unknown command."))
  }

  /** What `execute` does with a command that comes at `now`. */
  ghost predicate Executes(s: Store, cmd: Command, now: nat, later: nat, strtod: bytes -> Strtod, s': Store,
      reply: Value) {
    now <= later && Dispatch(Reap(s, now), cmd, later, strtod, s', reply)
  }
}
