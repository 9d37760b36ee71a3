/** What the commands of a store promise one another: laws between their answers, which a client could observe. */
module Answers {
  import opened Bytes
  import opened Doubles
  import opened Decimals
  import opened HashMap
  import opened Wire
  import opened Requests
  import opened ZSets
  import opened StoreSpec
  import opened StoreRuns
  import opened Sharding
  import opened Queries

  /** A command, as a client sends it. */
  function On(op: string, args: seq<bytes>): Command { [Ascii(op)] + args }

  /** In the store `s` the command answers `reply`, and nothing else. */
  ghost predicate Answers(s: Store, cmd: Command, t: nat, strtod: bytes -> Strtod, reply: Value) {
    && (exists s' :: Dispatch(s, cmd, t, strtod, s', reply))
    && (forall s', r :: Dispatch(s, cmd, t, strtod, s', r) ==> r == reply)
  }

  // ---------- which command is which ----------

  lemma Names()
    ensures |Ascii("get")| == |Ascii("set")| == |Ascii("del")| == 3
    ensures Ascii("get")[0] == 103 && Ascii("set")[0] == 115 && Ascii("del")[0] == 100
    ensures |Ascii("ping")| == |Ascii("type")| == |Ascii("incr")| == |Ascii("pttl")| == 4
    ensures |Ascii("keys")| == |Ascii("zadd")| == |Ascii("zrem")| == 4
    ensures Ascii("ping")[1] == 105 && Ascii("type")[1] == 121 && Ascii("incr")[1] == 110 && Ascii("pttl")[1] == 116
    ensures Ascii("keys")[1] == 101 && Ascii("zadd")[1] == 97 && Ascii("zrem")[1] == 114
    ensures |Ascii("exists")| == |Ascii("zscore")| == |Ascii("zquery")| == 6
    ensures Ascii("exists")[1] == 120 && Ascii("zscore")[1] == 115 && Ascii("zquery")[1] == 113
    ensures |Ascii("persist")| == |Ascii("pexpire")| == 7 && Ascii("persist")[2] == 114 && Ascii("pexpire")[2] == 120
  {}

  lemma TwoWords(s: Store, k: bytes, t: nat, strtod: bytes -> Strtod, s': Store, r: Value)
    ensures Dispatch(s, On("get", [k]), t, strtod, s', r) <==> s' == s && r == Get(s, k)
    ensures Dispatch(s, On("exists", [k]), t, strtod, s', r) <==> s' == s && r == Flag(k in s)
    ensures Dispatch(s, On("type", [k]), t, strtod, s', r) <==> s' == s && r == Str(Ascii(TypeName(s, k)))
    ensures Dispatch(s, On("pttl", [k]), t, strtod, s', r) <==> s' == s && r == Ttl(s, k, t)
  {
    hide Ascii, Persist, Incr, Set, StoreSpec.Del, Expire, Zadd, Zrem, Get, Ttl, TypeName, Zscore, Zquery, Keys,
        ParseDouble;
    Names();
  }

  lemma TwoWordsMore(s: Store, k: bytes, t: nat, strtod: bytes -> Strtod, s': Store, r: Value)
    ensures Dispatch(s, On("persist", [k]), t, strtod, s', r) <==> Result(s', r) == Persist(s, k)
    ensures Dispatch(s, On("incr", [k]), t, strtod, s', r) <==> Result(s', r) == Incr(s, k)
    ensures Dispatch(s, On("del", [k]), t, strtod, s', r) <==> Result(s', r) == StoreSpec.Del(s, k)
    ensures Dispatch(s, On("ping", [k]), t, strtod, s', r) <==> s' == s && r == Str(k)
  {
    hide Ascii, Persist, Incr, Set, StoreSpec.Del, Expire, Zadd, Zrem, Get, Ttl, TypeName, Zscore, Zquery, Keys,
        ParseDouble;
    Names();
  }

  lemma ThreeWords(s: Store, k: bytes, x: bytes, t: nat, strtod: bytes -> Strtod, s': Store, r: Value)
    ensures Dispatch(s, On("set", [k, x]), t, strtod, s', r) <==> Result(s', r) == Set(s, k, x)
    ensures Dispatch(s, On("pexpire", [k, x]), t, strtod, s', r) <==> Result(s', r) == Expire(s, k, x, t)
    ensures Dispatch(s, On("zrem", [k, x]), t, strtod, s', r) <==> Result(s', r) == Zrem(s, k, x)
    ensures Dispatch(s, On("zscore", [k, x]), t, strtod, s', r) <==> s' == s && r == Zscore(s, k, x)
  {
    hide Ascii, Persist, Incr, Set, StoreSpec.Del, Expire, Zadd, Zrem, Get, Ttl, TypeName, Zscore, Zquery, Keys,
        ParseDouble;
    Names();
  }

  lemma OtherWords(s: Store, a: bytes, b: bytes, c: bytes, d: bytes, e: bytes, t: nat, strtod: bytes -> Strtod,
      s': Store, r: Value)
    ensures Dispatch(s, On("ping", []), t, strtod, s', r) <==> s' == s && r == Str(Ascii("PONG"))
    ensures Dispatch(s, On("keys", []), t, strtod, s', r) <==> s' == s && Keys(s, r)
    ensures Dispatch(s, On("zadd", [a, b, c]), t, strtod, s', r) <==>
      Result(s', r) == Zadd(s, a, ParseDouble(strtod, b), c)
    ensures Dispatch(s, On("zquery", [a, b, c, d, e]), t, strtod, s', r) <==>
      s' == s && Zquery(s, a, ParseDouble(strtod, b), c, d, e, r)
  {
    hide Ascii, Persist, Incr, Set, StoreSpec.Del, Expire, Zadd, Zrem, Get, Ttl, TypeName, Zscore, Zquery, Keys,
        ParseDouble;
    Names();
  }

  lemma Says(s: Store, cmd: Command, t: nat, strtod: bytes -> Strtod, res: Result)
    requires forall s', r :: Dispatch(s, cmd, t, strtod, s', r) <==> Result(s', r) == res
    ensures forall r :: Answers(s, cmd, t, strtod, r) <==> r == res.reply
  {
    hide Dispatch;
    assert Dispatch(s, cmd, t, strtod, res.store, res.reply);
  }

  /** What each command answers, on the map. */
  lemma ReadsSay(s: Store, k: bytes, t: nat, strtod: bytes -> Strtod)
    ensures forall r :: Answers(s, On("get", [k]), t, strtod, r) <==> r == Get(s, k)
    ensures forall r :: Answers(s, On("exists", [k]), t, strtod, r) <==> r == Flag(k in s)
    ensures forall r :: Answers(s, On("type", [k]), t, strtod, r) <==> r == Str(Ascii(TypeName(s, k)))
    ensures forall r :: Answers(s, On("pttl", [k]), t, strtod, r) <==> r == Ttl(s, k, t)
  {
    hide Dispatch, On, Answers, Ascii, Get, TypeName, Ttl;
    forall s', r { TwoWords(s, k, t, strtod, s', r); }
    Says(s, On("get", [k]), t, strtod, Result(s, Get(s, k)));
    Says(s, On("exists", [k]), t, strtod, Result(s, Flag(k in s)));
    Says(s, On("type", [k]), t, strtod, Result(s, Str(Ascii(TypeName(s, k)))));
    Says(s, On("pttl", [k]), t, strtod, Result(s, Ttl(s, k, t)));
  }

  lemma WritesSay(s: Store, k: bytes, x: bytes, t: nat, strtod: bytes -> Strtod)
    ensures forall r :: Answers(s, On("persist", [k]), t, strtod, r) <==> r == Persist(s, k).reply
    ensures forall r :: Answers(s, On("incr", [k]), t, strtod, r) <==> r == Incr(s, k).reply
    ensures forall r :: Answers(s, On("del", [k]), t, strtod, r) <==> r == StoreSpec.Del(s, k).reply
    ensures forall r :: Answers(s, On("zrem", [k, x]), t, strtod, r) <==> r == Zrem(s, k, x).reply
    ensures forall r :: Answers(s, On("zscore", [k, x]), t, strtod, r) <==> r == Zscore(s, k, x)
  {
    hide Dispatch, On, Answers, Ascii, Persist, Incr, StoreSpec.Del, Zrem, Zscore, Set, Expire;
    forall s', r { TwoWordsMore(s, k, t, strtod, s', r); }
    forall s', r { ThreeWords(s, k, x, t, strtod, s', r); }
    Says(s, On("persist", [k]), t, strtod, Persist(s, k));
    Says(s, On("incr", [k]), t, strtod, Incr(s, k));
    Says(s, On("del", [k]), t, strtod, StoreSpec.Del(s, k));
    Says(s, On("zrem", [k, x]), t, strtod, Zrem(s, k, x));
    Says(s, On("zscore", [k, x]), t, strtod, Result(s, Zscore(s, k, x)));
  }

  // ---------- one moment ----------

  lemma TypeNames()
    ensures Ascii("none") != Ascii("string") && Ascii("string") != Ascii("zset") && Ascii("zset") != Ascii("none")
  {
    assert |Ascii("none")| == 4 && |Ascii("string")| == 6 && |Ascii("zset")| == 4;
    assert Ascii("none")[0] == 110 && Ascii("zset")[0] == 122;
  }

  /** The answers of commands that a text, or a sorted set, does not understand. */
  const NOT_TEXT: Value := Err(ERR_BAD_TYP, Ascii("not a string value"))
  const NOT_ZSET: Value := Err(ERR_BAD_TYP, Ascii("expect zset"))
  const NOT_INT: Value := Err(ERR_BAD_ARG, Ascii("value is not an integer or increment would overflow"))

  /** At any moment the answers about a key fit together: whether it is there, what it is, whether it has a
      deadline, and what removing it would say. */
  lemma OneMoment(s: Store, k: bytes, m: bytes, t: nat, strtod: bytes -> Strtod)
    ensures Answers(s, On("exists", [k]), t, strtod, Int(1)) <==> !Answers(s, On("exists", [k]), t, strtod, Int(0))
    ensures Answers(s, On("exists", [k]), t, strtod, Int(1)) <==> Answers(s, On("del", [k]), t, strtod, Int(1))
    ensures Answers(s, On("exists", [k]), t, strtod, Int(0)) <==> Answers(s, On("del", [k]), t, strtod, Int(0))
    ensures Answers(s, On("exists", [k]), t, strtod, Int(0)) <==> Answers(s, On("pttl", [k]), t, strtod, Int(-2))
    ensures Answers(s, On("exists", [k]), t, strtod, Int(0)) <==> Answers(s, On("get", [k]), t, strtod, Nil)
    ensures Answers(s, On("exists", [k]), t, strtod, Int(0)) <==>
      Answers(s, On("type", [k]), t, strtod, Str(Ascii("none")))
    ensures Answers(s, On("type", [k]), t, strtod, Str(Ascii("string"))) <==>
      exists v :: Answers(s, On("get", [k]), t, strtod, Str(v))
    ensures Answers(s, On("type", [k]), t, strtod, Str(Ascii("zset"))) <==>
      Answers(s, On("get", [k]), t, strtod, NOT_TEXT)
    ensures Answers(s, On("persist", [k]), t, strtod, Int(1)) <==>
      exists d: nat :: Answers(s, On("pttl", [k]), t, strtod, Int(d))
    ensures Answers(s, On("persist", [k]), t, strtod, Int(0)) <==> !Answers(s, On("persist", [k]), t, strtod, Int(1))
  {
    hide Answers, On, Ascii, Incr, Zrem, Zscore;
    ReadsSay(s, k, t, strtod);
    WritesSay(s, k, m, t, strtod);
    TypeNames();
    if k in s {
      if s[k].content.Text? { assert Answers(s, On("get", [k]), t, strtod, Str(s[k].content.s)); }
      if s[k].deadline.Some? { assert Answers(s, On("pttl", [k]), t, strtod, Int(Ttl(s, k, t).i)); }
    }
  }

  /** The same for a member of a sorted set. */
  lemma OneMember(s: Store, k: bytes, m: bytes, t: nat, strtod: bytes -> Strtod)
    ensures Answers(s, On("zrem", [k, m]), t, strtod, Int(1)) <==>
      exists d :: Answers(s, On("zscore", [k, m]), t, strtod, Dbl(d))
    ensures Answers(s, On("zrem", [k, m]), t, strtod, Int(0)) <==> Answers(s, On("zscore", [k, m]), t, strtod, Nil)
    ensures Answers(s, On("exists", [k]), t, strtod, Int(0)) ==> Answers(s, On("zscore", [k, m]), t, strtod, Nil)
    ensures Answers(s, On("type", [k]), t, strtod, Str(Ascii("string"))) <==>
      Answers(s, On("zscore", [k, m]), t, strtod, NOT_ZSET)
  {
    hide Answers, On, Ascii, Incr, Persist, StoreSpec.Del, Get, Ttl;
    ReadsSay(s, k, t, strtod);
    WritesSay(s, k, m, t, strtod);
    TypeNames();
    var r := Zscore(s, k, m);
    assert Answers(s, On("zscore", [k, m]), t, strtod, r);
    if r.Dbl? { assert Answers(s, On("zscore", [k, m]), t, strtod, Dbl(r.d)); }
  }

  /** `keys` lists exactly the keys that exist, each once. */
  lemma KeysExist(s: Store, t: nat, strtod: bytes -> Strtod, s': Store, reply: Value)
    requires Dispatch(s, On("keys", []), t, strtod, s', reply)
    ensures s' == s && reply.Arr? && forall v :: v in reply.items ==> v.Str?
    ensures forall k, u :: Str(k) in reply.items <==> Answers(s, On("exists", [k]), u, strtod, Int(1))
    ensures forall i, j :: 0 <= i < j < |reply.items| ==> reply.items[i] != reply.items[j]
  {
    hide Answers, On, Ascii, Dispatch, Zadd, Zquery;
    OtherWords(s, [], [], [], [], [], t, strtod, s', reply);
    var keys: seq<bytes> :| multiset(keys) == multiset(s.Keys) && reply == Arr(Strs(keys));
    forall k, u ensures Str(k) in reply.items <==> Answers(s, On("exists", [k]), u, strtod, Int(1)) {
      ReadsSay(s, k, u, strtod);
      assert k in multiset(keys) <==> k in s;
      if k in keys {
        var i :| 0 <= i < |keys| && keys[i] == k;
        assert Strs(keys)[i] == Str(k);
      }
    }
    forall i, j | 0 <= i < j < |keys| ensures keys[i] != keys[j] { OnceEach(keys, s.Keys, i, j); }
  }

  lemma OnceEach(keys: seq<bytes>, K: set<bytes>, i: nat, j: nat)
    requires multiset(keys) == multiset(K) && i < j < |keys|
    ensures keys[i] != keys[j]
  {
    var a, b := keys[..j], keys[j..];
    assert keys == a + b && a[i] in a && b[0] == keys[j];
    assert multiset(keys)[keys[j]] == multiset(a)[keys[j]] + multiset(b)[keys[j]];
    assert keys[i] in multiset(a) && keys[j] in multiset(b);
  }

  /** `ping` echoes. */
  lemma PingEchoes(s: Store, x: bytes, t: nat, strtod: bytes -> Strtod, s': Store, r: Value)
    ensures Dispatch(s, On("ping", []), t, strtod, s', r) <==> s' == s && r == Str(Ascii("PONG"))
    ensures Dispatch(s, On("ping", [x]), t, strtod, s', r) <==> s' == s && r == Str(x)
  {
    hide Dispatch;
    OtherWords(s, [], [], [], [], [], t, strtod, s', r);
    TwoWordsMore(s, x, t, strtod, s', r);
  }

  // ---------- before and after ----------

  /** The answers about `k` and its members are the same in both stores. */
  ghost predicate SameAbout(s: Store, s': Store, k: bytes, strtod: bytes -> Strtod) {
    forall u, m, r ::
      && (Answers(s, On("get", [k]), u, strtod, r) <==> Answers(s', On("get", [k]), u, strtod, r))
      && (Answers(s, On("exists", [k]), u, strtod, r) <==> Answers(s', On("exists", [k]), u, strtod, r))
      && (Answers(s, On("type", [k]), u, strtod, r) <==> Answers(s', On("type", [k]), u, strtod, r))
      && (Answers(s, On("pttl", [k]), u, strtod, r) <==> Answers(s', On("pttl", [k]), u, strtod, r))
      && (Answers(s, On("zscore", [k, m]), u, strtod, r) <==> Answers(s', On("zscore", [k, m]), u, strtod, r))
  }

  /** A command says nothing new about a key that is not its own. */
  lemma OtherKeys(s: Store, cmd: Command, t: nat, strtod: bytes -> Strtod, s': Store, reply: Value, k: bytes)
    requires Dispatch(s, cmd, t, strtod, s', reply) && (|cmd| >= 2 ==> cmd[1] != k)
    ensures SameAbout(s, s', k, strtod)
  {
    hide Dispatch, Answers, On, Ascii, Get, TypeName, Ttl, Zscore, KeyedOp, Persist, Incr, StoreSpec.Del, Zrem;
    OnlyItsKey(s, cmd, t, strtod, s', reply);
    assert At(s, k) == At(s', k);
    SameItemSays(s, s', k, strtod);
  }

  lemma SameItemSays(s: Store, s': Store, k: bytes, strtod: bytes -> Strtod)
    requires At(s, k) == At(s', k)
    ensures SameAbout(s, s', k, strtod)
  {
    hide Answers, On, Ascii, Persist, Incr, StoreSpec.Del, Zrem, At, Get, TypeName, Ttl, Zscore, Set, Expire, Zadd;
    forall u, m, r
      ensures Answers(s, On("get", [k]), u, strtod, r) <==> Answers(s', On("get", [k]), u, strtod, r)
      ensures Answers(s, On("exists", [k]), u, strtod, r) <==> Answers(s', On("exists", [k]), u, strtod, r)
      ensures Answers(s, On("type", [k]), u, strtod, r) <==> Answers(s', On("type", [k]), u, strtod, r)
      ensures Answers(s, On("pttl", [k]), u, strtod, r) <==> Answers(s', On("pttl", [k]), u, strtod, r)
      ensures Answers(s, On("zscore", [k, m]), u, strtod, r) <==> Answers(s', On("zscore", [k, m]), u, strtod, r)
    {
      ReadsSay(s, k, u, strtod);
      ReadsSay(s', k, u, strtod);
      WritesSay(s, k, m, u, strtod);
      WritesSay(s', k, m, u, strtod);
      AlikeAtKey(s, s', k, [], [], u);
      AlikeRankings(s, s', k, m, NotADouble);
    }
  }

  /** `set` refuses a sorted set. Otherwise `get` then answers the text, and the key has no deadline. */
  lemma AfterSet(s: Store, k: bytes, v: bytes, t: nat, u: nat, strtod: bytes -> Strtod, s': Store, r: Value)
    requires Dispatch(s, On("set", [k, v]), t, strtod, s', r)
    ensures if Answers(s, On("type", [k]), t, strtod, Str(Ascii("zset"))) then
              r == Err(ERR_BAD_TYP, Ascii("a non-string value exists")) && s' == s
            else r == Str(Ascii("OK"))
    ensures r == Str(Ascii("OK")) ==>
      && Answers(s', On("get", [k]), u, strtod, Str(v)) && Answers(s', On("exists", [k]), u, strtod, Int(1))
      && Answers(s', On("type", [k]), u, strtod, Str(Ascii("string")))
      && Answers(s', On("pttl", [k]), u, strtod, Int(-1))
  {
    hide Dispatch, Answers, On, Ascii;
    ThreeWords(s, k, v, t, strtod, s', r);
    ReadsSay(s, k, t, strtod);
    ReadsSay(s', k, u, strtod);
    TypeNames();
  }

  /** `del` says whether the key was there, and then it is not. */
  lemma AfterDel(s: Store, k: bytes, m: bytes, t: nat, u: nat, strtod: bytes -> Strtod, s': Store, r: Value)
    requires Dispatch(s, On("del", [k]), t, strtod, s', r)
    ensures r == Int(if Answers(s, On("exists", [k]), t, strtod, Int(1)) then 1 else 0)
    ensures Answers(s', On("exists", [k]), u, strtod, Int(0)) && Answers(s', On("get", [k]), u, strtod, Nil)
    ensures Answers(s', On("type", [k]), u, strtod, Str(Ascii("none")))
    ensures Answers(s', On("pttl", [k]), u, strtod, Int(-2)) && Answers(s', On("zscore", [k, m]), u, strtod, Nil)
  {
    hide Dispatch, Answers, On, Ascii, Persist, Incr, Zrem;
    TwoWordsMore(s, k, t, strtod, s', r);
    ReadsSay(s, k, t, strtod);
    ReadsSay(s', k, u, strtod);
    WritesSay(s', k, m, u, strtod);
  }

  /** `incr` counts a new key from 1, adds one to the number that `get` answers, refuses anything else, and
      `get` then answers the sum. The deadline stays; a new key has none. */
  lemma AfterIncr(s: Store, k: bytes, i: int, t: nat, u: nat, strtod: bytes -> Strtod, s': Store, r: Value)
    requires Dispatch(s, On("incr", [k]), t, strtod, s', r)
    ensures Answers(s, On("get", [k]), t, strtod, Nil) ==>
      r == Int(1) && Answers(s', On("pttl", [k]), u, strtod, Int(-1))
    ensures IsInt64(i) && Answers(s, On("get", [k]), t, strtod, Str(Decimal(i))) ==>
      r == if i < INT64_MAX then Int(i + 1) else NOT_INT
    ensures forall v :: Parse(v).NotANumber? && Answers(s, On("get", [k]), t, strtod, Str(v)) ==> r == NOT_INT
    ensures Answers(s, On("type", [k]), t, strtod, Str(Ascii("zset"))) ==> r == NOT_TEXT
    ensures r.Err? ==> s' == s
    ensures r.Int? ==>
      Answers(s', On("get", [k]), u, strtod, Str(Decimal(r.i))) && Answers(s', On("exists", [k]), u, strtod, Int(1))
    ensures Answers(s, On("exists", [k]), t, strtod, Int(1)) ==>
      forall x :: Answers(s, On("pttl", [k]), u, strtod, x) <==> Answers(s', On("pttl", [k]), u, strtod, x)
  {
    hide Dispatch, Answers, On, Ascii, Parse, Decimal;
    TwoWordsMore(s, k, t, strtod, s', r);
    ReadsSay(s, k, t, strtod);
    ReadsSay(s, k, u, strtod);
    ReadsSay(s', k, u, strtod);
    TypeNames();
    if IsInt64(i) { ParseDecimal(i); }
  }

  /** `pexpire` says whether the key was there. `pttl` then counts down from the duration and `get` answers as
      before; with no time left the key is gone. What is not a number changes nothing. */
  lemma AfterExpire(s: Store, k: bytes, x: bytes, t: nat, u: nat, strtod: bytes -> Strtod, s': Store, r: Value)
    requires Dispatch(s, On("pexpire", [k, x]), t, strtod, s', r)
    ensures Parse(x).NotANumber? ==> r == Err(ERR_BAD_ARG, Ascii("expect int64")) && s' == s
    ensures Parse(x).Number? ==> r == Int(if Answers(s, On("exists", [k]), t, strtod, Int(1)) then 1 else 0)
    ensures Parse(x).Number? && Parse(x).value > 0 && r == Int(1) ==>
      var end := t + Parse(x).value;
      && Answers(s', On("pttl", [k]), u, strtod, Int(if u < end then end - u else 0))
      && forall y :: Answers(s, On("get", [k]), u, strtod, y) <==> Answers(s', On("get", [k]), u, strtod, y)
    ensures Parse(x).Number? && Parse(x).value <= 0 ==> Answers(s', On("exists", [k]), u, strtod, Int(0))
  {
    hide Dispatch, Answers, On, Ascii, Parse;
    ThreeWords(s, k, x, t, strtod, s', r);
    ReadsSay(s, k, t, strtod);
    ReadsSay(s, k, u, strtod);
    ReadsSay(s', k, u, strtod);
  }

  /** The key lives until its deadline, and from then on it is gone. */
  lemma ExpiresOnTime(s: Store, k: bytes, x: bytes, t: nat, strtod: bytes -> Strtod, s': Store, r: Value, now: nat,
      later: nat, s'': Store, r': Value)
    requires Dispatch(s, On("pexpire", [k, x]), t, strtod, s', r) && r == Int(1)
    requires Parse(x).Number? && Parse(x).value > 0
    requires Executes(s', On("exists", [k]), now, later, strtod, s'', r')
    ensures r' == Int(if now < t + Parse(x).value then 1 else 0)
  {
    hide Dispatch, On, Ascii, Parse;
    ThreeWords(s, k, x, t, strtod, s', r);
    TwoWords(Reap(s', now), k, later, strtod, s'', r');
  }

  /** `persist` says whether there was a deadline, and then there is none; `get` answers as before. */
  lemma AfterPersist(s: Store, k: bytes, t: nat, u: nat, strtod: bytes -> Strtod, s': Store, r: Value)
    requires Dispatch(s, On("persist", [k]), t, strtod, s', r)
    ensures r == Int(if exists d: nat :: Answers(s, On("pttl", [k]), t, strtod, Int(d)) then 1 else 0)
    ensures var left := if Answers(s, On("exists", [k]), t, strtod, Int(1)) then -1 else -2;
            Answers(s', On("pttl", [k]), u, strtod, Int(left))
    ensures forall y :: Answers(s, On("get", [k]), u, strtod, y) <==> Answers(s', On("get", [k]), u, strtod, y)
  {
    hide Dispatch, Answers, On, Ascii;
    TwoWordsMore(s, k, t, strtod, s', r);
    ReadsSay(s, k, t, strtod);
    ReadsSay(s, k, u, strtod);
    ReadsSay(s', k, u, strtod);
    if k in s && s[k].deadline.Some? { assert Answers(s, On("pttl", [k]), t, strtod, Int(Ttl(s, k, t).i)); }
  }

  /** What `strtod` does not read whole, or finds out of range, or finds not to be a number, is no score. */
  predicate NoScore(strtod: bytes -> Strtod, x: bytes) {
    x == [] || strtod(x).end != |x| || strtod(x).erange || IsNaN(strtod(x).value)
  }

  /** `zadd` refuses what is no score, and a key that holds a text. Otherwise it says whether the member is new;
      `zscore` then answers a double that compares equal to the score, the old one if that did; all other
      members keep theirs; and the deadline stays. */
  lemma AfterZadd(s: Store, k: bytes, x: bytes, m: bytes, t: nat, u: nat, strtod: bytes -> Strtod, s': Store, r: Value)
    requires Dispatch(s, On("zadd", [k, x, m]), t, strtod, s', r)
    ensures NoScore(strtod, x) ==> r == Err(ERR_BAD_ARG, Ascii("expect float"))
    ensures !NoScore(strtod, x) && Answers(s, On("type", [k]), t, strtod, Str(Ascii("string"))) ==>
      r == NOT_ZSET
    ensures !NoScore(strtod, x) && !Answers(s, On("type", [k]), t, strtod, Str(Ascii("string"))) ==>
      && r == Int(if Answers(s, On("zscore", [k, m]), t, strtod, Nil) then 1 else 0)
      && (exists d :: Worth(d) == Worth(strtod(x).value) && Answers(s', On("zscore", [k, m]), u, strtod, Dbl(d)))
      && Answers(s', On("type", [k]), u, strtod, Str(Ascii("zset")))
    ensures forall d ::
      !r.Err? && Worth(d) == Worth(strtod(x).value) && Answers(s, On("zscore", [k, m]), u, strtod, Dbl(d)) ==>
      Answers(s', On("zscore", [k, m]), u, strtod, Dbl(d))
    ensures forall n, y :: n != m ==>
      (Answers(s, On("zscore", [k, n]), u, strtod, y) <==> Answers(s', On("zscore", [k, n]), u, strtod, y))
    ensures Answers(s, On("exists", [k]), t, strtod, Int(1)) ==>
      forall y :: Answers(s, On("pttl", [k]), u, strtod, y) <==> Answers(s', On("pttl", [k]), u, strtod, y)
  {
    hide Dispatch, Answers, On, Ascii, Key, Worth, Incr, Persist, StoreSpec.Del, Get, Zrem, Zquery, Keys;
    OtherWords(s, k, x, m, [], [], t, strtod, s', r);
    ReadsSay(s, k, t, strtod);
    ReadsSay(s, k, u, strtod);
    ReadsSay(s', k, u, strtod);
    WritesSay(s, k, m, t, strtod);
    WritesSay(s, k, m, u, strtod);
    WritesSay(s', k, m, u, strtod);
    TypeNames();
    forall n, y | n != m
      ensures Answers(s, On("zscore", [k, n]), u, strtod, y) <==> Answers(s', On("zscore", [k, n]), u, strtod, y)
    {
      WritesSay(s, k, n, u, strtod);
      WritesSay(s', k, n, u, strtod);
    }
    var score := strtod(x).value;
    forall d ensures Worth(d) == Worth(score) <==> Key(d) == Key(score) { KeyIsOrder(d, score); }
    if !r.Err? { assert Answers(s', On("zscore", [k, m]), u, strtod, Dbl(s'[k].content.scores[m])); }
  }

  /** `zrem` refuses a text. Otherwise it says whether the member was there, and then it is not; the key stays
      what it was, and so do the other members. */
  lemma AfterZrem(s: Store, k: bytes, m: bytes, t: nat, u: nat, strtod: bytes -> Strtod, s': Store, r: Value)
    requires Dispatch(s, On("zrem", [k, m]), t, strtod, s', r)
    ensures if Answers(s, On("type", [k]), t, strtod, Str(Ascii("string"))) then r == NOT_ZSET
            else r == Int(if Answers(s, On("zscore", [k, m]), t, strtod, Nil) then 0 else 1)
    ensures !r.Err? ==> Answers(s', On("zscore", [k, m]), u, strtod, Nil)
    ensures forall y :: Answers(s, On("type", [k]), u, strtod, y) <==> Answers(s', On("type", [k]), u, strtod, y)
    ensures forall y :: Answers(s, On("pttl", [k]), u, strtod, y) <==> Answers(s', On("pttl", [k]), u, strtod, y)
    ensures forall n, y :: n != m ==>
      (Answers(s, On("zscore", [k, n]), u, strtod, y) <==> Answers(s', On("zscore", [k, n]), u, strtod, y))
  {
    hide Dispatch, Answers, On, Ascii, Incr, Persist, StoreSpec.Del, Get, Set, Expire;
    ThreeWords(s, k, m, t, strtod, s', r);
    ReadsSay(s, k, t, strtod);
    ReadsSay(s, k, u, strtod);
    ReadsSay(s', k, u, strtod);
    WritesSay(s, k, m, t, strtod);
    WritesSay(s', k, m, u, strtod);
    TypeNames();
    forall n, y | n != m
      ensures Answers(s, On("zscore", [k, n]), u, strtod, y) <==> Answers(s', On("zscore", [k, n]), u, strtod, y)
    {
      WritesSay(s, k, n, u, strtod);
      WritesSay(s', k, n, u, strtod);
    }
  }

  // ---------- queries ----------

  /** `zquery` with its arguments in the order key, score, name, offset, limit. It refuses what is no score, then
      what is no number, then a text. A limit of zero or less answers nothing; a positive one the members by
      rank. Each pair is a member with the score that `zscore` answers. */
  lemma QueryAnswers(s: Store, k: bytes, x: bytes, m: bytes, off: bytes, lim: bytes, t: nat, strtod: bytes -> Strtod,
      s': Store, r: Value)
    requires Dispatch(s, On("zquery", [k, x, m, off, lim]), t, strtod, s', r)
    ensures s' == s
    ensures NoScore(strtod, x) ==> r == Err(ERR_BAD_ARG, Ascii("expect fp number"))
    ensures !NoScore(strtod, x) && (Parse(off).NotANumber? || Parse(lim).NotANumber?) ==>
      r == Err(ERR_BAD_ARG, Ascii("expect int"))
    ensures !NoScore(strtod, x) && Parse(off).Number? && Parse(lim).Number? ==>
      if Answers(s, On("type", [k]), t, strtod, Str(Ascii("string"))) then r == NOT_ZSET
      else if Parse(lim).value <= 0 then r == Arr([])
      else r.Arr? && Ranked(MembersOf(s, k), Member(m, strtod(x).value), Parse(off).value, Parse(lim).value, r.items)
    ensures forall i: nat, y :: r.Arr? && IsPair(r.items, i, y) ==>
      Answers(s, On("zscore", [k, y.name]), t, strtod, Dbl(y.score))
  {
    hide Dispatch, Answers, On, Ascii, Parse, QueryReply, Persist, Incr, StoreSpec.Del, Zrem, Get, Ttl, Zadd, Keys,
        Lower;
    OtherWords(s, k, x, m, off, lim, t, strtod, s', r);
    ReadsSay(s, k, t, strtod);
    TypeNames();
    if !NoScore(strtod, x) && Parse(off).Number? && Parse(lim).Number? && Parse(lim).value > 0 &&
      !(k in s && s[k].content.Text?)
    {
      var key := Member(m, strtod(x).value);
      QueryByRank(MembersOf(s, k), key, Parse(off).value, Parse(lim).value, r);
      forall i: nat, y | IsPair(r.items, i, y) ensures Answers(s, On("zscore", [k, y.name]), t, strtod, Dbl(y.score)) {
        WritesSay(s, k, y.name, t, strtod);
        PairIsMember(MembersOf(s, k), key, Parse(off).value, Parse(lim).value, r.items, i, y);
      }
    }
  }

  /** The members under a key, with the scores that `zscore` answers. */
  ghost function MembersOf(s: Store, k: bytes): map<bytes, Double> {
    if k in s && s[k].content.Ranking? then s[k].content.scores else map[]
  }

  lemma MembersAre(s: Store, k: bytes, m: bytes, t: nat, strtod: bytes -> Strtod)
    ensures m in MembersOf(s, k) <==> exists d :: Answers(s, On("zscore", [k, m]), t, strtod, Dbl(d))
    ensures m in MembersOf(s, k) ==> Answers(s, On("zscore", [k, m]), t, strtod, Dbl(MembersOf(s, k)[m]))
  {
    hide Answers, On, Ascii, Persist, Incr, StoreSpec.Del, Zrem;
    WritesSay(s, k, m, t, strtod);
    if m in MembersOf(s, k) { assert Answers(s, On("zscore", [k, m]), t, strtod, Dbl(MembersOf(s, k)[m])); }
  }

  // ---------- whole runs ----------

  /** Event `e` gives the key `k` the text `v`: a `set`, or an `incr` that answers a number. */
  ghost predicate Writes(e: Event, reply: Value, k: bytes, v: bytes) {
    e.Request? &&
    ((e.cmd == On("set", [k, v]) && reply == Str(Ascii("OK"))) ||
     (e.cmd == On("incr", [k]) && reply.Int? && v == Decimal(reply.i)))
  }

  /** Event `e` is no `set`, `incr`, `del` or `pexpire` of `k` that succeeds. */
  ghost predicate Quiet(e: Event, reply: Value, k: bytes) {
    e.Timer? || reply.Err? ||
    (!IsOn(e.cmd, "set", 3, k) && !IsOn(e.cmd, "incr", 2, k) &&
     !IsOn(e.cmd, "del", 2, k) && !IsOn(e.cmd, "pexpire", 3, k))
  }

  /** The store has the text `v` under `k`, with the deadline `d` or with none. */
  ghost predicate Has(s: Store, k: bytes, v: bytes, d: Option<nat>) {
    k in s && s[k].content == Text(v) && (s[k].deadline == d || s[k].deadline == None)
  }

  predicate Passed(d: Option<nat>, now: nat) { d.Some? && d.value <= now }

  lemma TextKept(s: Store, k: bytes, v: bytes, d: Option<nat>, x: bytes, score: MaybeDouble)
    requires Has(s, k, v, d)
    ensures Has(Persist(s, k).store, k, v, d)
    ensures Has(Zadd(s, k, score, x).store, k, v, d) && Has(Zrem(s, k, x).store, k, v, d)
  {
    hide Ascii;
  }

  lemma QuietDispatch(s: Store, e: Event, t: nat, strtod: bytes -> Strtod, s': Store, reply: Value, k: bytes, v: bytes,
      d: Option<nat>)
    requires Has(s, k, v, d) && e.Request? && Dispatch(s, e.cmd, t, strtod, s', reply) && Quiet(e, reply, k)
    ensures Has(s', k, v, d)
  {
    hide Ascii, Persist, Incr, Set, StoreSpec.Del, Expire, Zadd, Zrem, Get, Ttl, TypeName, Zscore, Zquery, Keys,
        ParseDouble, Has, KeyedOp;
    var cmd := e.cmd;
    if reply.Err? {
      FailureChangesNothing(s, cmd, t, strtod, s', reply);
    } else if |cmd| < 2 || cmd[1] != k {
      OnlyItsKey(s, cmd, t, strtod, s', reply);
      HasAgain(s, s', k, v, d);
    } else {
      var x := if |cmd| >= 4 then cmd[3] else if |cmd| >= 3 then cmd[2] else [];
      TextKept(s, k, v, d, x, if |cmd| >= 3 then ParseDouble(strtod, cmd[2]) else NotADouble);
    }
  }

  lemma HasAgain(s: Store, s': Store, k: bytes, v: bytes, d: Option<nat>)
    requires Has(s, k, v, d) && At(s, k) == At(s', k)
    ensures Has(s', k, v, d)
  {}

  /** A quiet event leaves the text, unless its deadline has passed. */
  lemma QuietStep(s: Store, e: Event, strtod: bytes -> Strtod, s': Store, reply: Value, k: bytes, v: bytes,
      d: Option<nat>)
    requires Has(s, k, v, d) && Happens(s, e, strtod, s', reply) && Quiet(e, reply, k)
    ensures Has(s', k, v, d) || Passed(d, e.now)
  {
    hide Dispatch, Quiet;
    if e.Request? && !Due(s[k], e.now) {
      QuietDispatch(Reap(s, e.now), e, e.later, strtod, s', reply, k, v, d);
    }
  }

  lemma {:induction false} QuietRun(states: seq<Store>, events: seq<Event>, replies: seq<Value>,
      strtod: bytes -> Strtod, j: nat, i: nat, k: bytes, v: bytes, d: Option<nat>)
    requires IsRun(states, events, replies, strtod) && j < i <= |events| && Has(states[j + 1], k, v, d)
    requires forall l :: j < l < i ==> Quiet(events[l], replies[l], k)
    ensures Has(states[i], k, v, d) || Passed(d, End(events[i - 1]))
  {
    hide Happens, Quiet, Has;
    if i > j + 1 {
      QuietRun(states, events, replies, strtod, j, i - 1, k, v, d);
      if Has(states[i - 1], k, v, d) {
        QuietStep(states[i - 1], events[i - 1], strtod, states[i], replies[i - 1], k, v, d);
      }
    }
  }

  lemma WriteHas(s: Store, e: Event, strtod: bytes -> Strtod, s': Store, reply: Value, k: bytes, v: bytes)
    requires Happens(s, e, strtod, s', reply) && Writes(e, reply, k, v)
    ensures k in s' && Has(s', k, v, s'[k].deadline)
    ensures e.cmd == On("set", [k, v]) ==> s'[k].deadline == None
  {
    hide Dispatch, On, Ascii, Parse, Decimal, Reap;
    ThreeWords(Reap(s, e.now), k, v, e.later, strtod, s', reply);
    TwoWordsMore(Reap(s, e.now), k, e.later, strtod, s', reply);
  }

  lemma GetHas(s: Store, e: Event, strtod: bytes -> Strtod, s': Store, reply: Value, k: bytes, v: bytes, d: Option<nat>)
    requires Has(s, k, v, d) && Happens(s, e, strtod, s', reply) && e.Request? && e.cmd == On("get", [k])
    ensures reply == Str(v) || Passed(d, e.now)
  {
    hide Dispatch, On, Ascii;
    TwoWords(Reap(s, e.now), k, e.later, strtod, s', reply);
  }

  /** In every run, `get` answers the text that the last `set` or `incr` gave the key, if no `del` or `pexpire`
      came after it, and unless a deadline that stood already has passed. After a `set` none stands. */
  lemma LastWrite(states: seq<Store>, events: seq<Event>, replies: seq<Value>, strtod: bytes -> Strtod, j: nat, i: nat,
      k: bytes, v: bytes)
    requires IsRun(states, events, replies, strtod) && j < i < |events|
    requires Writes(events[j], replies[j], k, v) && forall l :: j < l < i ==> Quiet(events[l], replies[l], k)
    requires events[i].Request? && events[i].cmd == On("get", [k])
    ensures replies[i] == Str(v) || (k in states[j + 1] && Passed(states[j + 1][k].deadline, events[i].now))
    ensures events[j].cmd == On("set", [k, v]) ==> replies[i] == Str(v)
  {
    hide Happens, Quiet, Has, Writes, On;
    assert Happens(states[j], events[j], strtod, states[j + 1], replies[j]);
    WriteHas(states[j], events[j], strtod, states[j + 1], replies[j], k, v);
    var d := states[j + 1][k].deadline;
    QuietRun(states, events, replies, strtod, j, i, k, v, d);
    assert End(events[i - 1]) <= events[i].now;
    if Has(states[i], k, v, d) {
      assert Happens(states[i], events[i], strtod, states[i + 1], replies[i]);
      GetHas(states[i], events[i], strtod, states[i + 1], replies[i], k, v, d);
    }
  }
}
