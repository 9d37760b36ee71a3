/** `src/sharding.cpp`: which shard a command goes to. */
module Sharding {
  import opened Bytes
  import opened HashMap
  import opened Wire
  import opened Requests

  /** `shard_for_key` */
  function ShardFor(key: bytes, n: nat): (i: nat)
    ensures n > 0 ==> i < n
  { if n == 0 then 0 else StrHash(key) % n }

  /** The commands that name a key. */
  predicate KeyedOp(op: bytes) {
    || op == Ascii("get") || op == Ascii("set") || op == Ascii("del") || op == Ascii("pexpire") || op == Ascii("pttl")
    || op == Ascii("exists") || op == Ascii("type") || op == Ascii("persist") || op == Ascii("incr")
    || op == Ascii("zadd") || op == Ascii("zrem") || op == Ascii("zscore") || op == Ascii("zquery")
  }

  /** `routing_key_for_command` */
  function RoutingKey(cmd: Command): Option<bytes> {
    if |cmd| >= 2 && KeyedOp(cmd[0]) then Some(cmd[1]) else None
  }

  /** `is_scatter_gather_command` */
  predicate IsScatterGather(cmd: Command) { |cmd| == 1 && cmd[0] == Ascii("keys") }

  /** The commands the proxy answers itself. */
  predicate IsPing(cmd: Command) { (|cmd| == 1 || |cmd| == 2) && cmd[0] == Ascii("ping") }

  lemma XorBit(a: nat, b: nat, k: nat, x: nat)
    requires k > 0 && Xor(a / 2, b / 2, k - 1) == x
    ensures Xor(a, b, k) == 2 * x + if a % 2 == b % 2 then 0 else 1
  {}

  lemma XorA()
    ensures Xor(197, 97, 8) == 164
  {
    hide Xor;
    XorNone(0, 0);
    XorBit(1, 0, 1, 0);
    XorBit(3, 1, 2, 1);
    XorBit(6, 3, 3, 2);
    XorBit(12, 6, 4, 5);
    XorBit(24, 12, 5, 10);
    XorBit(49, 24, 6, 20);
    XorBit(98, 48, 7, 41);
    XorBit(197, 97, 8, 82);
  }

  lemma XorB()
    ensures Xor(197, 98, 8) == 167
  {
    hide Xor;
    XorNone(0, 0);
    XorBit(1, 0, 1, 0);
    XorBit(3, 1, 2, 1);
    XorBit(6, 3, 3, 2);
    XorBit(12, 6, 4, 5);
    XorBit(24, 12, 5, 10);
    XorBit(49, 24, 6, 20);
    XorBit(98, 49, 7, 41);
    XorBit(197, 98, 8, 83);
  }

  lemma XorNone(a: nat, b: nat)
    ensures Xor(a, b, 0) == 0
  {}

  lemma HashOfOne(c: u8, x: nat)
    requires Xor(197, c, 8) == x
    ensures StrHash([c]) == (0x811C9D00 + x) * 0x01000193 % 0x1_0000_0000
  {
    hide Xor;
    var h := (0x811C9D00 + x) * 0x01000193 % 0x1_0000_0000;
    assert 0x811C9DC5 / 256 * 256 == 0x811C9D00 && 0x811C9DC5 % 256 == 197;
    assert Fnv([c], 0x811C9DC5) == Fnv([c][1..], h) && [c][1..] == [];
    assert Fnv([], h) == h;
  }

  lemma HashOfA()
    ensures StrHash([97]) == 0xE40C292C
  {
    hide Xor, StrHash;
    XorA();
    HashOfOne(97, 164);
  }

  lemma HashOfB()
    ensures StrHash([98]) == 0xE70C2DE5
  {
    hide Xor, StrHash;
    XorB();
    HashOfOne(98, 167);
  }

  /** The two keys that the test suite fixes among three shards. */
  lemma FixedShards()
    ensures ShardFor([97], 3) == 1 && ShardFor([98], 3) == 1
  {
    hide StrHash;
    HashOfA();
    HashOfB();
  }
}
