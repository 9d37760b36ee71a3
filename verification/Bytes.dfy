/** Byte strings as the program stores, compares and hashes them. */
module Bytes {
  type u8 = x: int | 0 <= x < 0x100
  type bytes = seq<u8>

  // ---------- comparing ----------

  /** `memcmp` on the first `n` bytes. */
  function Memcmp(a: bytes, b: bytes, n: nat): int
    requires n <= |a| && n <= |b|
  {
    if n == 0 then 0 else if a[0] != b[0] then a[0] - b[0] else Memcmp(a[1..], b[1..], n - 1)
  }

  /** The name part of `zless`: the common prefix decides, then the length. */
  predicate NameLess(a: bytes, b: bytes) {
    var n := if |a| < |b| then |a| else |b|;
    var rv := Memcmp(a, b, n);
    if rv != 0 then rv < 0 else |a| < |b|
  }

  lemma NameLessStep(a: bytes, b: bytes)
    ensures a != [] && b != [] ==>
      (NameLess(a, b) <==> a[0] < b[0] || (a[0] == b[0] && NameLess(a[1..], b[1..])))
    ensures a == [] || b == [] ==> (NameLess(a, b) <==> |a| < |b|)
  {
  }

  lemma {:induction false} NameLessTransitive(a: bytes, b: bytes, c: bytes)
    requires NameLess(a, b) && NameLess(b, c)
    ensures NameLess(a, c)
  {
    NameLessStep(a, b);
    NameLessStep(b, c);
    NameLessStep(a, c);
    if a != [] && a[0] == b[0] == c[0] {
      NameLessTransitive(a[1..], b[1..], c[1..]);
    }
  }

  /** Of two names, one is less than the other, or they are equal. */
  lemma {:induction false} NameLessTotal(a: bytes, b: bytes)
    ensures a == b ==> !NameLess(a, b)
    ensures a != b ==> (NameLess(a, b) <==> !NameLess(b, a))
  {
    NameLessStep(a, b);
    NameLessStep(b, a);
    if a != [] && b != [] {
      if a[0] == b[0] {
        NameLessTotal(a[1..], b[1..]);
        assert a == [a[0]] + a[1..] && b == [b[0]] + b[1..];
      }
    }
  }

  /** The first byte where `a` and `b` differ is at `i`, and `a` has the smaller one. */
  predicate SmallerAt(a: bytes, b: bytes, i: nat) { i < |a| && i < |b| && a[i] < b[i] && a[..i] == b[..i] }

  /** `a` comes before `b` in the order of bytes: it has the smaller byte where they first differ, or it ends
      where `b` goes on. */
  ghost predicate Earlier(a: bytes, b: bytes) { a < b || exists i :: SmallerAt(a, b, i) }

  /** The comparison of `zless` is the order of bytes. */
  lemma {:induction false} NameLessIsEarlier(a: bytes, b: bytes)
    ensures NameLess(a, b) <==> Earlier(a, b)
  {
    NameLessStep(a, b);
    if a != [] && b != [] && a[0] == b[0] {
      NameLessIsEarlier(a[1..], b[1..]);
      EarlierStep(a, b);
    } else if a != [] && b != [] && a[0] < b[0] {
      assert a[..0] == b[..0] && SmallerAt(a, b, 0);
    }
  }

  lemma SmallerAtStep(c: u8, a: bytes, b: bytes, i: nat)
    ensures SmallerAt([c] + a, [c] + b, i + 1) <==> SmallerAt(a, b, i)
  {
    if i <= |a| && i <= |b| {
      assert ([c] + a)[..i + 1] == [c] + a[..i] && ([c] + b)[..i + 1] == [c] + b[..i];
      if [c] + a[..i] == [c] + b[..i] { assert a[..i] == ([c] + a[..i])[1..] && b[..i] == ([c] + b[..i])[1..]; }
    }
  }

  lemma EarlierStep(a: bytes, b: bytes)
    requires a != [] && b != [] && a[0] == b[0]
    ensures Earlier(a, b) <==> Earlier(a[1..], b[1..])
  {
    hide SmallerAt;
    var c, x, y := a[0], a[1..], b[1..];
    assert a == [c] + x && b == [c] + y;
    assert a < b <==> x < y by {
      if a < b { assert y[..|x|] == b[..|a|][1..]; }
      if x < y { assert b[..|a|] == [c] + y[..|x|]; }
    }
    assert !SmallerAt(a, b, 0) by { NotAtZero(a, b); }
    forall i: nat ensures SmallerAt(a, b, i + 1) <==> SmallerAt(x, y, i) { SmallerAtStep(c, x, y, i); }
    if i: nat :| SmallerAt(a, b, i) { assert i > 0 && SmallerAt(x, y, i - 1) <==> SmallerAt(a, b, i - 1 + 1); }
  }

  lemma NotAtZero(a: bytes, b: bytes)
    requires a != [] && b != [] && a[0] == b[0]
    ensures !SmallerAt(a, b, 0)
  {}

  // ---------- hashing ----------

  /** Exclusive or of the lowest `k` bits. */
  function Xor(a: nat, b: nat, k: nat): nat {
    if k == 0 then 0 else 2 * Xor(a / 2, b / 2, k - 1) + (if a % 2 == b % 2 then 0 else 1)
  }

  /** 32-bit FNV-1a from the state `h`. */
  function Fnv(data: bytes, h: nat): nat {
    if data == [] then h
    else Fnv(data[1..], (h / 256 * 256 + Xor(h % 256, data[0], 8)) * 0x01000193 % 0x1_0000_0000)
  }

  /** `str_hash` */
  function StrHash(data: bytes): nat { Fnv(data, 0x811C9DC5) }
}
