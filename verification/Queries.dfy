/** What a sorted set query answers, told by numbers, bytes and ranks. */
module Queries {
  import opened Bytes
  import opened Doubles
  import opened HashMap
  import opened Wire
  import opened ZSets
  import opened StoreSpec

  // ---------- the order of members ----------

  /** By score as a number, then by name as bytes. */
  ghost predicate Before(a: Member, b: Member) {
    Worth(a.score) < Worth(b.score) || (Worth(a.score) == Worth(b.score) && Earlier(a.name, b.name))
  }

  /** `zless` is that order. */
  lemma ZLessIsBefore(a: Member, b: Member)
    ensures MemberLess(a, b) <==> Before(a, b)
  {
    hide Key, Worth, NameLess, Earlier;
    KeyIsOrder(a.score, b.score);
    NameLessIsEarlier(a.name, b.name);
  }

  /** The names of the members that come before `key`. */
  ghost function Lower(scores: map<bytes, Double>, key: Member): set<bytes> {
    set n | n in scores && Before(Member(n, scores[n]), key)
  }

  // ---------- ranks ----------

  ghost function NamesOf(list: seq<Member>): set<bytes> { set i | 0 <= i < |list| :: list[i].name }

  lemma {:induction false} DistinctNames(list: seq<Member>)
    requires forall i, j :: 0 <= i < j < |list| ==> list[i].name != list[j].name
    ensures |NamesOf(list)| == |list|
  {
    if list != [] {
      var n := |list| - 1;
      DistinctNames(list[..n]);
      assert NamesOf(list) == NamesOf(list[..n]) + {list[n].name};
      assert list[n].name !in NamesOf(list[..n]);
    }
  }

  lemma ListingNames(list: seq<Member>, scores: map<bytes, Double>)
    requires IsListing(list, scores)
    ensures forall i, j :: 0 <= i < j < |list| ==> list[i].name != list[j].name
    ensures |scores| == |list|
  {
    hide ZLess;
    forall i, j | 0 <= i < j < |list| ensures list[i].name != list[j].name {
      assert list[i] in list && list[j] in list && MemberLess(list[i], list[j]);
      ZLessTotal(list[i].score, list[i].name, list[i].score, list[i].name);
    }
    DistinctNames(list);
    forall n ensures n in NamesOf(list) <==> n in scores {
      if n in scores { assert Member(n, scores[n]) in list; }
      if n in NamesOf(list) {
        var i :| 0 <= i < |list| && list[i].name == n;
        assert list[i] in list;
      }
    }
    assert NamesOf(list) == scores.Keys;
  }

  /** If exactly the first `k` members of the list are less than `key`, then `k` members come before it. */
  lemma HowManyLower(list: seq<Member>, scores: map<bytes, Double>, key: Member, k: nat)
    requires IsListing(list, scores) && k <= |list|
    requires forall i :: 0 <= i < |list| ==> (MemberLess(list[i], key) <==> i < k)
    ensures |Lower(scores, key)| == k
  {
    hide MemberLess, Before;
    ListingNames(list, scores);
    DistinctNames(list[..k]);
    forall n ensures n in Lower(scores, key) <==> n in NamesOf(list[..k]) {
      if n in scores {
        var m := Member(n, scores[n]);
        assert m in list;
        var i :| 0 <= i < |list| && list[i] == m;
        ZLessIsBefore(m, key);
        if i < k { assert list[..k][i].name == n; }
      }
      if n in NamesOf(list[..k]) {
        var i :| 0 <= i < |list[..k]| && list[..k][i].name == n;
        assert list[i] in list && list[i] == Member(n, scores[n]);
        ZLessIsBefore(list[i], key);
      }
    }
    assert Lower(scores, key) == NamesOf(list[..k]);
  }

  lemma SeekRank(list: seq<Member>, scores: map<bytes, Double>, key: Member, k: nat)
    requires IsListing(list, scores) && SeekPoint(list, key, k)
    ensures |Lower(scores, key)| == k <= |list|
  {
    hide MemberLess;
    HowManyLower(list, scores, key, k);
  }

  lemma PlaceRank(list: seq<Member>, scores: map<bytes, Double>, p: nat)
    requires IsListing(list, scores) && p < |list|
    ensures |Lower(scores, list[p])| == p
  {
    hide ZLess;
    forall i | 0 <= i < |list| ensures MemberLess(list[i], list[p]) <==> i < p {
      if i > p {
        assert MemberLess(list[p], list[i]);
        ListingNames(list, scores);
        ZLessTotal(list[p].score, list[p].name, list[i].score, list[i].name);
      } else if i == p {
        ZLessTotal(list[p].score, list[p].name, list[p].score, list[p].name);
      }
    }
    HowManyLower(list, scores, list[p], p);
  }

  // ---------- the answer ----------

  lemma {:induction false} PairsAt(s: seq<Member>, i: nat)
    requires i < |s|
    ensures |Pairs(s)| == 2 * |s| && Pairs(s)[2 * i] == Str(s[i].name) && Pairs(s)[2 * i + 1] == Dbl(s[i].score)
  {
    PairsLength(s);
    var n := |s| - 1;
    PairsLength(s[..n]);
    if i < n { PairsAt(s[..n], i); }
  }

  function Least(a: int, b: int): int { if a <= b then a else b }

  /** The pair at `2 * i` of the items is the member `m`. */
  predicate IsPair(items: seq<Value>, i: nat, m: Member) {
    2 * i + 1 < |items| && items[2 * i] == Str(m.name) && items[2 * i + 1] == Dbl(m.score)
  }

  /** The pair at `2 * i` is a member of the scores, and `start + i` members come before it. */
  ghost predicate PairOfRank(items: seq<Value>, i: nat, scores: map<bytes, Double>, start: int) {
    exists m :: IsPair(items, i, m) && m.name in scores && scores[m.name] == m.score && |Lower(scores, m)| == start + i
  }

  /** The pairs are the members of rank `start`, `start + 1` and so on. */
  ghost predicate RankedFrom(items: seq<Value>, scores: map<bytes, Double>, start: int) {
    forall i :: 0 <= i < |items| / 2 ==> PairOfRank(items, i, scores, start)
  }

  /** The items are the members of rank `start`, `start + 1` and so on, where `start` is `offset` more than the
      number of members before `key`: ceil(limit / 2) of them, or as many as there are. If no member is at or
      after `key`, or there is none of rank `start`, there are no items. */
  ghost predicate Ranked(scores: map<bytes, Double>, key: Member, offset: int, limit: int, items: seq<Value>) {
    var lower := |Lower(scores, key)|;
    var start := lower + offset;
    if lower == |scores| || start < 0 || start >= |scores| then items == []
    else |items| == 2 * Least((limit + 1) / 2, |scores| - start) && RankedFrom(items, scores, start)
  }

  /** That is what a query with a positive limit answers. */
  lemma QueryByRank(scores: map<bytes, Double>, key: Member, offset: int, limit: int, reply: Value)
    requires limit > 0 && QueryReply(scores, key, offset, limit, reply)
    ensures reply.Arr? && Ranked(scores, key, offset, limit, reply.items)
  {
    hide IsListing, SeekPoint, Lower, Pairs;
    var list, k: nat :| IsListing(list, scores) && SeekPoint(list, key, k)
      && reply == Arr(Pairs(if k == |list| then [] else Slice(list, k + offset, limit)));
    SeekRank(list, scores, key, k);
    SizeOf(list, scores);
    var part := if k == |list| then [] else Slice(list, k + offset, limit);
    PairsLength(part);
    var start := k + offset;
    if k < |list| && 0 <= start < |list| {
      forall i | 0 <= i < |reply.items| / 2 ensures PairOfRank(reply.items, i, scores, start) {
        PairRank(list, scores, part, start, i);
      }
    }
  }

  lemma PairIsMember(scores: map<bytes, Double>, key: Member, offset: int, limit: int, items: seq<Value>, i: nat,
      m: Member)
    requires Ranked(scores, key, offset, limit, items) && IsPair(items, i, m)
    ensures m.name in scores && scores[m.name] == m.score
  {
    hide Lower;
    assert i < |items| / 2;
    assert PairOfRank(items, i, scores, |Lower(scores, key)| + offset);
  }

  lemma SizeOf(list: seq<Member>, scores: map<bytes, Double>)
    requires IsListing(list, scores)
    ensures |scores| == |list|
  {
    ListingNames(list, scores);
  }

  lemma PairRank(list: seq<Member>, scores: map<bytes, Double>, part: seq<Member>, start: nat, i: nat)
    requires IsListing(list, scores) && i < |part| && start + |part| <= |list| && part == list[start..start + |part|]
    ensures PairOfRank(Pairs(part), i, scores, start)
  {
    hide Lower, Pairs;
    PairsAt(part, i);
    PlaceRank(list, scores, start + i);
    assert part[i] == list[start + i] && list[start + i] in list;
    assert IsPair(Pairs(part), i, part[i]);
  }

  // ---------- what follows ----------

  lemma LowerWithin(scores: map<bytes, Double>, x: Member, y: Member)
    requires Before(x, y) || x == y
    ensures Lower(scores, x) <= Lower(scores, y)
  {
    hide ZLess, Before;
    forall n | n in Lower(scores, x) ensures n in Lower(scores, y) {
      var m := Member(n, scores[n]);
      ZLessIsBefore(m, x);
      ZLessIsBefore(x, y);
      ZLessIsBefore(m, y);
      if x != y { ZLessTransitive(m.score, m.name, x.score, x.name, y.score, y.name); }
    }
  }

  /** A member of smaller rank comes before one of greater rank. */
  lemma RankOrder(scores: map<bytes, Double>, x: Member, y: Member)
    requires x.name in scores && scores[x.name] == x.score && y.name in scores && scores[y.name] == y.score
    requires |Lower(scores, x)| < |Lower(scores, y)|
    ensures Before(x, y)
  {
    hide ZLess, Before;
    if !Before(x, y) {
      ZLessIsBefore(x, y);
      ZLessIsBefore(y, x);
      ZLessTotal(x.score, x.name, y.score, y.name);
      LowerWithin(scores, y, x);
      Smaller(Lower(scores, y), Lower(scores, x));
    }
  }

  lemma Smaller<T>(a: set<T>, b: set<T>)
    requires a <= b
    ensures |a| <= |b|
  {
    assert b == a + (b - a);
  }

  /** A member before `key` has a smaller rank. */
  lemma RankBelow(scores: map<bytes, Double>, x: Member, key: Member)
    requires x.name in scores && scores[x.name] == x.score && |Lower(scores, x)| >= |Lower(scores, key)|
    ensures !Before(x, key)
  {
    hide ZLess, Before;
    if Before(x, key) {
      LowerWithin(scores, x, key);
      ZLessIsBefore(x, x);
      ZLessTotal(x.score, x.name, x.score, x.name);
      assert x.name in Lower(scores, key) && x.name !in Lower(scores, x);
      Smaller(Lower(scores, x) + {x.name}, Lower(scores, key));
    }
  }

  /** In the answer to a query the numbers do not decrease, and where they are equal the names increase as bytes;
      with an offset that is not negative, no member stands before the one asked for. */
  lemma QueryInOrder(scores: map<bytes, Double>, key: Member, offset: int, limit: int, reply: Value, i: nat,
      j: nat, x: Member, y: Member)
    requires limit > 0 && QueryReply(scores, key, offset, limit, reply) && reply.Arr?
    requires i < j && IsPair(reply.items, i, x) && IsPair(reply.items, j, y)
    ensures Worth(x.score) <= Worth(y.score)
    ensures Worth(x.score) == Worth(y.score) ==> Earlier(x.name, y.name)
    ensures offset >= 0 ==> Worth(x.score) >= Worth(key.score) && Worth(y.score) >= Worth(key.score)
    ensures offset >= 0 ==> !Before(x, key) && !Before(y, key)
  {
    hide Lower, QueryReply, Worth, Earlier;
    QueryByRank(scores, key, offset, limit, reply);
    var start := |Lower(scores, key)| + offset;
    assert reply.items != [] && i < j < |reply.items| / 2;
    assert RankedFrom(reply.items, scores, start);
    assert PairOfRank(reply.items, i, scores, start) && PairOfRank(reply.items, j, scores, start);
    RankOrder(scores, x, y);
    if offset >= 0 {
      RankBelow(scores, x, key);
      RankBelow(scores, y, key);
    }
  }
}
