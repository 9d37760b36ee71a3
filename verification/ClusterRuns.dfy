/** Whole runs of the proxy with its shards, and of one store beside them. */
module ClusterRuns {
  import opened Bytes
  import opened Wire
  import opened Requests
  import opened StoreSpec
  import opened StoreRuns
  import opened KvStore
  import opened KvRuns
  import opened Proxy
  import opened Cluster

  /** Bytes one after the other. */
  function Sent(bodies: seq<bytes>): bytes {
    if bodies == [] then [] else Sent(bodies[..|bodies| - 1]) + bodies[|bodies| - 1]
  }

  /** What a client can ask, and which timers there are. */
  predicate Possible(m: Moment, n: nat) {
    match m
    case Asked(cmd, times) => |times| == n && Fits(cmd) && forall t :: t in times ==> t.now <= t.later
    case Tick(i, _) => i < n
  }

  /** `on_timer` of one shard. */
  method TickShard(shards: seq<KVStore>, id: nat, now: nat, ghost ss: seq<Store>) returns (ghost ss': seq<Store>)
    requires id < |shards| == |ss|
    requires forall i :: 0 <= i < |shards| ==> shards[i].Valid() && shards[i].store == ss[i]
    requires forall i, j :: 0 <= i < j < |shards| ==> shards[i].Repr !! shards[j].Repr
    modifies shards[id].Repr
    ensures |ss'| == |ss| && ss' == ss[id := ss'[id]] && PartReap(ss[id], ss'[id], now)
    ensures forall i :: 0 <= i < |shards| ==>
      shards[i].Valid() && shards[i].store == ss'[i] && shards[i].Repr == old(shards[i].Repr)
  {
    hide KVStore.Valid, PartReap;
    forall i | 0 <= i < |shards| ensures Contained(shards[i]) { shards[i].Inside(); }
    ghost var removed := shards[id].ProcessTimers(now);
    ss' := ss[id := shards[id].store];
  }

  /** One command or one timer. */
  method RunMoment(shards: seq<KVStore>, m: Moment, out: Buffer, ghost strtod: bytes -> Strtod, ghost ss: seq<Store>)
    returns (ghost ss': seq<Store>, ghost replies: seq<Value>, ghost body: bytes)
    requires |shards| == |ss| > 0 && Possible(m, |shards|)
    requires forall i :: 0 <= i < |shards| ==>
      shards[i].Valid() && shards[i].store == ss[i] && shards[i].strtod == strtod && out !in shards[i].Repr
    requires forall i, j :: 0 <= i < j < |shards| ==> shards[i].Repr !! shards[j].Repr
    modifies set i, o | 0 <= i < |shards| && o in shards[i].Repr :: o
    modifies out
    ensures |ss'| == |ss| && Occurs(ss, m, strtod, ss', replies, body) && out.data == old(out.data) + body
    ensures forall i :: 0 <= i < |shards| ==> shards[i].Valid() && shards[i].store == ss'[i] && out !in shards[i].Repr
    ensures forall i, j :: 0 <= i < j < |shards| ==> shards[i].Repr !! shards[j].Repr
    ensures forall i :: 0 <= i < |shards| ==>
      shards[i].Repr >= old(shards[i].Repr) && fresh(shards[i].Repr - old(shards[i].Repr))
  {
    hide KVStore.Valid, ClusterExecutes, PartReap, Fits;
    match m {
      case Asked(cmd, times) =>
        ss', replies, body := OnRequest(shards, cmd, times, out, strtod, ss);
      case Tick(id, now) =>
        ss' := TickShard(shards, id, now, ss);
        replies, body := [], [];
    }
  }

  /** Any commands and timers in a row make a run of the cluster, and the bytes appended are its answers. */
  method RunCluster(shards: seq<KVStore>, moments: seq<Moment>, out: Buffer, ghost strtod: bytes -> Strtod,
      ghost ss: seq<Store>)
    returns (ghost clusters: seq<seq<Store>>, ghost replies: seq<seq<Value>>, ghost bodies: seq<bytes>)
    requires |shards| == |ss| > 0 && forall m :: m in moments ==> Possible(m, |shards|)
    requires forall i :: 0 <= i < |shards| ==>
      shards[i].Valid() && shards[i].store == ss[i] && shards[i].strtod == strtod && out !in shards[i].Repr
    requires forall i, j :: 0 <= i < j < |shards| ==> shards[i].Repr !! shards[j].Repr
    modifies set i, o | 0 <= i < |shards| && o in shards[i].Repr :: o
    modifies out
    ensures |clusters| == |moments| + 1 && |replies| == |bodies| == |moments| && clusters[0] == ss
    ensures forall j :: 0 <= j < |moments| ==>
      Occurs(clusters[j], moments[j], strtod, clusters[j + 1], replies[j], bodies[j])
    ensures out.data == old(out.data) + Sent(bodies)
    ensures |clusters[|moments|]| == |shards|
    ensures forall i :: 0 <= i < |shards| ==> shards[i].Valid() && shards[i].store == clusters[|moments|][i]
  {
    hide KVStore.Valid, Occurs, Possible;
    clusters, replies, bodies := [ss], [], [];
    var k := 0;
    while k < |moments|
      invariant k <= |moments| && |clusters| == k + 1 && |replies| == |bodies| == k && clusters[0] == ss
      invariant |clusters[k]| == |shards|
      invariant forall j :: 0 <= j < k ==>
        Occurs(clusters[j], moments[j], strtod, clusters[j + 1], replies[j], bodies[j])
      invariant out.data == old(out.data) + Sent(bodies)
      invariant forall i :: 0 <= i < |shards| ==>
        shards[i].Valid() && shards[i].store == clusters[k][i] && out !in shards[i].Repr
      invariant forall i, j :: 0 <= i < j < |shards| ==> shards[i].Repr !! shards[j].Repr
      invariant forall i :: 0 <= i < |shards| ==>
        shards[i].Repr >= old(shards[i].Repr) && fresh(shards[i].Repr - old(shards[i].Repr))
    {
      ghost var ss', r, body := RunMoment(shards, moments[k], out, strtod, clusters[k]);
      assert (bodies + [body])[..k] == bodies;
      clusters, replies, bodies := clusters + [ss'], replies + [r], bodies + [body];
      k := k + 1;
    }
  }

  /** One store and a cluster with the same contents, given the same commands at the same times, whatever their
      timers do: as long as the keys of each shard fit in a response, every answer of the proxy agrees with
      that of the store. */
  method RunBoth(kv: KVStore, shards: seq<KVStore>, events: seq<Event>, moments: seq<Moment>, out: Buffer,
      proxied: Buffer, ghost ss: seq<Store>)
    returns (ghost states: seq<Store>, ghost answers: seq<Value>, ghost replies: seq<seq<Value>>,
      ghost bodies: seq<bytes>)
    requires |shards| == |ss| > 0 && |moments| == |events| && InTime(events)
    requires forall j :: 0 <= j < |events| ==> Possible(moments[j], |shards|) && Together(moments[j], events[j])
    requires kv.Valid() && out != proxied && proxied !in kv.Repr && Sim(kv.store, ss, 0)
    requires forall i :: 0 <= i < |shards| ==>
      && shards[i].Valid() && shards[i].store == ss[i] && shards[i].strtod == kv.strtod
      && proxied !in shards[i].Repr && out !in shards[i].Repr && shards[i].Repr !! kv.Repr
    requires forall i, j :: 0 <= i < j < |shards| ==> shards[i].Repr !! shards[j].Repr
    modifies set i, o | 0 <= i < |shards| && o in shards[i].Repr :: o
    modifies kv.Repr, out, proxied
    ensures IsRun(states, events, answers, kv.strtod) && states[0] == old(kv.store)
    ensures |replies| == |bodies| == |events|
    ensures out.data == old(out.data) + Said(events, answers) && proxied.data == old(proxied.data) + Sent(bodies)
    ensures (forall j :: 0 <= j < |events| ==> KeysFit(moments[j], replies[j])) ==>
      forall j :: 0 <= j < |events| ==> Agrees(states[j], moments[j], events[j], answers[j], bodies[j])
  {
    hide KVStore.Valid, Occurs, Possible, Together, KeysFit, Agrees, Sim, InTime, Happens;
    kv.Inside();
    forall i | 0 <= i < |shards| ensures Contained(shards[i]) { shards[i].Inside(); }
    states, answers := RunAll(kv, events, out);
    ghost var clusters;
    clusters, replies, bodies := RunCluster(shards, moments, proxied, kv.strtod, ss);
    if forall j :: 0 <= j < |events| ==> KeysFit(moments[j], replies[j]) {
      RunsAgree(states, events, answers, clusters, moments, replies, bodies, kv.strtod, |events|);
    }
  }
}
