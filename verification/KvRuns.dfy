/** Whole runs of the store of `src/kv_store.cpp`. */
module KvRuns {
  import opened Bytes
  import opened HashMap
  import opened Wire
  import opened Entries
  import opened StoreSpec
  import opened StoreRuns
  import opened KvStore
  import ThreadPool

  /** The bytes of the answers to the requests among `events`. */
  function Said(events: seq<Event>, replies: seq<Value>): bytes
    requires |replies| == |events|
  {
    if events == [] then []
    else
      var n := |events| - 1;
      Said(events[..n], replies[..n]) + if events[n].Request? then Encode(replies[n]) else []
  }

  lemma SaidMore(events: seq<Event>, replies: seq<Value>, i: nat, reply: Value)
    requires |replies| == i < |events|
    ensures Said(events[..i + 1], replies + [reply]) ==
            Said(events[..i], replies) + if events[i].Request? then Encode(reply) else []
  {
    assert events[..i + 1][..i] == events[..i] && (replies + [reply])[..i] == replies;
  }

  /** One command or one timer call. */
  method RunOne(kv: KVStore, e: Event, out: Buffer) returns (ghost reply: Value)
    requires kv.Valid() && e.now <= End(e)
    modifies kv.Repr, out
    ensures kv.Valid() && kv.Repr >= old(kv.Repr) && fresh(kv.Repr - old(kv.Repr)) && kv.everIn >= old(kv.everIn)
    ensures Happens(old(kv.store), e, kv.strtod, kv.store, reply)
    ensures out.data == old(out.data) + if e.Request? then Encode(reply) else []
  {
    hide KVStore.Valid, Executes, Encode, PartReap;
    reply := Nil;
    kv.Inside();
    match e {
      case Request(cmd, now, later) => reply := kv.Execute(cmd, now, later, out);
      case Timer(now) => ghost var removed := kv.ProcessTimers(now);
    }
  }

  /** From any state of the structures, any commands and timer calls in the order of the clock make a run
      of the one map they stand for, and the bytes appended are the answers that run dictates. */
  method RunAll(kv: KVStore, events: seq<Event>, out: Buffer)
    returns (ghost states: seq<Store>, ghost replies: seq<Value>)
    requires kv.Valid() && InTime(events)
    modifies kv.Repr, out
    ensures kv.Valid() && kv.everIn >= old(kv.everIn)
    ensures IsRun(states, events, replies, kv.strtod) && states[0] == old(kv.store) && states[|events|] == kv.store
    ensures out.data == old(out.data) + Said(events, replies)
  {
    hide KVStore.Valid, Happens, Encode;
    states, replies := [kv.store], [];
    var i := 0;
    assert events[..0] == [];
    while i < |events|
      invariant i <= |events| && |states| == i + 1 && |replies| == i
      invariant kv.Valid() && kv.Repr >= old(kv.Repr) && fresh(kv.Repr - old(kv.Repr)) && kv.everIn >= old(kv.everIn)
      invariant states[0] == old(kv.store) && states[i] == kv.store
      invariant forall l :: 0 <= l < i ==> Happens(states[l], events[l], kv.strtod, states[l + 1], replies[l])
      invariant out.data == old(out.data) + Said(events[..i], replies)
    {
      ghost var reply := RunOne(kv, events[i], out);
      SaidMore(events, replies, i, reply);
      states, replies := states + [kv.store], replies + [reply];
      i := i + 1;
    }
    assert events[..|events|] == events;
  }

  /** Entries that left the map are freed at once or by the pool. If the pool was given the queued ones and
      has been destroyed, then, however the threads ran, what has been freed is exactly the entries that
      were ever in the map and are not any more, each of them once. */
  lemma DisposedOnce(kv: KVStore, states: seq<ThreadPool.Pool<Entry>>, labels: seq<ThreadPool.Label<Entry>>)
    requires kv.Valid() && ThreadPool.IsRun(states, labels) && ThreadPool.Initial(states[0])
    requires states[|labels|].main.Returned? && ThreadPool.Calls(states, labels) == kv.queued
    ensures var done := kv.freed + states[|labels|].finished;
            && (set e | e in done) == kv.everIn - kv.entries
            && forall e :: e in done ==> multiset(done)[e] == 1
  {
    hide ThreadPool.Step, ThreadPool.Initial;
    ThreadPool.DrainedOnReturn(states, labels, |labels|);
    assert labels[..|labels|] == labels;
    var all, done := kv.freed + kv.queued, kv.freed + states[|labels|].finished;
    assert multiset(done) == multiset(kv.freed) + multiset(states[|labels|].finished);
    forall e ensures e in done <==> e in all { assert e in multiset(done) <==> e in multiset(all); }
    forall e | e in done ensures multiset(done)[e] == 1 { NoDupOnce(all, e); }
  }

  lemma {:induction false} NoDupOnce<T>(s: seq<T>, x: T)
    requires NoDup(s) && x in s
    ensures multiset(s)[x] == 1
  {
    var n := |s| - 1;
    assert s == s[..n] + [s[n]];
    if x != s[n] {
      NoDupOnce(s[..n], x);
    } else {
      assert x !in s[..n];
    }
  }
}
