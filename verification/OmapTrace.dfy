/** What the descriptor list means over a whole trace of opens and closes. */
module OmapTrace {
  import opened Omap

  datatype Use = Opened(key: Key, fd: int) | Closed(key: Key)

  /** The list after the events: an open appends, a close deletes the first entry for its key. */
  function ListAfter(evs: seq<Use>): seq<Entry> {
    if evs == [] then []
    else
      var es := ListAfter(evs[..|evs| - 1]);
      match evs[|evs| - 1]
      case Opened(key, fd) => es + [Entry(fd, key)]
      case Closed(key) => DeleteFirst(es, key)
  }

  /** The descriptors the list holds for a key, oldest first. */
  function ForKey(es: seq<Entry>, key: Key): seq<int> {
    if es == [] then []
    else if es[0].key == key then [es[0].fd] + ForKey(es[1..], key)
    else ForKey(es[1..], key)
  }

  /** The reference: each key has a queue of its own, which its opens join and its closes leave. */
  function QueueOf(evs: seq<Use>, key: Key): seq<int> {
    if evs == [] then []
    else
      var q := QueueOf(evs[..|evs| - 1], key);
      match evs[|evs| - 1]
      case Opened(k, fd) => if k == key then q + [fd] else q
      case Closed(k) => if k == key && q != [] then q[1..] else q
  }

  lemma {:induction false} ForKeyAppend(es: seq<Entry>, e: Entry, key: Key)
    ensures ForKey(es + [e], key) == ForKey(es, key) + (if e.key == key then [e.fd] else [])
    decreases |es|
  {
    if es == [] {
      assert (es + [e])[1..] == [];
    } else {
      assert (es + [e])[1..] == es[1..] + [e];
      ForKeyAppend(es[1..], e, key);
    }
  }

  lemma {:induction false} ForKeyDelete(es: seq<Entry>, k: Key, key: Key)
    ensures var q := ForKey(es, key);
            ForKey(DeleteFirst(es, k), key) == if k == key && q != [] then q[1..] else q
    decreases |es|
  {
    if es != [] && es[0].key != k {
      ForKeyDelete(es[1..], k, key);
      assert ([es[0]] + DeleteFirst(es[1..], k))[1..] == DeleteFirst(es[1..], k);
    }
  }

  lemma {:induction false} LookupIsHead(es: seq<Entry>, key: Key)
    ensures Lookup(es, key) == if ForKey(es, key) == [] then -1 else ForKey(es, key)[0]
    decreases |es|
  {
    if es != [] {
      LookupIsHead(es[1..], key);
    }
  }

  /** On every trace, whatever the order of its opens and closes, a lookup finds the oldest
      descriptor opened for the key and not yet closed, or -1 when there is none. */
  lemma {:induction false} ListIsQueuePerKey(evs: seq<Use>, key: Key)
    ensures ForKey(ListAfter(evs), key) == QueueOf(evs, key)
    ensures Lookup(ListAfter(evs), key) == if QueueOf(evs, key) == [] then -1 else QueueOf(evs, key)[0]
    decreases |evs|
  {
    if evs != [] {
      var init := evs[..|evs| - 1];
      ListIsQueuePerKey(init, key);
      match evs[|evs| - 1]
      case Opened(k, fd) => ForKeyAppend(ListAfter(init), Entry(fd, k), key);
      case Closed(k) => ForKeyDelete(ListAfter(init), k, key);
    }
    LookupIsHead(ListAfter(evs), key);
  }

  /** The map the list is meant to be. */
  function MapAfter(evs: seq<Use>): map<Key, int> {
    if evs == [] then map[]
    else
      var m := MapAfter(evs[..|evs| - 1]);
      match evs[|evs| - 1]
      case Opened(key, fd) => m[key := fd]
      case Closed(key) => m - {key}
  }

  function Find(m: map<Key, int>, key: Key): int {
    if key in m then m[key] else -1
  }

  /** A key is opened again only after it was closed. */
  ghost predicate ClosedBeforeReopen(evs: seq<Use>) {
    forall n :: 0 <= n < |evs| && evs[n].Opened? ==> evs[n].key !in MapAfter(evs[..n])
  }

  lemma {:induction false} QueueIsMap(evs: seq<Use>, key: Key)
    requires ClosedBeforeReopen(evs)
    ensures QueueOf(evs, key) == if key in MapAfter(evs) then [MapAfter(evs)[key]] else []
    decreases |evs|
  {
    if evs != [] {
      var n := |evs| - 1;
      assert forall i :: 0 <= i < n ==> evs[..n][..i] == evs[..i] && evs[..n][i] == evs[i];
      QueueIsMap(evs[..n], key);
    }
  }

  /** On a trace in which a key is opened again only after it was closed, the list is the map:
      at most one entry a key, and a lookup is the map's. */
  lemma ListIsMap(evs: seq<Use>, key: Key)
    requires ClosedBeforeReopen(evs)
    ensures |ForKey(ListAfter(evs), key)| <= 1
    ensures Lookup(ListAfter(evs), key) == Find(MapAfter(evs), key)
  {
    ListIsQueuePerKey(evs, key);
    QueueIsMap(evs, key);
  }

  ghost predicate Agrees(evs: seq<Use>, key: Key) {
    Lookup(ListAfter(evs), key) == Find(MapAfter(evs), key)
  }

  ghost predicate AgreesThroughout(evs: seq<Use>) {
    forall n, key :: 0 <= n <= |evs| ==> Agrees(evs[..n], key)
  }

  /** An open never gives a descriptor that is still held for its key. */
  ghost predicate FreshDescriptors(evs: seq<Use>) {
    forall n :: 0 <= n < |evs| && evs[n].Opened? ==> evs[n].fd !in QueueOf(evs[..n], evs[n].key)
  }

  lemma {:induction false} MappedIsQueued(evs: seq<Use>, key: Key)
    requires key in MapAfter(evs)
    ensures QueueOf(evs, key) != []
    decreases |evs|
  {
    var n := |evs| - 1;
    if evs[n].key != key {
      MappedIsQueued(evs[..n], key);
    }
  }

  lemma ReopenDisagrees(evs: seq<Use>, key: Key, fd: int)
    requires key in MapAfter(evs) && Agrees(evs, key) && fd !in QueueOf(evs, key)
    ensures !Agrees(evs + [Opened(key, fd)], key)
  {
    var all := evs + [Opened(key, fd)];
    assert all[..|evs|] == evs;
    MappedIsQueued(evs, key);
    ListIsQueuePerKey(evs, key);
    ListIsQueuePerKey(all, key);
  }

  /** Where the operating system hands out descriptors that are not in use, the list agrees with the
      map for every key, throughout the trace, if and only if no key is opened again before its close. */
  lemma FreshListIsMapIff(evs: seq<Use>)
    requires FreshDescriptors(evs)
    ensures AgreesThroughout(evs) <==> ClosedBeforeReopen(evs)
  {
    if ClosedBeforeReopen(evs) {
      forall n, key | 0 <= n <= |evs|
        ensures Agrees(evs[..n], key)
      {
        assert forall i :: 0 <= i < n ==> evs[..n][..i] == evs[..i] && evs[..n][i] == evs[i];
        ListIsMap(evs[..n], key);
      }
    }
    if AgreesThroughout(evs) {
      forall n | 0 <= n < |evs| && evs[n].Opened?
        ensures evs[n].key !in MapAfter(evs[..n])
      {
        var key, fd := evs[n].key, evs[n].fd;
        assert evs[..n + 1] == evs[..n] + [Opened(key, fd)];
        assert Agrees(evs[..n], key) && Agrees(evs[..n + 1], key);
        if key in MapAfter(evs[..n]) {
          ReopenDisagrees(evs[..n], key, fd);
          assert false;
        }
      }
    }
  }

  /** An event after which the list answers what the map does: an open of a key that has entries left
      got the descriptor that the list already answers with, and a close leaves no entry but one for a
      failed open, which reads like none. */
  ghost predicate KeepsAnswer(evs: seq<Use>, use: Use) {
    var q := QueueOf(evs, use.key);
    match use
    case Opened(_, fd) => q != [] ==> fd == q[0]
    case Closed(_) => |q| >= 2 ==> q[1] == -1
  }

  ghost predicate AllKeepAnswer(evs: seq<Use>) {
    forall n :: 0 <= n < |evs| ==> KeepsAnswer(evs[..n], evs[n])
  }

  /** What the map and the queue of a key have to do with each other while they agree. */
  ghost predicate InStep(evs: seq<Use>, key: Key) {
    var q, m := QueueOf(evs, key), MapAfter(evs);
    if key in m then q != [] && q[0] == m[key] else q == [] || q[0] == -1
  }

  lemma {:induction false} StaysInStep(evs: seq<Use>, key: Key)
    requires AllKeepAnswer(evs)
    ensures InStep(evs, key)
    decreases |evs|
  {
    if evs != [] {
      var n := |evs| - 1;
      assert forall i :: 0 <= i < n ==> evs[..n][..i] == evs[..i] && evs[..n][i] == evs[i];
      StaysInStep(evs[..n], key);
      assert KeepsAnswer(evs[..n], evs[n]);
    }
  }

  lemma AnswerKept(evs: seq<Use>, use: Use)
    requires Agrees(evs, use.key) && Agrees(evs + [use], use.key)
    ensures KeepsAnswer(evs, use)
  {
    var all := evs + [use];
    assert all[..|evs|] == evs;
    ListIsQueuePerKey(all, use.key);
  }

  /** On every trace, failed opens and descriptors in use included, the list agrees with the map for
      every key throughout if and only if every event keeps the answer. */
  lemma ListIsMapIff(evs: seq<Use>)
    ensures AgreesThroughout(evs) <==> AllKeepAnswer(evs)
  {
    if AllKeepAnswer(evs) {
      forall n, key | 0 <= n <= |evs|
        ensures Agrees(evs[..n], key)
      {
        assert forall i :: 0 <= i < n ==> evs[..n][..i] == evs[..i] && evs[..n][i] == evs[i];
        StaysInStep(evs[..n], key);
        ListIsQueuePerKey(evs[..n], key);
      }
    }
    if AgreesThroughout(evs) {
      forall n | 0 <= n < |evs|
        ensures KeepsAnswer(evs[..n], evs[n])
      {
        assert evs[..n + 1] == evs[..n] + [evs[n]];
        assert Agrees(evs[..n], evs[n].key) && Agrees(evs[..n + 1], evs[n].key);
        AnswerKept(evs[..n], evs[n]);
      }
    }
  }

  /** A key opened twice without a close between: the list answers with the first descriptor where
      the map has the second. */
  lemma ReopenedKeyKeepsFirst(evs: seq<Use>, key: Key, fd1: int, fd2: int)
    requires QueueOf(evs, key) == []
    ensures Lookup(ListAfter(evs + [Opened(key, fd1), Opened(key, fd2)]), key) == fd1
    ensures Find(MapAfter(evs + [Opened(key, fd1), Opened(key, fd2)]), key) == fd2
  {
    var all := evs + [Opened(key, fd1), Opened(key, fd2)];
    var n := |evs|;
    assert all[..n + 1] == evs + [Opened(key, fd1)] && all[..n + 1][..n] == evs;
    assert QueueOf(all[..n + 1], key) == [fd1];
    assert QueueOf(all, key) == [fd1, fd2];
    ListIsQueuePerKey(all, key);
  }
}
