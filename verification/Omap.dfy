/** The list that maps a traced (file address, pid) to the descriptor opened on replay. */
module Omap {

  datatype Key = Key(addr: nat, pid: int)

  datatype Entry = Entry(fd: int, key: Key)

  // ----- the list as a sequence -----

  /** The descriptor of the first entry for the key, or -1. */
  function Lookup(es: seq<Entry>, key: Key): int {
    if es == [] then -1 else if es[0].key == key then es[0].fd else Lookup(es[1..], key)
  }

  /** The list without the first entry for the key. */
  function DeleteFirst(es: seq<Entry>, key: Key): seq<Entry> {
    if es == [] then [] else if es[0].key == key then es[1..] else [es[0]] + DeleteFirst(es[1..], key)
  }

  ghost function Without<T>(xs: seq<T>, k: nat): seq<T>
    requires k < |xs|
  {
    xs[..k] + xs[k + 1..]
  }

  ghost predicate Absent(es: seq<Entry>, key: Key) {
    forall i :: 0 <= i < |es| ==> es[i].key != key
  }

  lemma {:induction false} FirstAt(es: seq<Entry>, key: Key, k: nat)
    requires k < |es| && es[k].key == key && Absent(es[..k], key)
    ensures Lookup(es, key) == es[k].fd
    ensures DeleteFirst(es, key) == Without(es, k)
    decreases k
  {
    if k > 0 {
      assert es[0].key != key by { assert es[0] == es[..k][0]; }
      assert es[1..][..k - 1] == es[..k][1..];
      FirstAt(es[1..], key, k - 1);
    }
  }

  lemma {:induction false} NoneFound(es: seq<Entry>, key: Key)
    requires Absent(es, key)
    ensures Lookup(es, key) == -1 && DeleteFirst(es, key) == es
    decreases |es|
  {
    if es != [] {
      NoneFound(es[1..], key);
    }
  }

  // ----- the list on the heap -----

  class Node {
    var fd: int
    var addr: nat
    var pid: int
    var next: Node?

    constructor (fd: int, addr: nat, pid: int)
      ensures this.fd == fd && this.addr == addr && this.pid == pid && next == null
    {
      this.fd, this.addr, this.pid, next := fd, addr, pid, null;
    }
  }

  ghost function EntryOf(n: Node): Entry
    reads n
  {
    Entry(n.fd, Key(n.addr, n.pid))
  }

  ghost predicate NoDup(ns: seq<Node>) {
    forall i, j :: 0 <= i < j < |ns| ==> ns[i] != ns[j]
  }

  lemma NoDupAppend(ns: seq<Node>, n: Node)
    requires NoDup(ns) && n !in ns
    ensures NoDup(ns + [n])
  {
  }

  lemma NoDupSuffix(freed: seq<Node>, spine: seq<Node>)
    requires NoDup(freed + spine)
    ensures NoDup(spine)
  {
    forall i, j | 0 <= i < j < |spine|
      ensures spine[i] != spine[j]
    {
      assert spine[i] == (freed + spine)[|freed| + i] && spine[j] == (freed + spine)[|freed| + j];
    }
  }

  lemma NoDupMove(freed: seq<Node>, spine: seq<Node>, k: nat)
    requires k < |spine| && NoDup(freed + spine)
    ensures NoDup((freed + [spine[k]]) + Without(spine, k))
  {
    var ns := freed + spine;
    var ms := (freed + [spine[k]]) + Without(spine, k);
    var f := |freed|;
    forall i, j | 0 <= i < j < |ms|
      ensures ms[i] != ms[j]
    {
      var i' := if i < f then i else if i == f then f + k else if i <= f + k then i - 1 else i;
      var j' := if j < f then j else if j == f then f + k else if j <= f + k then j - 1 else j;
      assert ms[i] == ns[i'] && ms[j] == ns[j'];
    }
  }

  ghost function At(ns: seq<Node>, i: nat): Node? {
    if i < |ns| then ns[i] else null
  }

  lemma AtWithout(ns: seq<Node>, k: nat)
    requires k < |ns|
    ensures forall i :: 0 <= i < |Without(ns, k)| ==> Without(ns, k)[i] == ns[if i < k then i else i + 1]
    ensures forall i :: 0 <= i < k ==> At(Without(ns, k), i) == At(ns, i)
    ensures forall i :: k <= i ==> At(Without(ns, k), i) == At(ns, i + 1)
  {
  }

  ghost function EntriesOf(ns: seq<Node>): (es: seq<Entry>)
    reads ns
    ensures |es| == |ns|
  {
    seq(|ns|, i requires 0 <= i < |ns| reads ns => EntryOf(ns[i]))
  }

  lemma EntriesWithout(ns: seq<Node>, es: seq<Entry>, k: nat)
    requires k < |ns| == |es| && forall i :: 0 <= i < |ns| ==> es[i] == EntryOf(ns[i])
    ensures EntriesOf(Without(ns, k)) == Without(es, k)
  {
  }

  class List {
    var omap: Node?
    /** The nodes reachable from `omap`, in order. */
    ghost var spine: seq<Node>
    /** The nodes freed so far, in order. */
    ghost var freed: seq<Node>
    ghost var mallocs: nat

    ghost predicate Linked()
      reads this, spine
    {
      && omap == At(spine, 0)
      && (forall i {:trigger spine[i]} :: 0 <= i < |spine| ==> spine[i].next == At(spine, i + 1))
    }

    ghost predicate Valid()
      reads this, spine
    {
      && Linked()
      && NoDup(freed + spine)
      && mallocs == |freed| + |spine|
    }

    ghost function Entries(): (es: seq<Entry>)
      reads this, spine
      ensures |es| == |spine|
    {
      EntriesOf(spine)
    }

    constructor ()
      ensures Valid() && Entries() == [] && spine == [] && freed == []
    {
      omap, spine, freed, mallocs := null, [], [], 0;
    }

    /** `OMAP_OP`: a new node at the end of the list. */
    method Add(fd: int, addr: nat, pid: int)
      requires Valid()
      modifies this, spine
      ensures Valid() && Entries() == old(Entries()) + [Entry(fd, Key(addr, pid))]
      ensures |spine| == |old(spine)| + 1 && old(spine) <= spine && fresh(spine[|old(spine)|])
      ensures freed == old(freed) && mallocs == old(mallocs) + 1
    {
      var node := new Node(fd, addr, pid);
      if omap == null {
        omap := node;
      } else {
        var temp := omap;
        ghost var k := 0;
        while temp.next != null
          invariant 0 <= k < |spine| && temp == spine[k] && Valid() && Entries() == old(Entries())
          invariant spine == old(spine) && freed == old(freed) && mallocs == old(mallocs)
          invariant node.next == null && node !in spine && EntryOf(node) == Entry(fd, Key(addr, pid))
          decreases |spine| - k
        {
          temp := temp.next;
          k := k + 1;
        }
        temp.next := node;
      }
      NoDupAppend(freed + spine, node);
      assert (freed + spine) + [node] == freed + (spine + [node]);
      spine := spine + [node];
      mallocs := mallocs + 1;
    }

    /** `trfs_omap_getfd`. */
    method GetFd(addr: nat, pid: int) returns (fd: int)
      requires Valid()
      ensures fd == Lookup(Entries(), Key(addr, pid))
    {
      var temp := omap;
      ghost var k := 0;
      while temp != null
        invariant 0 <= k <= |spine| && temp == At(spine, k)
        invariant Absent(Entries()[..k], Key(addr, pid))
        decreases |spine| - k
      {
        if temp.addr == addr && temp.pid == pid {
          FirstAt(Entries(), Key(addr, pid), k);
          return temp.fd;
        }
        temp := temp.next;
        k := k + 1;
      }
      assert Entries()[..k] == Entries();
      NoneFound(Entries(), Key(addr, pid));
      return -1;
    }

    /** `trfs_omap_delete_op`: unlinks and frees at most one node. */
    method Delete(addr: nat, pid: int)
      requires Valid()
      modifies this, spine
      ensures Valid() && Entries() == DeleteFirst(old(Entries()), Key(addr, pid))
      ensures mallocs == old(mallocs)
      ensures if Absent(old(Entries()), Key(addr, pid)) then freed == old(freed) && spine == old(spine)
              else |freed| == |old(freed)| + 1 && old(freed) <= freed && freed[|old(freed)|] in old(spine)
      ensures forall n :: n in spine ==> n in old(spine)
    {
      ghost var key := Key(addr, pid);
      ghost var es := Entries();
      if omap == null {
        return;
      }
      if omap.addr == addr && omap.pid == pid {
        FirstAt(es, key, 0);
        Remove(0, null);
        return;
      }
      var prev: Node? := null;
      var temp := omap;
      ghost var k := 0;
      while temp != null
        invariant 0 <= k <= |spine| && temp == At(spine, k)
        invariant k > 0 ==> prev == spine[k - 1]
        invariant k == 0 ==> temp == omap && !(omap.addr == addr && omap.pid == pid)
        invariant Absent(es[..k], key)
        invariant Valid() && Entries() == es && spine == old(spine) && freed == old(freed) && mallocs == old(mallocs)
        decreases |spine| - k
      {
        if temp.addr == addr && temp.pid == pid {
          FirstAt(es, key, k);
          Remove(k, prev);
          return;
        }
        prev := temp;
        temp := temp.next;
        k := k + 1;
      }
      assert es[..k] == es;
      NoneFound(es, key);
    }

    method Remove(ghost k: nat, prev: Node?)
      requires Valid() && k < |spine| && prev == if k == 0 then null else spine[k - 1]
      modifies this, spine
      ensures Valid() && Entries() == Without(old(Entries()), k) && spine == Without(old(spine), k)
      ensures freed == old(freed) + [old(spine)[k]] && mallocs == old(mallocs)
    {
      ghost var es, nodes := Entries(), spine;
      assert forall i :: 0 <= i < |nodes| ==> es[i] == EntryOf(nodes[i]);
      Unlink(k, prev);
      assert forall i :: 0 <= i < |nodes| ==> es[i] == EntryOf(nodes[i]);
      EntriesWithout(nodes, es, k);
    }

    /** The node at `k` leaves the list; `prev` is the node before it, if any. */
    method Unlink(ghost k: nat, prev: Node?)
      requires Valid() && k < |spine| && prev == if k == 0 then null else spine[k - 1]
      modifies this, spine`next
      ensures Valid() && spine == Without(old(spine), k)
      ensures freed == old(freed) + [old(spine)[k]] && mallocs == old(mallocs)
    {
      ghost var nodes := spine;
      NoDupMove(freed, nodes, k);
      NoDupSuffix(freed, nodes);
      AtWithout(nodes, k);
      if prev == null {
        omap := omap.next;
      } else {
        prev.next := prev.next.next;
      }
      freed := freed + [nodes[k]];
      spine := Without(nodes, k);
      forall i | 0 <= i < |spine|
        ensures spine[i].next == At(spine, i + 1)
      {
        assert i < k - 1 ==> spine[i] == nodes[i] && nodes[i] != nodes[k - 1];
        assert i >= k ==> spine[i] == nodes[i + 1] && (k > 0 ==> nodes[i + 1] != nodes[k - 1]);
      }
    }

    /** `trfs_omap_destroy_list`: frees every node; `omap` keeps its last value. */
    method Destroy()
      requires Valid()
      modifies this`freed
      ensures freed == old(freed) + spine && NoDup(freed) && |freed| == mallocs
    {
      var temp := omap;
      ghost var k := 0;
      while temp != null
        invariant 0 <= k <= |spine| && temp == At(spine, k)
        invariant freed == old(freed) + spine[..k]
        decreases |spine| - k
      {
        var curr := temp;
        temp := temp.next;
        freed := freed + [curr];
        k := k + 1;
      }
      assert spine[..k] == spine;
    }
  }
}
