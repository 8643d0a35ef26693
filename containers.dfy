/**
 * The reusable containers of the map code: a growable array whose capacity
 * starts at 32 and doubles whenever it is full, and a priority queue kept as
 * such an array sorted by descending priority.
 */
module Containers {
  import opened Wrappers

  /** The capacity a fresh `PermanentArray` starts with. */
  const InitialCapacity: nat := 32

  /** `Math.min(Math.max(index, 0), count)`: the index an insertion actually uses. */
  function ClampIndex(index: int, count: nat): (k: nat)
    ensures k <= count
    ensures 0 <= index <= count ==> k == index
    ensures index < 0 ==> k == 0
    ensures index > count ==> k == count
  {
    if index < 0 then 0 else if index > count then count else index
  }

  /**
   * The contents after `insertAt(index, x)`: `x` at the clamped index, the
   * elements before it unchanged and the ones from it on shifted right by one.
   */
  function InsertedAt<T>(s: seq<T>, index: int, x: T): (r: seq<T>)
    ensures |r| == |s| + 1
    ensures var k := ClampIndex(index, |s|);
      r[k] == x &&
      (forall i :: 0 <= i < k ==> r[i] == s[i]) &&
      (forall i :: k < i < |r| ==> r[i] == s[i - 1])
  {
    var k := ClampIndex(index, |s|);
    s[..k] + [x] + s[k..]
  }

  /** The value `removeAt(index)` returns: nothing (`undefined`) for an index out of range. */
  function RemovedValue<T>(s: seq<T>, index: int): (r: Option<T>)
    ensures r.None? <==> !(0 <= index < |s|)
    ensures r.Some? ==> r.value == s[index]
  {
    if 0 <= index < |s| then Some(s[index]) else None
  }

  /**
   * The contents after `removeAt(index)`: unchanged for an index out of range,
   * otherwise the element at `index` is gone and the later ones shift left.
   */
  function RemovedAt<T>(s: seq<T>, index: int): (r: seq<T>)
    ensures !(0 <= index < |s|) ==> r == s
    ensures 0 <= index < |s| ==>
      |r| == |s| - 1 &&
      (forall i :: 0 <= i < index ==> r[i] == s[i]) &&
      (forall i :: index <= i < |r| ==> r[i] == s[i + 1])
  {
    if 0 <= index < |s| then s[..index] + s[index + 1..] else s
  }

  /** Removing at the index an insertion used gives back the inserted value and the old contents. */
  lemma RemoveUndoesInsert<T>(s: seq<T>, index: int, x: T)
    ensures RemovedValue(InsertedAt(s, index, x), ClampIndex(index, |s|)) == Some(x)
    ensures RemovedAt(InsertedAt(s, index, x), ClampIndex(index, |s|)) == s
  {
    var k := ClampIndex(index, |s|);
    var r := InsertedAt(s, index, x);
    assert RemovedAt(r, k) == r[..k] + r[k + 1..];
    assert r[..k] == s[..k];
    assert r[k + 1..] == s[k..];
    assert s[..k] + s[k..] == s;
  }

  /** `push` then `pop`: the pushed object comes back and the contents are restored. */
  lemma PopUndoesPush<T>(s: seq<T>, x: T)
    ensures RemovedValue(InsertedAt(s, |s|, x), |s|) == Some(x)
    ensures RemovedAt(InsertedAt(s, |s|, x), |s|) == s
  {
    RemoveUndoesInsert(s, |s|, x);
  }

  /** The shifting loop of `insertAt`: slots `k .. n - 1` move up by one, slot `k` keeps its value. */
  method ShiftRight<T>(a: array<T>, k: nat, n: nat)
    requires k <= n < a.Length
    modifies a
    ensures forall j :: 0 <= j <= k ==> a[j] == old(a[j])
    ensures forall j :: k < j <= n ==> a[j] == old(a[j - 1])
    ensures forall j :: n < j < a.Length ==> a[j] == old(a[j])
  {
    var i := n;
    while i > k
      invariant k <= i <= n
      invariant forall j :: 0 <= j <= i ==> a[j] == old(a[j])
      invariant forall j :: i < j <= n ==> a[j] == old(a[j - 1])
      invariant forall j :: n < j < a.Length ==> a[j] == old(a[j])
      decreases i
    {
      a[i] := a[i - 1];
      i := i - 1;
    }
  }

  /**
   * `PermanentArray`: a growable array. Slots hold `None` for the source's
   * `undefined`; the first `count` slots hold the contents.
   */
  class PermanentArray<T> {
    var slots: array<Option<T>>
    var count: nat
    ghost var Contents: seq<T>
    ghost var Repr: set<object>

    ghost predicate Valid()
      reads this, Repr
    {
      Repr == {this, slots} &&
      InitialCapacity <= slots.Length &&
      count <= slots.Length &&
      |Contents| == count &&
      (forall i :: 0 <= i < count ==> slots[i] == Some(Contents[i])) &&
      (forall i :: count <= i < slots.Length ==> slots[i] == None)
    }

    /** The number of slots; doubled when an insertion finds the array full. */
    ghost function Capacity(): nat
      reads this
    {
      slots.Length
    }

    constructor ()
      ensures Valid() && fresh(Repr)
      ensures Contents == [] && Capacity() == InitialCapacity
    {
      slots := new Option<T>[InitialCapacity](_ => None);
      count := 0;
      Contents := [];
      Repr := {this, slots};
    }

    /** Doubling the capacity (`array.length *= 2`): the new slots are `undefined`. */
    method Grow()
      requires Valid()
      modifies this
      ensures Valid() && fresh(Repr - old(Repr))
      ensures Contents == old(Contents) && count == old(count)
      ensures Capacity() == 2 * old(Capacity())
    {
      var bigger := new Option<T>[2 * slots.Length](_ => None);
      forall i | 0 <= i < slots.Length {
        bigger[i] := slots[i];
      }
      slots := bigger;
      Repr := {this, slots};
    }

    /** `insertAt`: clamp the index, grow when full, shift the tail right, store `obj`. */
    method InsertAt(index: int, obj: T)
      requires Valid()
      modifies Repr
      ensures Valid() && fresh(Repr - old(Repr))
      ensures Contents == InsertedAt(old(Contents), index, obj)
      ensures Capacity() == if old(count) == old(Capacity()) then 2 * old(Capacity()) else old(Capacity())
    {
      var k := ClampIndex(index, count);
      if slots.Length == count {
        Grow();
      }
      InsertWithRoom(k, obj);
    }

    /** The shifting part of `insertAt`, once there is a free slot: the tail moves right by one. */
    method InsertWithRoom(k: nat, obj: T)
      requires Valid() && k <= count < slots.Length
      modifies slots, this
      ensures Valid() && Repr == old(Repr) && slots == old(slots)
      ensures Contents == InsertedAt(old(Contents), k, obj)
    {
      ShiftRight(slots, k, count);
      slots[k] := Some(obj);
      Contents := InsertedAt(Contents, k, obj);
      count := count + 1;
    }

    /** `removeAt`: out of range gives `None` and no change; otherwise shift the tail left. */
    method RemoveAt(index: int) returns (r: Option<T>)
      requires Valid()
      modifies Repr
      ensures Valid() && Repr == old(Repr) && Capacity() == old(Capacity())
      ensures r == RemovedValue(old(Contents), index)
      ensures Contents == RemovedAt(old(Contents), index)
    {
      if index < 0 || index >= count {
        return None;
      }
      r := slots[index];
      var i := index;
      while i < count - 1
        invariant Repr == old(Repr) && slots == old(slots) && |Contents| == count <= slots.Length && Contents == old(Contents)
        invariant index <= i <= count - 1
        invariant forall j :: 0 <= j < index ==> slots[j] == Some(Contents[j])
        invariant forall j :: index <= j < i ==> slots[j] == Some(Contents[j + 1])
        invariant forall j :: i < j < count ==> slots[j] == Some(Contents[j])
        invariant forall j :: count <= j < slots.Length ==> slots[j] == None
      {
        slots[i] := slots[i + 1];
        i := i + 1;
      }
      slots[count - 1] := None;
      count := count - 1;
      Contents := Contents[..index] + Contents[index + 1..];
    }

    /** `push`: insert at the end. */
    method Push(obj: T)
      requires Valid()
      modifies Repr
      ensures Valid() && fresh(Repr - old(Repr))
      ensures Contents == old(Contents) + [obj]
      ensures Capacity() >= old(Capacity())
    {
      InsertAt(count, obj);
      assert Contents == old(Contents)[..|old(Contents)|] + [obj] + old(Contents)[|old(Contents)|..];
    }

    /** `pop`: remove the last element; `None` when empty. */
    method Pop() returns (r: Option<T>)
      requires Valid()
      modifies Repr
      ensures Valid() && Repr == old(Repr) && Capacity() == old(Capacity())
      ensures old(Contents) == [] ==> r == None && Contents == []
      ensures old(Contents) != [] ==>
        r == Some(old(Contents)[|old(Contents)| - 1]) && Contents == old(Contents)[..|old(Contents)| - 1]
    {
      r := RemoveAt(count - 1);
    }

    /** `clear`: forget every element (the slots go back to `undefined`). */
    method Clear()
      requires Valid()
      modifies Repr
      ensures Valid() && Repr == old(Repr) && Capacity() == old(Capacity())
      ensures Contents == []
    {
      var i := 0;
      while i < count
        invariant Repr == old(Repr) && slots == old(slots) && |Contents| == count <= slots.Length && Contents == old(Contents)
        invariant 0 <= i <= count
        invariant forall j :: 0 <= j < i ==> slots[j] == None
        invariant forall j :: i <= j < count ==> slots[j] == Some(Contents[j])
        invariant forall j :: count <= j < slots.Length ==> slots[j] == None
      {
        slots[i] := None;
        i := i + 1;
      }
      count := 0;
      Contents := [];
    }
  }

  /** The queue invariant: keys never increase from the front to the back. */
  ghost predicate SortedByKey(s: seq<nat>, keys: seq<real>)
  {
    (forall i :: 0 <= i < |s| ==> s[i] < |keys|) &&
    (forall i, j :: 0 <= i < j < |s| ==> keys[s[i]] >= keys[s[j]])
  }

  /**
   * The slot the binary search settles on: the key before it is at least
   * `p` and the key at it is below `p`.
   */
  ghost predicate SearchBoundary(s: seq<nat>, keys: seq<real>, k: nat, p: real)
    requires k <= |s| && forall i :: 0 <= i < |s| ==> s[i] < |keys|
  {
    (k == 0 || keys[s[k - 1]] >= p) && (k == |s| || keys[s[k]] < p)
  }

  /**
   * On a sorted queue the boundary splits it exactly: every entry before
   * the new one has a key at least `p` (so a newcomer goes behind its equals
   * and is popped before them) and every entry after it a smaller key.
   */
  lemma BoundaryPartitions(s: seq<nat>, keys: seq<real>, k: nat, p: real)
    requires k <= |s| && SortedByKey(s, keys) && SearchBoundary(s, keys, k, p)
    ensures forall i :: 0 <= i < k ==> keys[s[i]] >= p
    ensures forall i :: k <= i < |s| ==> keys[s[i]] < p
  {
    forall i | 0 <= i < k
      ensures keys[s[i]] >= p
    {
      if i < k - 1 {
        assert keys[s[i]] >= keys[s[k - 1]];
      }
    }
    forall i | k <= i < |s|
      ensures keys[s[i]] < p
    {
      if k < i {
        assert keys[s[k]] >= keys[s[i]];
      }
    }
  }

  /** Inserting at the search boundary keeps a sorted queue sorted. */
  lemma InsertKeepsSorted(s: seq<nat>, keys: seq<real>, k: nat, x: nat)
    requires k <= |s| && x < |keys| && SortedByKey(s, keys) && SearchBoundary(s, keys, k, keys[x])
    ensures SortedByKey(s[..k] + [x] + s[k..], keys)
  {
    BoundaryPartitions(s, keys, k, keys[x]);
    var r := s[..k] + [x] + s[k..];
    forall i, j | 0 <= i < j < |r|
      ensures keys[r[i]] >= keys[r[j]]
    {
      if j < k {
        assert r[i] == s[i] && r[j] == s[j];
      } else if j == k {
        assert r[i] == s[i];
      } else if i == k {
        assert r[j] == s[j - 1];
      } else if i < k {
        assert r[i] == s[i] && r[j] == s[j - 1];
      } else {
        assert r[i] == s[i - 1] && r[j] == s[j - 1];
      }
    }
  }

  /** Rewriting the key of a node that is not queued leaves the queue's order intact. */
  lemma RekeyKeepsSorted(s: seq<nat>, keys: seq<real>, node: nat, p: real)
    requires SortedByKey(s, keys) && node < |keys| && node !in s
    ensures SortedByKey(s, keys[node := p])
  {
    forall i | 0 <= i < |s|
      ensures keys[node := p][s[i]] == keys[s[i]]
    {
      assert s[i] in s;
    }
  }

  /**
   * The whole of `push` on the ghost level: rewrite the node's key, then
   * insert it at the search boundary. A sorted queue that did not hold the
   * node stays sorted.
   */
  lemma PushKeepsSorted(s: seq<nat>, keys: seq<real>, k: nat, node: nat, p: real)
    requires node < |keys| && k <= |s| && (forall i :: 0 <= i < |s| ==> s[i] < |keys|)
    requires SearchBoundary(s, keys[node := p], k, p)
    ensures SortedByKey(s, keys) && node !in s ==> SortedByKey(s[..k] + [node] + s[k..], keys[node := p])
  {
    if SortedByKey(s, keys) && node !in s {
      RekeyKeepsSorted(s, keys, node, p);
      InsertKeepsSorted(s, keys[node := p], k, node);
    }
  }

  /** The back of a sorted queue holds a minimum key: `pop` returns a minimum-priority node. */
  lemma SortedBackIsMinimum(s: seq<nat>, keys: seq<real>)
    requires s != [] && SortedByKey(s, keys)
    ensures forall x :: x in s ==> keys[x] >= keys[s[|s| - 1]]
  {
    forall x | x in s
      ensures keys[x] >= keys[s[|s| - 1]]
    {
      var i :| 0 <= i < |s| && s[i] == x;
      if i < |s| - 1 {
        assert keys[s[i]] >= keys[s[|s| - 1]];
      }
    }
  }

  /**
   * `PermanentPriorityQueue` over the nodes of an arena. The source writes
   * the key onto the node itself (`node.priority_in_queue`); here the nodes
   * are indices and `keys` is that per-node column, shared with the arena.
   */
  class PermanentPriorityQueue {
    const queue: PermanentArray<nat>
    const keys: array<real>
    ghost var Repr: set<object>

    ghost predicate Valid()
      reads this, Repr
    {
      this in Repr && keys in Repr && queue in Repr &&
      queue.Repr <= Repr && this !in queue.Repr && keys !in queue.Repr &&
      Repr == {this, keys} + queue.Repr &&
      queue.Valid() &&
      forall i :: 0 <= i < |queue.Contents| ==> queue.Contents[i] < keys.Length
    }

    /** The queued nodes, front to back. */
    ghost function Contents(): seq<nat>
      reads this, queue
    {
      queue.Contents
    }

    /** The queue is sorted by the keys the nodes currently carry. */
    ghost predicate Sorted()
      reads this, queue, keys
    {
      SortedByKey(queue.Contents, keys[..])
    }

    constructor (keys: array<real>)
      ensures Valid() && fresh(Repr - {keys})
      ensures this.keys == keys && Contents() == []
    {
      this.keys := keys;
      queue := new PermanentArray<nat>();
      new;
      Repr := {this, keys} + queue.Repr;
    }

    /**
     * The binary search of `push`: the slot where a node of priority `p`
     * goes, behind every entry whose key is at least `p`.
     */
    method FindSlot(p: real) returns (k: nat)
      requires Valid()
      ensures k <= |Contents()|
      ensures SearchBoundary(Contents(), keys[..], k, p)
    {
      var start := 0;
      var end := queue.count;
      while start < end
        invariant 0 <= start <= end <= queue.count
        invariant start == 0 || keys[queue.Contents[start - 1]] >= p
        invariant end == queue.count || keys[queue.Contents[end]] < p
      {
        var i := (start + end) / 2;
        assert queue.slots[i] == Some(queue.Contents[i]);
        if p > keys[queue.slots[i].value] {
          end := i;
        } else {
          start := i + 1;
        }
      }
      k := end;
    }

    /**
     * `push`: write the key onto the node, binary-search the slot and insert.
     * `pos` (ghost) is the slot the search found. The queue stays sorted when
     * it was sorted and `node` was not queued already: a queued node whose key
     * is rewritten can break the order of its earlier entry.
     */
    method Push(node: nat, priority: real) returns (ghost pos: nat)
      requires Valid() && node < keys.Length
      modifies Repr
      ensures Valid() && fresh(Repr - old(Repr))
      ensures keys[..] == old(keys[..])[node := priority]
      ensures pos <= |old(Contents())|
      ensures Contents() == old(Contents())[..pos] + [node] + old(Contents())[pos..]
      ensures SearchBoundary(old(Contents()), keys[..], pos, priority)
      ensures old(Sorted()) && node !in old(Contents()) ==> Sorted()
    {
      ghost var oldKeys := keys[..];
      keys[node] := priority;
      ghost var s := queue.Contents;
      ghost var ks := keys[..];
      assert ks == oldKeys[node := priority];
      var end := FindSlot(keys[node]);
      pos := end;
      PushKeepsSorted(s, oldKeys, pos, node, priority);
      queue.InsertAt(end, node);
      Repr := {this, keys} + queue.Repr;
    }

    /** `pop`: take the node at the back (the smallest key when sorted); `None` when empty. */
    method Pop() returns (r: Option<nat>)
      requires Valid()
      modifies Repr
      ensures Valid() && Repr == old(Repr) && keys[..] == old(keys[..])
      ensures old(Contents()) == [] ==> r == None && Contents() == []
      ensures old(Contents()) != [] ==>
        r == Some(old(Contents())[|old(Contents())| - 1]) && Contents() == old(Contents())[..|old(Contents())| - 1]
    {
      r := queue.Pop();
    }

    /** `empty`. */
    method Empty() returns (r: bool)
      requires Valid()
      ensures r <==> Contents() == []
    {
      r := queue.count == 0;
    }
  }
}
