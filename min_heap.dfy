/** The array-backed binary min-heap of the routing component, with a
    position index `pos` from vertex to heap slot so that a vertex's key can
    be decreased in place. A vertex is in the heap when its position is below
    `size`; extracted vertices keep a position at or beyond `size`. */
module Heap {

  datatype HeapNode = HeapNode(v: int, dist: int)

  function Parent(i: int): int { (i - 1) / 2 }

  /** Heap order on the first `n` slots of `a`, except on edges from parent `k`. */
  ghost predicate BelowExcept(a: seq<HeapNode>, n: int, k: int) {
    forall j :: 0 < j < n && j < |a| && Parent(j) != k ==> a[Parent(j)].dist <= a[j].dist
  }

  /** Heap order on the first `n` slots of `a`, except on the edge into child `k`. */
  ghost predicate AboveExcept(a: seq<HeapNode>, n: int, k: int) {
    forall j :: 0 < j < n && j < |a| && j != k ==> a[Parent(j)].dist <= a[j].dist
  }

  /** The parent of `k` is no larger than the children of `k`. */
  ghost predicate GrandparentBound(a: seq<HeapNode>, n: int, k: int)
    requires 0 <= k < |a|
  {
    k > 0 ==> forall c :: 0 <= c < n && c < |a| && Parent(c) == k ==> a[Parent(k)].dist <= a[c].dist
  }

  /** One sift-up swap moves the only possible violation one level up. */
  lemma SiftUpStep(a: seq<HeapNode>, n: int, i: int)
    requires 0 < i < n <= |a|
    requires a[Parent(i)].dist > a[i].dist
    requires AboveExcept(a, n, i) && GrandparentBound(a, n, i)
    ensures AboveExcept(a[i := a[Parent(i)]][Parent(i) := a[i]], n, Parent(i))
    ensures GrandparentBound(a[i := a[Parent(i)]][Parent(i) := a[i]], n, Parent(i))
  {
    var p := Parent(i);
    var b := a[i := a[p]][p := a[i]];
    forall j | 0 < j < n && j != p
      ensures b[Parent(j)].dist <= b[j].dist
    {
      if j == i {
      } else if Parent(j) == i {
        assert b[Parent(j)] == a[p];
      } else if Parent(j) == p {
        assert b[Parent(j)] == a[i];
      }
    }
  }

  /** Once the violating child is no smaller than its parent, the order is whole. */
  lemma SiftUpDone(a: seq<HeapNode>, n: int, i: int)
    requires 0 <= i < n <= |a|
    requires AboveExcept(a, n, i) && (i > 0 ==> a[Parent(i)].dist <= a[i].dist)
    ensures BelowExcept(a, n, -1)
  {
  }

  /** One sift-down swap moves the only possible violation one level down. */
  lemma SiftDownStep(a: seq<HeapNode>, n: int, idx: int, s: int)
    requires 0 <= idx < s < n <= |a| && Parent(s) == idx
    requires forall c :: 0 <= c < n && Parent(c) == idx ==> a[s].dist <= a[c].dist
    requires a[s].dist < a[idx].dist
    requires BelowExcept(a, n, idx) && GrandparentBound(a, n, idx)
    ensures BelowExcept(a[idx := a[s]][s := a[idx]], n, s)
    ensures GrandparentBound(a[idx := a[s]][s := a[idx]], n, s)
  {
    var b := a[idx := a[s]][s := a[idx]];
    forall j | 0 < j < n && Parent(j) != s
      ensures b[Parent(j)].dist <= b[j].dist
    {
      if j == s {
      } else if Parent(j) == idx {
      } else if j == idx {
        assert b[Parent(j)] == a[Parent(idx)];
      }
    }
  }

  class MinHeap {
    const nodes: array<HeapNode>
    const pos: array<int>
    const capacity: int
    var size: int

    ghost predicate Structured()
      reads this, nodes, pos
    {
      && nodes.Length == capacity && pos.Length == capacity
      && 0 <= size <= capacity
      && (forall i :: 0 <= i < size ==> 0 <= nodes[i].v < capacity && pos[nodes[i].v] == i)
      && (forall v :: 0 <= v < capacity ==> 0 <= pos[v] && (pos[v] < size ==> nodes[pos[v]].v == v))
    }

    /** Heap order on every parent/child edge whose parent is not `k`. */
    ghost predicate OrderedBelowExcept(k: int)
      reads this, nodes
    {
      BelowExcept(nodes[..], size, k)
    }

    /** Heap order on every parent/child edge whose child is not `k`. */
    ghost predicate OrderedAboveExcept(k: int)
      reads this, nodes
    {
      AboveExcept(nodes[..], size, k)
    }

    ghost predicate Valid()
      reads this, nodes, pos
    {
      Structured() && OrderedBelowExcept(-1)
    }

    ghost predicate InHeap(v: int)
      reads this, pos
    {
      0 <= v < pos.Length && pos[v] < size
    }

    ghost function Key(v: int): int
      reads this, nodes, pos
      requires InHeap(v) && 0 <= pos[v] < nodes.Length
    {
      nodes[pos[v]].dist
    }

    constructor (cap: nat)
      ensures Valid() && capacity == cap && size == 0
      ensures fresh(nodes) && fresh(pos)
      ensures forall v :: !InHeap(v)
      ensures forall v :: 0 <= v < cap ==> pos[v] == cap
    {
      nodes := new HeapNode[cap](_ => HeapNode(0, 0));
      pos := new int[cap](_ => cap);
      capacity := cap;
      size := 0;
    }

    /** The root is no larger than any node of an ordered heap. */
    lemma {:induction false} RootIsMin(i: int)
      requires Valid() && 0 <= i < size
      ensures nodes[0].dist <= nodes[i].dist
      decreases i
    {
      if i > 0 {
        RootIsMin(Parent(i));
      }
    }

    method SwapNodes(a: int, b: int)
      requires Structured() && 0 <= a < size && 0 <= b < size
      modifies nodes, pos
      ensures Structured()
      ensures nodes[..] == old(nodes[..])[a := old(nodes[b])][b := old(nodes[a])]
      ensures forall v :: InHeap(v) <==> old(InHeap(v))
      ensures forall v :: InHeap(v) ==> 0 <= pos[v] < size && Key(v) == old(Key(v))
    {
      var t := nodes[a];
      nodes[a] := nodes[b];
      nodes[b] := t;
      pos[nodes[a].v] := a;
      pos[nodes[b].v] := b;
    }

    /** Sifts the node at `idx` down until heap order is restored. */
    method MinHeapify(idx: int)
      requires Structured() && 0 <= idx < size
      requires OrderedBelowExcept(idx) && GrandparentBound(nodes[..], size, idx)
      modifies nodes, pos
      ensures Valid()
      ensures forall v :: InHeap(v) <==> old(InHeap(v))
      ensures forall v :: InHeap(v) ==> 0 <= pos[v] < size && Key(v) == old(Key(v))
      decreases size - idx
    {
      var smallest := idx;
      var left := 2 * idx + 1;
      var right := 2 * idx + 2;
      if left < size && nodes[left].dist < nodes[smallest].dist {
        smallest := left;
      }
      if right < size && nodes[right].dist < nodes[smallest].dist {
        smallest := right;
      }
      assert forall c :: 0 <= c < size && Parent(c) == idx ==> c == left || c == right;
      if smallest != idx {
        SiftDownStep(nodes[..], size, idx, smallest);
        SwapNodes(idx, smallest);
        MinHeapify(smallest);
      }
    }

    method IsEmpty() returns (empty: bool)
      requires Structured()
      ensures empty <==> size == 0
    {
      empty := size == 0;
    }

    /** Removes and returns the root, a node of minimal key; on an empty
        heap returns the sentinel node (-1, -1) and changes nothing. */
    method ExtractMin() returns (r: HeapNode)
      requires Valid()
      modifies this, nodes, pos
      ensures Valid()
      ensures old(size) == 0 ==> r == HeapNode(-1, -1) && size == 0
      ensures old(size) == 0 ==> forall v :: InHeap(v) == old(InHeap(v))
      ensures old(size) > 0 ==> size == old(size) - 1
      ensures old(size) > 0 ==> old(InHeap(r.v)) && !InHeap(r.v) && r.dist == old(Key(r.v))
      ensures old(size) > 0 ==> forall v :: old(InHeap(v)) ==> r.dist <= old(Key(v))
      ensures old(size) > 0 ==> forall v :: v != r.v ==> (InHeap(v) <==> old(InHeap(v)))
      ensures forall v :: InHeap(v) ==> 0 <= pos[v] < size && Key(v) == old(Key(v))
    {
      if size == 0 {
        return HeapNode(-1, -1);
      }
      forall v | InHeap(v)
        ensures nodes[0].dist <= Key(v)
      {
        RootIsMin(pos[v]);
      }
      r := DetachRoot();
      if size > 0 {
        MinHeapify(0);
      }
    }

    /** The first half of ExtractMin: moves the last node into the root slot
        and shrinks the heap, leaving heap order intact except below the root. */
    method DetachRoot() returns (root: HeapNode)
      requires Valid() && size > 0
      modifies this, nodes, pos
      ensures Structured() && OrderedBelowExcept(0) && size == old(size) - 1
      ensures root == old(nodes[0]) && old(InHeap(root.v)) && !InHeap(root.v)
      ensures root.dist == old(Key(root.v))
      ensures forall v :: v != root.v ==> (InHeap(v) <==> old(InHeap(v)))
      ensures forall v :: InHeap(v) ==> 0 <= pos[v] < size && Key(v) == old(Key(v))
    {
      root := nodes[0];
      var last := nodes[size - 1];
      nodes[0] := last;
      pos[root.v] := size - 1;
      pos[last.v] := 0;
      size := size - 1;
    }

    /** Lowers the key of `v` to `dist` and sifts it up. */
    method DecreaseKey(v: int, dist: int)
      requires Valid() && InHeap(v) && 0 <= pos[v] < size && dist <= Key(v)
      modifies nodes, pos
      ensures Valid()
      ensures forall w :: InHeap(w) <==> old(InHeap(w))
      ensures InHeap(v) && 0 <= pos[v] < size && Key(v) == dist
      ensures forall w :: InHeap(w) && w != v ==> 0 <= pos[w] < size && Key(w) == old(Key(w))
    {
      var i := pos[v];
      nodes[i] := HeapNode(v, dist);
      SiftUp(i);
    }

    /** The loop of DecreaseKey: swaps the node at `i` with its parent while
        the parent's key is larger. */
    method SiftUp(i0: int)
      requires Structured() && 0 <= i0 < size
      requires OrderedAboveExcept(i0) && GrandparentBound(nodes[..], size, i0)
      modifies nodes, pos
      ensures Valid()
      ensures forall w :: InHeap(w) <==> old(InHeap(w))
      ensures forall w :: InHeap(w) ==> 0 <= pos[w] < size && Key(w) == old(Key(w))
    {
      var i := i0;
      while i > 0 && nodes[Parent(i)].dist > nodes[i].dist
        invariant Structured()
        invariant 0 <= i < size
        invariant OrderedAboveExcept(i) && GrandparentBound(nodes[..], size, i)
        invariant forall w :: InHeap(w) <==> old(InHeap(w))
        invariant forall w :: InHeap(w) ==> 0 <= pos[w] < size && Key(w) == old(Key(w))
        decreases i
      {
        SiftUpStep(nodes[..], size, i);
        SwapNodes(i, Parent(i));
        i := Parent(i);
      }
      SiftUpDone(nodes[..], size, i);
    }

    /** Whether `v` has not been extracted yet. */
    method IsInMinHeap(v: int) returns (b: bool)
      requires Structured() && 0 <= v < capacity
      ensures b <==> InHeap(v)
    {
      b := pos[v] < size;
    }

    /** Appends `(v, dist)` in the next free slot; the source does not sift
        it up, so its callers insert keys no smaller than the new parent's. */
    method Insert(v: int, dist: int)
      requires Valid() && size < capacity && 0 <= v < capacity && !InHeap(v)
      requires forall w :: 0 <= w < capacity ==> pos[w] != size
      requires size > 0 ==> nodes[Parent(size)].dist <= dist
      modifies this, nodes, pos
      ensures Valid() && size == old(size) + 1
      ensures nodes[old(size)] == HeapNode(v, dist)
      ensures forall i :: 0 <= i < old(size) ==> nodes[i] == old(nodes[i])
      ensures pos[v] == old(size) && forall w :: 0 <= w < capacity && w != v ==> pos[w] == old(pos[w])
      ensures InHeap(v) && 0 <= pos[v] < size && Key(v) == dist
      ensures forall w :: w != v ==> (InHeap(w) <==> old(InHeap(w)))
      ensures forall w :: InHeap(w) && w != v ==> 0 <= pos[w] < size && Key(w) == old(Key(w))
    {
      nodes[size] := HeapNode(v, dist);
      pos[v] := size;
      size := size + 1;
    }
  }
}
