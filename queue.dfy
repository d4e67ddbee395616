/** The priority queue of Huffman tree nodes
    (compress/priority_queue/priority_queue.go) together with the binary
    min-heap operations of Go's `container/heap` that it is driven by:
    `heap.Push`, `heap.Pop`, `heap.Init` and their sift-up and sift-down
    loops. */
module Queue {
  import opened Wrappers
  import opened Text

  /** A tree node. The queue stores nodes by value; `index` is the slot the
      node occupies while it sits in the queue and -1 once it has left. */
  datatype Node = Node(ch: byte, freq: int, priority: int, index: int, left: Option<Node>, right: Option<Node>)

  /** A node as it is once taken out of the queue. */
  function Detached(x: Node): Node
  {
    x.(index := -1)
  }

  /** The nodes of a queue slice as they are apart from their slot numbers. */
  function Strip(s: seq<Node>): (r: seq<Node>)
    ensures |r| == |s| && forall k :: 0 <= k < |s| ==> r[k] == Detached(s[k])
  {
    seq(|s|, k requires 0 <= k < |s| => Detached(s[k]))
  }

  /** The leaf `NewPriorityQueue` seeds for a character, once detached. */
  function Seed(c: byte, freq: int): Node
  {
    Node(c, freq, freq, -1, None, None)
  }

  /** One seeded leaf per entry of the frequency table. */
  ghost function Seeds(m: map<byte, int>): multiset<Node>
    decreases |m|
  {
    if m == map[] then multiset{}
    else
      var k :| k in m;
      Seeds(m - {k}) + multiset{Seed(k, m[k])}
  }

  /** The bag does not depend on which entry is taken out first. */
  lemma SeedsRemove(m: map<byte, int>, k: byte)
    requires k in m
    ensures Seeds(m) == Seeds(m - {k}) + multiset{Seed(k, m[k])}
    decreases |m|, 1
  {
    var j :| j in m && Seeds(m) == Seeds(m - {j}) + multiset{Seed(j, m[j])};
    if j != k {
      SeedsRemoveEither(m, j, k);
    }
  }

  lemma SeedsRemoveEither(m: map<byte, int>, j: byte, k: byte)
    requires j in m && k in m && j != k
    ensures Seeds(m - {j}) + multiset{Seed(j, m[j])} == Seeds(m - {k}) + multiset{Seed(k, m[k])}
    decreases |m|, 0
  {
    var mj, mk := m - {j}, m - {k};
    assert Seeds(mj) == Seeds(mj - {k}) + multiset{Seed(k, m[k])} by {
      assert k in mj && mj[k] == m[k] && |mj| < |m|;
      SeedsRemove(mj, k);
    }
    assert Seeds(mk) == Seeds(mj - {k}) + multiset{Seed(j, m[j])} by {
      assert j in mk && mk[j] == m[j] && |mk| < |m|;
      SeedsRemove(mk, j);
      assert mj - {k} == mk - {j};
    }
    BagCommute(Seeds(m - {j}) + multiset{Seed(j, m[j])}, Seeds(mj), Seeds(mk), Seeds(mj - {k}), Seed(k, m[k]), Seed(j, m[j]));
  }

  lemma BagCommute(whole: multiset<Node>, a: multiset<Node>, b: multiset<Node>, c: multiset<Node>, x: Node, y: Node)
    requires whole == a + multiset{y} && a == c + multiset{x} && b == c + multiset{y}
    ensures whole == b + multiset{x}
  {
  }

  /** Adding an entry for a new character adds exactly its leaf. */
  lemma SeedsAdd(m: map<byte, int>, c: byte, v: int)
    requires c !in m
    ensures Seeds(m[c := v]) == Seeds(m) + multiset{Seed(c, v)}
  {
    SeedsRemove(m[c := v], c);
    assert m[c := v] - {c} == m;
  }

  /** The bag holds exactly the seeded leaf of each entry, once each. */
  lemma {:induction false} SeedsMembers(m: map<byte, int>)
    ensures |Seeds(m)| == |m|
    ensures forall c :: c in m ==> Seed(c, m[c]) in Seeds(m)
    ensures forall x :: x in Seeds(m) ==> x.ch in m && x == Seed(x.ch, m[x.ch])
    decreases |m|
  {
    if m != map[] {
      var k :| k in m;
      var rest := m - {k};
      SeedsRemove(m, k);
      SeedsMembers(rest);
      forall c | c in m
        ensures Seed(c, m[c]) in Seeds(m)
      {
        if c != k {
          assert c in rest && rest[c] == m[c];
        }
      }
    }
  }

  // ---------------------------------------------------------------------
  // Heap shape: slot k > 0 has its parent at (k - 1) / 2.
  // ---------------------------------------------------------------------

  function Parent(k: nat): nat
    requires k > 0
  {
    (k - 1) / 2
  }

  /** Every parent/child pair inside the first `n` slots whose parent is at
      slot `lo` or later is in order. */
  ghost predicate Ordered(s: seq<Node>, lo: int, n: int)
  {
    n <= |s| && forall k :: 0 < k < n && Parent(k) >= lo ==> s[Parent(k)].priority <= s[k].priority
  }

  /** The min-heap invariant of `container/heap` over the whole slice. */
  ghost predicate HeapOrdered(s: seq<Node>)
  {
    Ordered(s, 0, |s|)
  }

  /** `Swap` on the slice: the two nodes change places and each takes its
      new slot number. */
  function SwapSeq(s: seq<Node>, i: int, j: int): seq<Node>
    requires 0 <= i < |s| && 0 <= j < |s|
  {
    s[i := s[j].(index := i)][j := s[i].(index := j)]
  }

  lemma StripSwap(s: seq<Node>, i: int, j: int)
    requires 0 <= i < |s| && 0 <= j < |s|
    ensures multiset(Strip(SwapSeq(s, i, j))) == multiset(Strip(s))
  {
    var t := Strip(s);
    assert Strip(SwapSeq(s, i, j)) == t[i := t[j]][j := t[i]];
  }

  /** In a heap the first slot holds a minimum: every slot is reached from
      slot 0 along parent links, each of which does not decrease. */
  lemma {:induction false} RootMin(s: seq<Node>, k: int)
    requires HeapOrdered(s) && 0 <= k < |s|
    ensures s[0].priority <= s[k].priority
    decreases k
  {
    if k > 0 {
      RootMin(s, Parent(k));
    }
  }

  /** The node in the first slot of a heap, detached, is one of least
      priority among all the nodes held. */
  lemma HeapMin(s: seq<Node>)
    requires HeapOrdered(s) && |s| > 0
    ensures Detached(s[0]) in multiset(Strip(s))
    ensures forall y :: y in multiset(Strip(s)) ==> Detached(s[0]).priority <= y.priority
  {
    var t := Strip(s);
    assert t[0] == Detached(s[0]);
    forall y | y in multiset(t)
      ensures Detached(s[0]).priority <= y.priority
    {
      var k :| 0 <= k < |t| && t[k] == y;
      RootMin(s, k);
    }
  }

  /** Sift-up state: the heap holds except between `j` and its parent, and
      the parent of `j` is no larger than the children of `j`. */
  ghost predicate UpInv(s: seq<Node>, j: int)
  {
    0 <= j < |s|
    && (forall k :: 0 < k < |s| && k != j ==> s[Parent(k)].priority <= s[k].priority)
    && (j > 0 ==> forall k :: 0 < k < |s| && Parent(k) == j ==> s[Parent(j)].priority <= s[k].priority)
  }

  lemma UpStep(s: seq<Node>, j: int)
    requires UpInv(s, j) && j > 0 && s[j].priority < s[Parent(j)].priority
    ensures UpInv(SwapSeq(s, Parent(j), j), Parent(j))
  {
    var i := Parent(j);
    var t := SwapSeq(s, i, j);
    forall k | 0 < k < |t| && k != i
      ensures t[Parent(k)].priority <= t[k].priority
    {
      if Parent(k) == j {
        assert t[k] == s[k];
      } else if Parent(k) == i && k != j {
        assert t[k] == s[k];
      }
    }
    if i > 0 {
      forall k | 0 < k < |t| && Parent(k) == i
        ensures t[Parent(i)].priority <= t[k].priority
      {
        if k != j {
          assert t[k] == s[k];
        }
      }
    }
  }

  lemma UpDone(s: seq<Node>, j: int)
    requires UpInv(s, j) && (j == 0 || s[Parent(j)].priority <= s[j].priority)
    ensures HeapOrdered(s)
  {
  }

  /** Sift-down state for `down(h, i0, n)` now at slot `i`: inside the first
      `n` slots every pair whose parent is at `i0` or later is in order,
      except the pairs whose parent is `i`; and unless `i` is where the walk
      started, the parent of `i` is no larger than the children of `i`. */
  ghost predicate DownInv(s: seq<Node>, i0: int, i: int, n: int)
  {
    0 <= i0 <= i && n <= |s|
    && (forall k :: 0 < k < n && Parent(k) >= i0 && Parent(k) != i ==> s[Parent(k)].priority <= s[k].priority)
    && (i != i0 ==> i > 0 && Parent(i) >= i0 && forall k :: 0 < k < n && Parent(k) == i ==> s[Parent(i)].priority <= s[k].priority)
  }

  lemma DownStep(s: seq<Node>, i0: int, i: int, n: int, j: int)
    requires DownInv(s, i0, i, n)
    requires (j == 2 * i + 1 || j == 2 * i + 2) && j < n
    requires 2 * i + 1 < n ==> s[j].priority <= s[2 * i + 1].priority
    requires 2 * i + 2 < n ==> s[j].priority <= s[2 * i + 2].priority
    requires s[j].priority < s[i].priority
    ensures DownInv(SwapSeq(s, i, j), i0, j, n)
  {
    var t := SwapSeq(s, i, j);
    assert Parent(j) == i;
    forall k | 0 < k < n && Parent(k) >= i0 && Parent(k) != j
      ensures t[Parent(k)].priority <= t[k].priority
    {
      if Parent(k) == i {
        assert k == 2 * i + 1 || k == 2 * i + 2;
        if k != j {
          assert t[k] == s[k];
        }
      } else if k == i {
        assert t[Parent(k)] == s[Parent(k)];
      } else {
        assert t[k] == s[k] || k == j;
      }
    }
    forall k | 0 < k < n && Parent(k) == j
      ensures t[Parent(j)].priority <= t[k].priority
    {
      assert t[k] == s[k];
    }
  }

  lemma DownDone(s: seq<Node>, i0: int, i: int, n: int)
    requires DownInv(s, i0, i, n)
    requires forall k :: 0 < k < n && Parent(k) == i ==> s[i].priority <= s[k].priority
    ensures Ordered(s, i0, n)
  {
  }

  /** Slots from `n / 2` on have no children inside the first `n`. */
  lemma OrderedFromHalf(s: seq<Node>, n: int)
    requires 0 <= n <= |s|
    ensures Ordered(s, n / 2, n)
  {
    forall k | 0 < k < n
      ensures Parent(k) < n / 2
    {
      assert 2 * Parent(k) <= k - 1;
      assert n <= 2 * (n / 2) + 1;
    }
  }

  /** `PriorityQueue`, a slice of nodes. */
  class PriorityQueue {
    var items: seq<Node>

    /** Each node records the slot it occupies. */
    ghost predicate Valid()
      reads this
    {
      forall k :: 0 <= k < |items| ==> items[k].index == k
    }

    /** The heap invariant that `container/heap` maintains. */
    ghost predicate Heaped()
      reads this
    {
      HeapOrdered(items)
    }

    /** The nodes held, apart from their slot numbers. */
    ghost function Contents(): multiset<Node>
      reads this
    {
      multiset(Strip(items))
    }

    /** `make(PriorityQueue, 0)`. */
    constructor ()
      ensures items == [] && Valid() && Heaped() && Contents() == multiset{}
    {
      items := [];
    }

    /** `Len`: the number of nodes held. */
    function Len(): (n: int)
      reads this
      ensures n == |Contents()|
    {
      |items|
    }

    /** `Less`: strictly smaller priority. */
    predicate Less(i: int, j: int)
      reads this
      requires 0 <= i < |items| && 0 <= j < |items|
    {
      items[i].priority < items[j].priority
    }

    /** `Swap`: the two nodes change places, each records its new slot, and
        nothing else changes. */
    method Swap(i: int, j: int)
      requires 0 <= i < |items| && 0 <= j < |items|
      modifies this
      ensures items == SwapSeq(old(items), i, j)
      ensures |items| == |old(items)| && items[i] == old(items)[j].(index := i) && items[j] == old(items)[i].(index := j)
      ensures forall k :: 0 <= k < |items| && k != i && k != j ==> items[k] == old(items)[k]
      ensures Contents() == old(Contents())
      ensures old(Valid()) ==> Valid()
    {
      StripSwap(items, i, j);
      items := SwapSeq(items, i, j);
    }

    /** `Push`: appends the node, recording the old length as its slot. */
    method Push(x: Node)
      modifies this
      ensures items == old(items) + [x.(index := |old(items)|)]
      ensures Contents() == old(Contents()) + multiset{Detached(x)}
      ensures old(Valid()) ==> Valid()
    {
      items := items + [x.(index := |items|)];
      assert Strip(items) == Strip(old(items)) + [Detached(x)];
    }

    /** `Pop`: removes the last node and returns it with slot -1; the other
        nodes stay as they were. */
    method Pop() returns (x: Node)
      requires |items| > 0
      modifies this
      ensures x == Detached(old(items)[|old(items)| - 1]) && x.index == -1
      ensures items == old(items)[..|old(items)| - 1]
      ensures Contents() == old(Contents()) - multiset{x}
      ensures old(Valid()) ==> Valid()
    {
      var n := |items|;
      x := items[n - 1].(index := -1);
      assert Strip(items) == Strip(items[..n - 1]) + [x];
      items := items[..n - 1];
    }

    /** `up(h, j)` of `container/heap`: moves the node at `j` towards the
        root while it is smaller than its parent. Go computes the parent
        of slot 0 as `(0 - 1) / 2`, which truncates to 0 and stops the walk. */
    method Up(j0: int)
      requires Valid() && UpInv(items, j0)
      modifies this
      ensures Valid() && Heaped()
      ensures Contents() == old(Contents()) && |items| == |old(items)|
    {
      var j := j0;
      while true
        invariant Valid() && UpInv(items, j)
        invariant Contents() == old(Contents()) && |items| == |old(items)|
        decreases j
      {
        var i := if j == 0 then 0 else Parent(j);
        if i == j || !Less(j, i) {
          break;
        }
        UpStep(items, j);
        Swap(i, j);
        j := i;
      }
      UpDone(items, j);
    }

    /** `down(h, i0, n)` of `container/heap`: moves the node at `i0` away
        from the root, within the first `n` slots, while a child is smaller,
        always towards the smaller child (the right one only when strictly
        smaller). Slots from `n` on are left alone. */
    method Down(i0: int, n: int)
      requires Valid() && 0 <= i0 && 0 <= n <= |items| && Ordered(items, i0 + 1, n)
      modifies this
      ensures Valid() && Ordered(items, i0, n)
      ensures Contents() == old(Contents()) && |items| == |old(items)|
      ensures items[n..] == old(items)[n..]
    {
      var i := i0;
      while true
        invariant Valid() && DownInv(items, i0, i, n) && 0 <= n
        invariant Contents() == old(Contents()) && |items| == |old(items)|
        invariant items[n..] == old(items)[n..]
        decreases n - i
      {
        var j1 := 2 * i + 1;
        if j1 >= n {
          break;
        }
        var j := j1;
        var j2 := j1 + 1;
        if j2 < n && Less(j2, j1) {
          j := j2;
        }
        if !Less(j, i) {
          break;
        }
        DownStep(items, i0, i, n, j);
        Swap(i, j);
        i := j;
      }
      DownDone(items, i0, i, n);
    }

    /** `heap.Push`: append, then sift the new node up. */
    method HeapPush(x: Node)
      requires Valid() && Heaped()
      modifies this
      ensures Valid() && Heaped()
      ensures Contents() == old(Contents()) + multiset{Detached(x)}
      ensures |items| == |old(items)| + 1
    {
      Push(x);
      Up(|items| - 1);
    }

    /** `heap.Pop`: the first node (a minimum) changes places with the last,
        the new first node is sifted down over all but the last slot, and
        the last slot is removed. On an empty queue Go's `Swap(0, -1)`
        panics, so the queue must hold a node. */
    method HeapPop() returns (x: Node)
      requires Valid() && Heaped() && |items| > 0
      modifies this
      ensures Valid() && Heaped()
      ensures x in old(Contents()) && x.index == -1
      ensures forall y :: y in old(Contents()) ==> x.priority <= y.priority
      ensures Contents() == old(Contents()) - multiset{x}
      ensures |items| == |old(items)| - 1
    {
      var n := |items| - 1;
      ghost var s := items;
      HeapMin(s);
      Swap(0, n);
      Down(0, n);
      x := Pop();
    }

    /** `heap.Init`: sifts down every slot that has a child, from the last
        such slot back to the root. */
    method HeapInit()
      requires Valid()
      modifies this
      ensures Valid() && Heaped()
      ensures Contents() == old(Contents()) && |items| == |old(items)|
    {
      var n := |items|;
      OrderedFromHalf(items, n);
      var i := n / 2 - 1;
      while i >= 0
        invariant -1 <= i && Valid() && |items| == n && Ordered(items, i + 1, n)
        invariant Contents() == old(Contents())
        decreases i + 1
      {
        Down(i, n);
        i := i - 1;
      }
    }
  }

  /** `NewPriorityQueue`: one leaf per table entry, each pushed in Go's
      arbitrary map order, then `heap.Init`. */
  method NewPriorityQueue(frequencies: map<byte, int>) returns (pq: PriorityQueue)
    ensures fresh(pq) && pq.Valid() && pq.Heaped()
    ensures pq.Contents() == Seeds(frequencies)
    ensures pq.Len() == |frequencies|
  {
    pq := new PriorityQueue();
    var rest := frequencies.Keys;
    while rest != {}
      invariant rest <= frequencies.Keys
      invariant pq.Valid() && pq.Heaped()
      invariant pq.Contents() == Seeds(frequencies - rest)
      invariant |pq.items| + |rest| == |frequencies.Keys|
      decreases |rest|
    {
      var c :| c in rest;
      var node := Node(c, frequencies[c], frequencies[c], 0, None, None);
      SeedsTake(frequencies, rest, c);
      pq.HeapPush(node);
      rest := rest - {c};
    }
    assert frequencies - rest == frequencies;
    pq.HeapInit();
  }

  /** Taking the entry of `c` out of the keys still to push adds its seed. */
  lemma SeedsTake(frequencies: map<byte, int>, rest: set<byte>, c: byte)
    requires c in rest && rest <= frequencies.Keys
    ensures Seeds(frequencies - (rest - {c})) == Seeds(frequencies - rest) + multiset{Seed(c, frequencies[c])}
  {
    assert frequencies - (rest - {c}) == (frequencies - rest)[c := frequencies[c]];
    SeedsAdd(frequencies - rest, c, frequencies[c]);
  }

  /** Nodes in non-decreasing priority. */
  predicate InPriorityOrder(s: seq<Node>)
  {
    forall i, j :: 0 <= i < j < |s| ==> s[i].priority <= s[j].priority
  }

  /** No node of `s` has a larger priority than a node of `q`. */
  ghost predicate NoneAbove(s: seq<Node>, q: multiset<Node>)
  {
    forall i, z :: 0 <= i < |s| && z in q ==> s[i].priority <= z.priority
  }

  /** One pop of a minimum `x` of `q` keeps the drained nodes in order and
      below what is left. */
  lemma DrainStep(out: seq<Node>, q: multiset<Node>, x: Node)
    requires InPriorityOrder(out) && NoneAbove(out, q)
    requires x in q && forall z :: z in q ==> x.priority <= z.priority
    ensures InPriorityOrder(out + [x]) && NoneAbove(out + [x], q - multiset{x})
    ensures multiset(out + [x]) + (q - multiset{x}) == multiset(out) + q
  {
    assert multiset(out + [x]) == multiset(out) + multiset{x};
  }

  /** Popping a heap until it is empty, as the queue's test does: each pop
      takes a minimum of what is left, so the nodes come out in
      non-decreasing priority, and every node held comes out once. */
  method Drain(pq: PriorityQueue) returns (out: seq<Node>)
    requires pq.Valid() && pq.Heaped()
    modifies pq
    ensures multiset(out) == old(pq.Contents())
    ensures InPriorityOrder(out)
    ensures pq.items == [] && pq.Valid() && pq.Heaped()
  {
    out := [];
    while |pq.items| > 0
      invariant pq.Valid() && pq.Heaped()
      invariant multiset(out) + pq.Contents() == old(pq.Contents())
      invariant InPriorityOrder(out) && NoneAbove(out, pq.Contents())
      decreases |pq.items|
    {
      ghost var q := pq.Contents();
      var x := pq.HeapPop();
      DrainStep(out, q, x);
      out := out + [x];
    }
    assert |Strip(pq.items)| == 0;
  }

  // The seeded bag of the queue's test table, one entry at a time. The
  // tables are parameters so that the solver does not unfold `Seeds` on
  // map literals.

  lemma SampleSeeds3(m: map<byte, int>, m1: map<byte, int>)
    requires m == map[97 := 3, 98 := 2, 99 := 1] && m1 == map[98 := 2, 99 := 1]
    ensures Seeds(m) == Seeds(m1) + multiset{Seed(97, 3)}
  {
    SeedsRemove(m, 97);
    assert m - {97} == m1;
  }

  lemma SampleSeeds2(m1: map<byte, int>, m2: map<byte, int>)
    requires m1 == map[98 := 2, 99 := 1] && m2 == map[99 := 1]
    ensures Seeds(m1) == Seeds(m2) + multiset{Seed(98, 2)}
  {
    SeedsRemove(m1, 98);
    assert m1 - {98} == m2;
  }

  lemma SampleSeeds1(m2: map<byte, int>)
    requires m2 == map[99 := 1]
    ensures Seeds(m2) == multiset{Seed(99, 1)}
  {
    SeedsRemove(m2, 99);
    assert m2 - {99} == map[];
  }

  lemma SampleSeeds(m: map<byte, int>)
    requires m == map[97 := 3, 98 := 2, 99 := 1]
    ensures Seeds(m) == multiset{Seed(97, 3), Seed(98, 2), Seed(99, 1)}
  {
    var m1: map<byte, int> :| m1 == map[98 := 2, 99 := 1];
    var m2: map<byte, int> :| m2 == map[99 := 1];
    SampleSeeds3(m, m1);
    SampleSeeds2(m1, m2);
    SampleSeeds1(m2);
  }

  lemma SamplePop3(q: multiset<Node>, x: Node)
    requires q == multiset{Seed(97, 3), Seed(98, 2), Seed(99, 1)}
    requires x in q && forall z :: z in q ==> x.priority <= z.priority
    ensures x.priority == 1 && q - multiset{x} == multiset{Seed(97, 3), Seed(98, 2)}
  {
    assert x.priority <= Seed(99, 1).priority;
  }

  lemma SamplePop2(q: multiset<Node>, x: Node)
    requires q == multiset{Seed(97, 3), Seed(98, 2)}
    requires x in q && forall z :: z in q ==> x.priority <= z.priority
    ensures x.priority == 2 && q - multiset{x} == multiset{Seed(97, 3)}
  {
    assert x.priority <= Seed(98, 2).priority;
  }

  /** The queue's test: seeding {a:3, b:2, c:1} and popping three times
      gives priorities 1, 2, 3, and the queue starts with one node per
      entry. */
  method ExtractOrderExample() returns (len: int, order: seq<int>)
    ensures len == 3 && order == [1, 2, 3]
  {
    var frequencies := map[97 := 3, 98 := 2, 99 := 1];
    var pq := NewPriorityQueue(frequencies);
    len := pq.Len();
    SampleSeeds(frequencies);
    ghost var q := pq.Contents();
    var x := pq.HeapPop();
    SamplePop3(q, x);
    q := pq.Contents();
    var y := pq.HeapPop();
    SamplePop2(q, y);
    q := pq.Contents();
    var z := pq.HeapPop();
    assert z == Seed(97, 3);
    order := [x.priority, y.priority, z.priority];
  }
}
