/** The Huffman tree builder and code assigner
    (compress/huffman/huffman_tree.go). */
module Huffman {
  import opened Wrappers
  import opened Text
  import opened Frequency
  import opened Queue

  // ---------------------------------------------------------------------
  // Trees
  // ---------------------------------------------------------------------

  predicate IsLeaf(t: Node)
  {
    t.left.None? && t.right.None?
  }

  /** The shape `BuildHuffmanTree` produces: every node has left the queue
      (slot -1); a leaf has priority equal to its frequency; an internal
      node has two children, character 0, frequency and priority both the
      sum of its children's frequencies, and a left child whose priority is
      no larger than the right one's (the left child was extracted first). */
  ghost predicate WellFormed(t: Node)
    decreases t
  {
    t.index == -1
    && match t.left
       case None => t.right.None? && t.priority == t.freq
       case Some(l) =>
         match t.right
         case None => false
         case Some(r) =>
           t.ch == 0 && t.freq == l.freq + r.freq && t.priority == t.freq
           && l.priority <= r.priority && WellFormed(l) && WellFormed(r)
  }

  /** The leaves of a tree, as a multiset. */
  function Leaves(t: Node): multiset<Node>
    decreases t
  {
    if IsLeaf(t) then multiset{t}
    else
      (if t.left.Some? then Leaves(t.left.value) else multiset{})
      + (if t.right.Some? then Leaves(t.right.value) else multiset{})
  }

  /** The node `BuildHuffmanTree` pushes for two extracted nodes, as it is
      once extracted itself. */
  function Merge(x: Node, y: Node): Node
  {
    Node(0, x.freq + y.freq, x.freq + y.freq, -1, Some(x), Some(y))
  }

  // ---------------------------------------------------------------------
  // Folds over the queue's contents
  // ---------------------------------------------------------------------

  /** Taking two different elements out of a bag, in either order. */
  lemma RemoveTwo(q: multiset<Node>, x: Node, y: Node)
    requires x in q && y in q && x != y
    ensures x in q - multiset{y} && y in q - multiset{x}
    ensures |q - multiset{y}| < |q| && |q - multiset{x}| < |q|
    ensures q - multiset{y} - multiset{x} == q - multiset{x} - multiset{y}
  {
  }

  /** The sum of the frequencies of the nodes in a bag. */
  ghost function Weight(q: multiset<Node>): int
    decreases |q|
  {
    if q == multiset{} then 0
    else
      var x :| x in q;
      x.freq + Weight(q - multiset{x})
  }

  lemma WeightRemove(q: multiset<Node>, x: Node)
    requires x in q
    ensures Weight(q) == x.freq + Weight(q - multiset{x})
    decreases |q|
  {
    var y :| y in q && Weight(q) == y.freq + Weight(q - multiset{y});
    if y != x {
      RemoveTwo(q, x, y);
      WeightRemove(q - multiset{y}, x);
      WeightRemove(q - multiset{x}, y);
    }
  }

  lemma WeightAdd(q: multiset<Node>, x: Node)
    ensures Weight(q + multiset{x}) == Weight(q) + x.freq
  {
    WeightRemove(q + multiset{x}, x);
    assert q + multiset{x} - multiset{x} == q;
  }

  /** All the leaves of all the trees in a bag. */
  ghost function LeafBag(q: multiset<Node>): multiset<Node>
    decreases |q|
  {
    if q == multiset{} then multiset{}
    else
      var x :| x in q;
      Leaves(x) + LeafBag(q - multiset{x})
  }

  lemma LeafBagRemove(q: multiset<Node>, x: Node)
    requires x in q
    ensures LeafBag(q) == Leaves(x) + LeafBag(q - multiset{x})
    decreases |q|, 1
  {
    var y :| y in q && LeafBag(q) == Leaves(y) + LeafBag(q - multiset{y});
    if y != x {
      LeafBagRemoveOther(q, x, y);
    }
  }

  /** The fold took `y` first; taking `x` first gives the same bag. */
  lemma LeafBagRemoveOther(q: multiset<Node>, x: Node, y: Node)
    requires x in q && y in q && x != y
    requires LeafBag(q) == Leaves(y) + LeafBag(q - multiset{y})
    ensures LeafBag(q) == Leaves(x) + LeafBag(q - multiset{x})
    decreases |q|, 0
  {
    RemoveTwo(q, x, y);
    var qx, qy := q - multiset{x}, q - multiset{y};
    assert LeafBag(qy) == Leaves(x) + LeafBag(qy - multiset{x}) by {
      LeafBagRemove(qy, x);
    }
    assert LeafBag(qx) == Leaves(y) + LeafBag(qx - multiset{y}) by {
      LeafBagRemove(qx, y);
    }
    SumCommute(LeafBag(q), LeafBag(qx), LeafBag(qy), LeafBag(qx - multiset{y}), Leaves(x), Leaves(y));
  }

  /** Multiset sums commute: w = ly + (lx + c) and a = ly + c give w = lx + a. */
  lemma SumCommute(w: multiset<Node>, a: multiset<Node>, b: multiset<Node>, c: multiset<Node>,
                   lx: multiset<Node>, ly: multiset<Node>)
    requires w == ly + b && b == lx + c && a == ly + c
    ensures w == lx + a
  {
  }

  lemma LeafBagAdd(q: multiset<Node>, x: Node)
    ensures LeafBag(q + multiset{x}) == LeafBag(q) + Leaves(x)
  {
    LeafBagRemove(q + multiset{x}, x);
    assert q + multiset{x} - multiset{x} == q;
  }

  /** The seeded queue weighs as much as the frequency table and holds
      exactly the seeded leaves. */
  lemma {:induction false} SeedsFolds(m: map<byte, int>)
    ensures Weight(Seeds(m)) == Total(m)
    ensures LeafBag(Seeds(m)) == Seeds(m)
    decreases |m|
  {
    if m == map[] {
      assert Seeds(m) == multiset{};
    } else {
      var k :| k in m;
      var rest := m - {k};
      assert rest[k := m[k]] == m;
      SeedsAdd(rest, k, m[k]);
      SeedsFolds(rest);
      TotalRemove(m, k);
      WeightAdd(Seeds(rest), Seed(k, m[k]));
      LeafBagAdd(Seeds(rest), Seed(k, m[k]));
    }
  }

  // ---------------------------------------------------------------------
  // The greedy construction
  // ---------------------------------------------------------------------

  /** `x` is a node of least priority in `q`. */
  ghost predicate IsMin(x: Node, q: multiset<Node>)
  {
    x in q && forall z :: z in q ==> x.priority <= z.priority
  }

  /** `r` is a tree that Huffman's construction can end with from the bag
      `q`: while two or more nodes remain, a node of least priority and then
      a node of least priority among the rest are replaced by their merge.
      Which of several equal-priority nodes is taken is left open. */
  ghost predicate Greedy(q: multiset<Node>, r: Node)
    decreases |q|
  {
    if |q| <= 1 then q == multiset{r}
    else
      exists x, y :: IsMin(x, q) && IsMin(y, q - multiset{x})
        && Greedy(q - multiset{x} - multiset{y} + multiset{Merge(x, y)}, r)
  }

  /** The bag after one round of the builder: two nodes out, their merge in. */
  function AfterMerge(q: multiset<Node>, x: Node, y: Node): multiset<Node>
  {
    q - multiset{x} - multiset{y} + multiset{Merge(x, y)}
  }

  /** One round of the builder keeps every tree well formed. */
  lemma MergeWellFormed(q: multiset<Node>, x: Node, y: Node)
    requires IsMin(x, q) && y in q - multiset{x}
    requires forall z :: z in q ==> WellFormed(z)
    ensures forall z :: z in AfterMerge(q, x, y) ==> WellFormed(z)
  {
    assert y in q;
    assert WellFormed(Merge(x, y));
  }

  /** One round of the builder keeps the weight. */
  lemma MergeWeight(q: multiset<Node>, x: Node, y: Node)
    requires x in q && y in q - multiset{x}
    ensures Weight(AfterMerge(q, x, y)) == Weight(q)
  {
    WeightRemove(q, x);
    WeightRemove(q - multiset{x}, y);
    WeightAdd(q - multiset{x} - multiset{y}, Merge(x, y));
  }

  /** One round of the builder keeps the leaves. */
  lemma MergeLeaves(q: multiset<Node>, x: Node, y: Node)
    requires x in q && y in q - multiset{x}
    ensures LeafBag(AfterMerge(q, x, y)) == LeafBag(q)
  {
    LeafBagRemove(q, x);
    LeafBagRemove(q - multiset{x}, y);
    LeafBagAdd(q - multiset{x} - multiset{y}, Merge(x, y));
  }

  /** One round of the builder is a step of the greedy construction. */
  lemma MergeGreedy(q: multiset<Node>, x: Node, y: Node, r: Node)
    requires IsMin(x, q) && IsMin(y, q - multiset{x})
    requires Greedy(AfterMerge(q, x, y), r)
    ensures Greedy(q, r)
  {
    assert |q - multiset{x}| == |q| - 1;
  }

  /** What the builder's loop keeps about the queue's bag `q`: every tree
      is well formed, the weight is the table's total, the leaves are the
      seeded leaves, and every tree the greedy construction can end with
      from `q` it can also end with from the seeds. */
  ghost predicate BuilderInv(q: multiset<Node>, frequencies: map<byte, int>)
  {
    && (forall z :: z in q ==> WellFormed(z))
    && Weight(q) == Total(frequencies)
    && LeafBag(q) == Seeds(frequencies)
    && (forall r :: Greedy(q, r) ==> Greedy(Seeds(frequencies), r))
  }

  lemma BuilderStart(frequencies: map<byte, int>)
    ensures BuilderInv(Seeds(frequencies), frequencies)
  {
    SeedsFolds(frequencies);
    SeedsMembers(frequencies);
  }

  /** One round of the builder's loop, stated over the bags the queue holds
      before the round, after each extraction and after the push. */
  lemma BuilderRound(q: multiset<Node>, q1: multiset<Node>, q2: multiset<Node>, q3: multiset<Node>,
                     frequencies: map<byte, int>, x: Node, y: Node, merged: Node)
    requires BuilderInv(q, frequencies)
    requires x in q && (forall z :: z in q ==> x.priority <= z.priority) && q1 == q - multiset{x}
    requires y in q1 && (forall z :: z in q1 ==> y.priority <= z.priority) && q2 == q1 - multiset{y}
    requires merged == Node(0, x.freq + y.freq, x.freq + y.freq, 0, Some(x), Some(y))
    requires q3 == q2 + multiset{Detached(merged)}
    ensures BuilderInv(q3, frequencies)
  {
    assert Detached(merged) == Merge(x, y);
    MergeInv(q, x, y, frequencies);
  }

  /** The invariant holds after merging the two least trees of the bag. */
  lemma MergeInv(q: multiset<Node>, x: Node, y: Node, frequencies: map<byte, int>)
    requires BuilderInv(q, frequencies)
    requires IsMin(x, q) && IsMin(y, q - multiset{x})
    ensures BuilderInv(AfterMerge(q, x, y), frequencies)
  {
    MergeWellFormed(q, x, y);
    MergeWeight(q, x, y);
    MergeLeaves(q, x, y);
    forall r | Greedy(AfterMerge(q, x, y), r)
      ensures Greedy(Seeds(frequencies), r)
    {
      MergeGreedy(q, x, y, r);
    }
  }

  lemma BuilderEnd(frequencies: map<byte, int>, r: Node)
    requires BuilderInv(multiset{r}, frequencies)
    ensures WellFormed(r) && Leaves(r) == Seeds(frequencies) && r.freq == Total(frequencies)
    ensures Greedy(Seeds(frequencies), r)
    ensures |frequencies| >= 2 ==> r.left.Some? && r.right.Some?
  {
    var q := multiset{r};
    WeightRemove(q, r);
    LeafBagRemove(q, r);
    assert q - multiset{r} == multiset{};
    assert Greedy(q, r);
    if IsLeaf(r) {
      LeafRootSingleSymbol(frequencies, r);
    }
  }

  /** `BuildHuffmanTree`: seeds the queue, then merges the two nodes of
      least priority until one node remains, and extracts it. Go's final
      `heap.Pop` on an empty queue panics; the model returns `None` for the
      empty frequency table instead. */
  method BuildHuffmanTree(frequencies: map<byte, int>) returns (root: Option<Node>)
    ensures root.None? <==> frequencies == map[]
    ensures root.Some? ==> WellFormed(root.value)
    ensures root.Some? ==> Leaves(root.value) == Seeds(frequencies)
    ensures root.Some? ==> root.value.freq == Total(frequencies)
    ensures root.Some? ==> Greedy(Seeds(frequencies), root.value)
    ensures root.Some? && |frequencies| >= 2 ==> root.value.left.Some? && root.value.right.Some?
  {
    var pq := NewPriorityQueue(frequencies);
    BuilderStart(frequencies);
    while pq.Len() > 1
      invariant fresh(pq) && pq.Valid() && pq.Heaped()
      invariant (|pq.items| == 0) == (frequencies == map[])
      invariant BuilderInv(pq.Contents(), frequencies)
      decreases |pq.items|
    {
      MergeTwoLeast(pq, frequencies);
    }
    if pq.Len() == 0 {
      return None;
    }
    var r := TakeRoot(pq, frequencies);
    root := Some(r);
  }

  /** The builder's final `heap.Pop`, on a queue holding one node. */
  method TakeRoot(pq: PriorityQueue, frequencies: map<byte, int>) returns (r: Node)
    requires pq.Valid() && pq.Heaped() && |pq.items| == 1
    requires BuilderInv(pq.Contents(), frequencies)
    modifies pq
    ensures WellFormed(r) && Leaves(r) == Seeds(frequencies) && r.freq == Total(frequencies)
    ensures Greedy(Seeds(frequencies), r)
    ensures |frequencies| >= 2 ==> r.left.Some? && r.right.Some?
  {
    ghost var q := pq.Contents();
    r := pq.HeapPop();
    assert q == multiset{r};
    BuilderEnd(frequencies, r);
  }

  /** The body of the builder's loop: extracts the node of least priority
      and then the next one, and pushes their merge, whose priority is the
      sum of their frequencies. */
  method MergeTwoLeast(pq: PriorityQueue, frequencies: map<byte, int>)
    requires pq.Valid() && pq.Heaped() && |pq.items| > 1
    requires BuilderInv(pq.Contents(), frequencies)
    modifies pq
    ensures pq.Valid() && pq.Heaped() && |pq.items| == |old(pq.items)| - 1
    ensures BuilderInv(pq.Contents(), frequencies)
  {
    ghost var q := pq.Contents();
    var minimum := pq.HeapPop();
    ghost var q1 := pq.Contents();
    var nextMinimum := pq.HeapPop();
    ghost var q2 := pq.Contents();
    var merged := Node(0, minimum.freq + nextMinimum.freq, minimum.freq + nextMinimum.freq, 0, Some(minimum), Some(nextMinimum));
    pq.HeapPush(merged);
    BuilderRound(q, q1, q2, pq.Contents(), frequencies, minimum, nextMinimum, merged);
  }

  /** The root's leaves are the seeded leaves, so a leaf root means a
      single symbol. */
  lemma LeafRootSingleSymbol(frequencies: map<byte, int>, root: Node)
    requires Leaves(root) == Seeds(frequencies) && IsLeaf(root)
    ensures |frequencies| == 1
  {
    SeedsMembers(frequencies);
  }

  /** Every tree has a leaf. */
  lemma {:induction false} LeavesNonEmpty(t: Node)
    ensures |Leaves(t)| >= 1
    decreases t
  {
    if !IsLeaf(t) {
      if t.left.Some? {
        LeavesNonEmpty(t.left.value);
      } else {
        LeavesNonEmpty(t.right.value);
      }
    }
  }

  /** Conversely, a built tree over a single symbol is a lone leaf: an
      internal node has two children, each with a leaf of its own. */
  lemma SingleSymbolLeafRoot(frequencies: map<byte, int>, root: Node)
    requires WellFormed(root) && Leaves(root) == Seeds(frequencies) && |frequencies| == 1
    ensures IsLeaf(root)
  {
    SeedsMembers(frequencies);
    if !IsLeaf(root) {
      LeavesNonEmpty(root.left.value);
      LeavesNonEmpty(root.right.value);
    }
  }

  // ---------------------------------------------------------------------
  // Codes
  // ---------------------------------------------------------------------

  /** `AssignCodes`: records `code` for a leaf; otherwise walks the left
      child with "0" appended, then the right child with "1" appended,
      threading the caller's map through both. */
  function AssignCodes(node: Node, code: string, codes: map<byte, string>): map<byte, string>
    decreases node
  {
    if IsLeaf(node) then codes[node.ch := code]
    else
      var afterLeft := if node.left.Some? then AssignCodes(node.left.value, code + "0", codes) else codes;
      if node.right.Some? then AssignCodes(node.right.value, code + "1", afterLeft) else afterLeft
  }

  /** The codes a tree gives its leaves when its root has code `p`,
      on their own: the right subtree's entries win over the left's. */
  function LeafCodes(t: Node, p: string): map<byte, string>
    decreases t
  {
    if IsLeaf(t) then map[t.ch := p]
    else
      (if t.left.Some? then LeafCodes(t.left.value, p + "0") else map[])
      + (if t.right.Some? then LeafCodes(t.right.value, p + "1") else map[])
  }

  /** The subtree reached from `t` by following `w`, '0' to the left and
      '1' to the right; `None` when the walk leaves the tree. */
  function Walk(t: Node, w: string): Option<Node>
    decreases |w|
  {
    if w == [] then Some(t)
    else if w[0] == '0' && t.left.Some? then Walk(t.left.value, w[1..])
    else if w[0] == '1' && t.right.Some? then Walk(t.right.value, w[1..])
    else None
  }

  /** `w` leads from the root of `t` to a leaf holding `c`. */
  predicate ReachesLeaf(t: Node, w: string, c: byte)
  {
    var o := Walk(t, w);
    o.Some? && IsLeaf(o.value) && o.value.ch == c
  }

  predicate IsBits(s: string)
  {
    forall k :: 0 <= k < |s| ==> s[k] == '0' || s[k] == '1'
  }

  /** The characters at the leaves of a tree. */
  function LeafChars(t: Node): set<byte>
    decreases t
  {
    if IsLeaf(t) then {t.ch}
    else
      (if t.left.Some? then LeafChars(t.left.value) else {})
      + (if t.right.Some? then LeafChars(t.right.value) else {})
  }

  /** `AssignCodes` adds the tree's leaf codes to the map it is given. */
  lemma {:induction false} AssignCodesAdds(t: Node, p: string, m: map<byte, string>)
    ensures AssignCodes(t, p, m) == m + LeafCodes(t, p)
    decreases t
  {
    if !IsLeaf(t) {
      var l := if t.left.Some? then LeafCodes(t.left.value, p + "0") else map[];
      var r := if t.right.Some? then LeafCodes(t.right.value, p + "1") else map[];
      var afterLeft := if t.left.Some? then AssignCodes(t.left.value, p + "0", m) else m;
      assert afterLeft == m + l by {
        if t.left.Some? {
          AssignCodesAdds(t.left.value, p + "0", m);
        }
      }
      assert AssignCodes(t, p, m) == afterLeft + r by {
        if t.right.Some? {
          AssignCodesAdds(t.right.value, p + "1", afterLeft);
        }
      }
      UnionAssoc(m, l, r);
    }
  }

  lemma UnionAssoc(a: map<byte, string>, b: map<byte, string>, c: map<byte, string>)
    ensures a + b + c == a + (b + c)
  {
  }

  /** Every leaf gets a code and nothing else does. */
  lemma {:induction false} LeafCodesKeys(t: Node, p: string)
    ensures LeafCodes(t, p).Keys == LeafChars(t)
    decreases t
  {
    if !IsLeaf(t) {
      if t.left.Some? { LeafCodesKeys(t.left.value, p + "0"); }
      if t.right.Some? { LeafCodesKeys(t.right.value, p + "1"); }
    }
  }

  /** A leaf code is the prefix `p` followed by the path from the root of
      the tree to a leaf holding that character. */
  lemma {:induction false} LeafCodesArePaths(t: Node, p: string, c: byte)
    requires c in LeafCodes(t, p)
    ensures |p| <= |LeafCodes(t, p)[c]| && LeafCodes(t, p)[c][..|p|] == p
    ensures ReachesLeaf(t, LeafCodes(t, p)[c][|p|..], c)
    decreases t
  {
    var code := LeafCodes(t, p)[c];
    if IsLeaf(t) {
      assert code[|p|..] == [];
    } else {
      var r := if t.right.Some? then LeafCodes(t.right.value, p + "1") else map[];
      if c in r {
        var u := t.right.value;
        LeafCodesArePaths(u, p + "1", c);
        assert code == r[c];
        assert code[|p|..][1..] == code[|p| + 1..];
        assert code[..|p| + 1][..|p|] == code[..|p|];
      } else {
        var u := t.left.value;
        var l := LeafCodes(u, p + "0");
        assert code == l[c];
        LeafCodesArePaths(u, p + "0", c);
        assert code[|p|..][1..] == code[|p| + 1..];
        assert code[..|p| + 1][..|p|] == code[..|p|];
      }
    }
  }

  /** Codes are the prefix followed by '0'/'1' characters only, and are
      longer than the prefix when the root is not a leaf. */
  lemma {:induction false} LeafCodesBits(t: Node, p: string, c: byte)
    requires c in LeafCodes(t, p) && IsBits(p)
    ensures IsBits(LeafCodes(t, p)[c])
    ensures !IsLeaf(t) ==> |LeafCodes(t, p)[c]| > |p|
    decreases t
  {
    if !IsLeaf(t) {
      var r := if t.right.Some? then LeafCodes(t.right.value, p + "1") else map[];
      if c in r {
        LeafCodesBits(t.right.value, p + "1", c);
      } else {
        LeafCodesBits(t.left.value, p + "0", c);
      }
    }
  }

  /** A walk that ends at a leaf cannot be continued. */
  lemma {:induction false} WalkPastLeaf(t: Node, w: string, v: string)
    requires Walk(t, w).Some? && IsLeaf(Walk(t, w).value) && v != []
    ensures Walk(t, w + v).None?
    decreases |w|
  {
    if w == [] {
      assert w + v == v;
    } else {
      assert (w + v)[0] == w[0] && (w + v)[1..] == w[1..] + v;
      if w[0] == '0' {
        WalkPastLeaf(t.left.value, w[1..], v);
      } else {
        WalkPastLeaf(t.right.value, w[1..], v);
      }
    }
  }

  /** Prefix-freeness: no character's code is a proper or improper prefix
      of another character's code. It holds for every tree, since codes are
      root-to-leaf paths. */
  lemma PathsPrefixFree(t: Node, p: string, c: byte, d: byte)
    requires c in LeafCodes(t, p) && d in LeafCodes(t, p) && c != d
    ensures !(LeafCodes(t, p)[c] <= LeafCodes(t, p)[d])
  {
    var codes := LeafCodes(t, p);
    LeafCodesArePaths(t, p, c);
    LeafCodesArePaths(t, p, d);
    SameCodeSameSymbol(t, p, c, d);
    if codes[c] <= codes[d] && |codes[c]| < |codes[d]| {
      var wc, wd := codes[c][|p|..], codes[d][|p|..];
      var v := codes[d][|codes[c]|..];
      assert wd == wc + v;
      WalkPastLeaf(t, wc, v);
    }
  }

  /** Two symbols never share a code: the code leads to the symbol's leaf. */
  lemma SameCodeSameSymbol(t: Node, p: string, c: byte, d: byte)
    requires c in LeafCodes(t, p) && d in LeafCodes(t, p)
    ensures LeafCodes(t, p)[c] <= LeafCodes(t, p)[d] && |LeafCodes(t, p)[c]| == |LeafCodes(t, p)[d]| ==> c == d
  {
    var codes := LeafCodes(t, p);
    LeafCodesArePaths(t, p, c);
    LeafCodesArePaths(t, p, d);
    if codes[c] <= codes[d] && |codes[c]| == |codes[d]| {
      assert codes[c] == codes[d];
    }
  }

  /** No code in the table is a prefix of (or equal to) another symbol's code. */
  predicate PrefixFree(codes: map<byte, string>)
  {
    forall c, d :: c in codes && d in codes && c != d ==> !(codes[c] <= codes[d])
  }

  /** A code table whose codes are '0'/'1' paths from the root of `t` to a
      leaf holding the symbol. */
  predicate CodesArePaths(t: Node, codes: map<byte, string>)
  {
    forall c :: c in codes ==> IsBits(codes[c]) && ReachesLeaf(t, codes[c], c)
  }

  /** `cmd_compress` assigns codes from the root with prefix "" into an
      empty map. What the resulting table satisfies for a tree built from a
      frequency table: its keys are the table's symbols, its codes are
      root-to-leaf paths over '0'/'1', they are prefix-free, and they are
      non-empty unless the root is a lone leaf, whose code is "". */
  lemma HuffmanCodes(frequencies: map<byte, int>, root: Node, codes: map<byte, string>)
    requires Leaves(root) == Seeds(frequencies)
    requires codes == AssignCodes(root, "", map[])
    ensures codes.Keys == frequencies.Keys
    ensures CodesArePaths(root, codes)
    ensures PrefixFree(codes)
    ensures !IsLeaf(root) ==> forall c :: c in codes ==> codes[c] != ""
    ensures IsLeaf(root) ==> codes == map[root.ch := ""]
  {
    assert codes == LeafCodes(root, "") by {
      AssignCodesAdds(root, "", map[]);
    }
    assert codes.Keys == frequencies.Keys by {
      LeafCodesKeys(root, "");
      LeafCharsOfLeaves(root);
      SeedChars(frequencies);
    }
    RootCodesArePaths(root, codes);
    RootCodesPrefixFree(root, codes);
  }

  lemma RootCodesArePaths(root: Node, codes: map<byte, string>)
    requires codes == LeafCodes(root, "")
    ensures CodesArePaths(root, codes)
    ensures !IsLeaf(root) ==> forall c :: c in codes ==> codes[c] != ""
  {
    forall c | c in codes
      ensures IsBits(codes[c]) && ReachesLeaf(root, codes[c], c)
      ensures !IsLeaf(root) ==> codes[c] != ""
    {
      LeafCodesArePaths(root, "", c);
      LeafCodesBits(root, "", c);
      assert codes[c][0..] == codes[c];
    }
  }

  lemma RootCodesPrefixFree(root: Node, codes: map<byte, string>)
    requires codes == LeafCodes(root, "")
    ensures PrefixFree(codes)
  {
    forall c, d | c in codes && d in codes && c != d
      ensures !(codes[c] <= codes[d])
    {
      PathsPrefixFree(root, "", c, d);
    }
  }

  /** The leaf characters are the characters of the leaf bag. */
  lemma {:induction false} LeafCharsOfLeaves(t: Node)
    ensures LeafChars(t) == set x | x in Leaves(t) :: x.ch
    decreases t
  {
    if !IsLeaf(t) {
      if t.left.Some? { LeafCharsOfLeaves(t.left.value); }
      if t.right.Some? { LeafCharsOfLeaves(t.right.value); }
    }
  }

  lemma SeedChars(m: map<byte, int>)
    ensures (set x | x in Seeds(m) :: x.ch) == m.Keys
  {
    SeedsMembers(m);
    forall c | c in m
      ensures c in set x | x in Seeds(m) :: x.ch
    {
      assert Seed(c, m[c]) in Seeds(m);
    }
  }

  /** Entering a new character adds its count to the total and one to the
      number of entries. */
  lemma TotalAdd(m: map<byte, int>, k: byte, v: int)
    requires k !in m
    ensures Total(m[k := v]) == Total(m) + v && |m[k := v]| == |m| + 1
  {
    TotalUpdate(m, k, v);
  }
}
