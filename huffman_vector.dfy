/** The builder and code tests of compress/huffman/huffman_tree_test.go on
    the table {a:8, b:3, c:1, d:5, e:12, f:6}. Its priorities differ
    pairwise at every round of the builder, so the greedy construction
    leaves no choice and the codes it assigns are determined. */
module HuffmanVector {
  import opened Wrappers
  import opened Text
  import opened Queue
  import opened Huffman

  /** Every node of `rest` has priority above `w`. */
  ghost predicate Above(rest: multiset<Node>, w: int)
  {
    forall z :: z in rest ==> w < z.priority
  }

  /** A least node of `rest + {x} + {y}` is `x` when `x` is strictly below
      `y` and `y` strictly below all of `rest`. */
  lemma LeastIsForced(rest: multiset<Node>, x: Node, y: Node, x': Node)
    requires x.priority < y.priority && Above(rest, y.priority)
    requires IsMin(x', rest + multiset{x} + multiset{y})
    ensures x' == x
  {
    assert x'.priority <= x.priority;
  }

  /** A least node of `rest + {y}` is `y` when `y` is strictly below all of
      `rest`. */
  lemma LeastOfRest(rest: multiset<Node>, y: Node, y': Node)
    requires Above(rest, y.priority)
    requires IsMin(y', rest + multiset{y})
    ensures y' == y
  {
    assert y'.priority <= y.priority;
  }

  lemma RemoveLast(rest: multiset<Node>, x: Node, y: Node)
    ensures rest + multiset{x} + multiset{y} - multiset{x} == rest + multiset{y}
  {
  }

  lemma RemoveOnly(rest: multiset<Node>, y: Node)
    ensures rest + multiset{y} - multiset{y} == rest
  {
  }

  /** When the least node and the least of the rest are each strictly below
      every other node, a greedy construction must merge exactly those two
      first: from `q` it goes on to `q1`. */
  lemma GreedyForced(q: multiset<Node>, rest: multiset<Node>, x: Node, y: Node, q1: multiset<Node>, r: Node)
    requires q == rest + multiset{x} + multiset{y} && q1 == rest + multiset{Merge(x, y)}
    requires x.priority < y.priority && Above(rest, y.priority)
    requires Greedy(q, r)
    ensures Greedy(q1, r)
  {
    assert |q| >= 2;
    var x', y' :| IsMin(x', q) && IsMin(y', q - multiset{x'})
      && Greedy(q - multiset{x'} - multiset{y'} + multiset{Merge(x', y')}, r);
    LeastIsForced(rest, x, y, x');
    RemoveLast(rest, x, y);
    LeastOfRest(rest, y, y');
    RemoveOnly(rest, y);
  }

  /** The only tree a greedy construction ends with from one node is that
      node. */
  lemma GreedySingle(q: multiset<Node>, t: Node, r: Node)
    requires q == multiset{t} && Greedy(q, r)
    ensures r == t
  {
    assert r in q;
  }

  /** A leaf-like node whose frequency is its priority. */
  predicate Weighs(t: Node, w: int)
  {
    t.freq == w && t.priority == w
  }

  /** The builder's test table {a:8, b:3, c:1, d:5, e:12, f:6}, with the
      leaves left abstract but for their weights: the five rounds merge
      c with b, then that with d, then f with a, then the 9 with e, and last
      the 14 with the 21. */
  lemma TestTreeForced(a: Node, b: Node, c: Node, d: Node, e: Node, f: Node, q: multiset<Node>, r: Node)
    requires Weighs(a, 8) && Weighs(b, 3) && Weighs(c, 1) && Weighs(d, 5) && Weighs(e, 12) && Weighs(f, 6)
    requires q == multiset{a, d, e, f} + multiset{c} + multiset{b} && Greedy(q, r)
    ensures r == Merge(Merge(f, a), Merge(Merge(Merge(c, b), d), e))
  {
    var n4 := Merge(c, b);
    var n9 := Merge(n4, d);
    var n14 := Merge(f, a);
    var n21 := Merge(n9, e);
    var q1 := multiset{a, d, e, f} + multiset{n4};
    var q2 := multiset{a, e, f} + multiset{n9};
    var q3 := multiset{e, n9} + multiset{n14};
    var q4 := multiset{n14} + multiset{n21};
    var q5 := multiset{} + multiset{Merge(n14, n21)};
    Bags1(a, b, c, d, e, f);
    Bags2(a, e, f, n9);
    Bags3(e, n9, n14);
    Bags4(n14, n21, Merge(n14, n21));
    GreedyForced(q, multiset{a, d, e, f}, c, b, q1, r);
    GreedyForced(q1, multiset{a, e, f}, n4, d, q2, r);
    GreedyForced(q2, multiset{e, n9}, f, a, q3, r);
    GreedyForced(q3, multiset{n14}, n9, e, q4, r);
    GreedyForced(q4, multiset{}, n14, n21, q5, r);
    GreedySingle(q5, Merge(n14, n21), r);
  }

  // The bags of the five rounds, and the priorities that force each.

  lemma Bags1(a: Node, b: Node, c: Node, d: Node, e: Node, f: Node)
    requires Weighs(a, 8) && Weighs(b, 3) && Weighs(c, 1) && Weighs(d, 5) && Weighs(e, 12) && Weighs(f, 6)
    ensures Above(multiset{a, d, e, f}, 3)
    ensures multiset{a, d, e, f} + multiset{Merge(c, b)} == multiset{a, e, f} + multiset{Merge(c, b)} + multiset{d}
  {
  }

  lemma Bags2(a: Node, e: Node, f: Node, n9: Node)
    requires Weighs(a, 8) && Weighs(e, 12) && Weighs(f, 6) && n9.priority == 9
    ensures Above(multiset{a, e, f}, 5)
    ensures multiset{a, e, f} + multiset{n9} == multiset{e, n9} + multiset{f} + multiset{a}
  {
  }

  lemma Bags3(e: Node, n9: Node, n14: Node)
    requires Weighs(e, 12) && n9.priority == 9 && n14.priority == 14
    ensures Above(multiset{e, n9}, 8)
    ensures multiset{e, n9} + multiset{n14} == multiset{n14} + multiset{n9} + multiset{e}
  {
  }

  lemma Bags4(n14: Node, n21: Node, root: Node)
    requires n14.priority == 14
    ensures Above(multiset{n14}, 12) && Above(multiset{}, 21)
    ensures multiset{n14} + multiset{n21} == multiset{} + multiset{n14} + multiset{n21}
    ensures multiset{} + multiset{root} == multiset{root}
  {
  }

  /** The codes of a two-leaf subtree whose root has code `p`. */
  lemma PairCodes(t: Node, p: string, c: byte, d: byte)
    requires t.left.Some? && t.right.Some? && IsLeaf(t.left.value) && IsLeaf(t.right.value)
    requires c == t.left.value.ch && d == t.right.value.ch
    ensures LeafCodes(t, p) == map[c := p + "0"][d := p + "1"]
  {
  }

  /** A leaf for symbol `c`. */
  predicate LeafOf(t: Node, c: byte)
  {
    IsLeaf(t) && t.ch == c
  }

  /** The codes below the 9 node, whose code is "10". */
  lemma NineCodes(b: Node, c: Node, d: Node)
    requires LeafOf(b, 98) && LeafOf(c, 99) && LeafOf(d, 100)
    ensures LeafCodes(Merge(Merge(c, b), d), "10") == map[99 := "1000", 98 := "1001"] + map[100 := "101"]
  {
    assert "10" + "0" == "100" && "10" + "1" == "101";
    PairCodes(Merge(c, b), "100", 99, 98);
    assert "100" + "0" == "1000" && "100" + "1" == "1001";
  }

  /** The codes below the 21 node, whose code is "1". */
  lemma TwentyOneCodes(b: Node, c: Node, d: Node, e: Node)
    requires LeafOf(b, 98) && LeafOf(c, 99) && LeafOf(d, 100) && LeafOf(e, 101)
    ensures LeafCodes(Merge(Merge(Merge(c, b), d), e), "1")
      == map[99 := "1000", 98 := "1001"] + map[100 := "101"] + map[101 := "11"]
  {
    assert "1" + "0" == "10" && "1" + "1" == "11";
    NineCodes(b, c, d);
  }

  /** The codes of the test's tree, leaves a to f being 97 to 102. */
  lemma TestTreeCodes(a: Node, b: Node, c: Node, d: Node, e: Node, f: Node, codes: map<byte, string>)
    requires LeafOf(a, 97) && LeafOf(b, 98) && LeafOf(c, 99) && LeafOf(d, 100) && LeafOf(e, 101) && LeafOf(f, 102)
    requires codes == AssignCodes(Merge(Merge(f, a), Merge(Merge(Merge(c, b), d), e)), "", map[])
    ensures codes == map[102 := "00", 97 := "01", 99 := "1000", 98 := "1001", 100 := "101", 101 := "11"]
  {
    var n14, n21 := Merge(f, a), Merge(Merge(Merge(c, b), d), e);
    AssignCodesAdds(Merge(n14, n21), "", map[]);
    assert "" + "0" == "0" && "" + "1" == "1";
    PairCodes(n14, "0", 102, 97);
    assert "0" + "0" == "00" && "0" + "1" == "01";
    TwentyOneCodes(b, c, d, e);
    assert codes == map[] + (map[102 := "00", 97 := "01"] + (map[99 := "1000", 98 := "1001"] + map[100 := "101"] + map[101 := "11"]));
    CodeTable(codes);
  }

  lemma UnionUpdate(m: map<byte, string>, n: map<byte, string>, k: byte, v: string)
    ensures m + n[k := v] == (m + n)[k := v]
  {
  }

  lemma UnionEmpty(m: map<byte, string>)
    ensures map[] + m == m && m + map[] == m
  {
  }

  /** The two halves of the test's table joined, entry by entry. */
  lemma CodeTable(codes: map<byte, string>)
    requires codes == map[] + (map[102 := "00", 97 := "01"] + (map[99 := "1000", 98 := "1001"] + map[100 := "101"] + map[101 := "11"]))
    ensures codes == map[102 := "00", 97 := "01", 99 := "1000", 98 := "1001", 100 := "101", 101 := "11"]
  {
    var left := map[102 := "00", 97 := "01"];
    UnionEmpty(map[99 := "1000", 98 := "1001"]);
    UnionUpdate(map[], map[99 := "1000"], 98, "1001");
    assert map[99 := "1000", 98 := "1001"] + map[100 := "101"] == map[99 := "1000", 98 := "1001", 100 := "101"];
    assert map[99 := "1000", 98 := "1001", 100 := "101"] + map[101 := "11"] == map[99 := "1000", 98 := "1001", 100 := "101", 101 := "11"];
    UnionUpdate(left, map[99 := "1000", 98 := "1001", 100 := "101"], 101, "11");
    UnionUpdate(left, map[99 := "1000", 98 := "1001"], 100, "101");
    UnionUpdate(left, map[99 := "1000"], 98, "1001");
    UnionUpdate(left, map[], 99, "1000");
    UnionEmpty(left);
    UnionEmpty(map[102 := "00", 97 := "01", 99 := "1000", 98 := "1001", 100 := "101", 101 := "11"]);
  }

  lemma TableOrder(a: Node, b: Node, c: Node, d: Node, e: Node, f: Node)
    requires Weighs(a, 8) && Weighs(b, 3) && Weighs(c, 1) && Weighs(d, 5) && Weighs(e, 12) && Weighs(f, 6)
    ensures multiset{} + multiset{a} + multiset{b} + multiset{c} + multiset{d} + multiset{e} + multiset{f}
      == multiset{a, d, e, f} + multiset{c} + multiset{b}
  {
  }

  /** Each symbol of the test table is new when it is entered. */
  lemma TestKeys(m1: map<byte, int>, m2: map<byte, int>, m3: map<byte, int>, m4: map<byte, int>,
                 m5: map<byte, int>)
    requires m1 == map[97 := 8] && m2 == m1[98 := 3] && m3 == m2[99 := 1]
    requires m4 == m3[100 := 5] && m5 == m4[101 := 12]
    ensures 98 !in m1 && 99 !in m2 && 100 !in m3 && 101 !in m4 && 102 !in m5
  {
  }

  /** The seeded bag of the test table, entered one symbol at a time. */
  lemma TestSeeds(m1: map<byte, int>, m2: map<byte, int>, m3: map<byte, int>, m4: map<byte, int>,
                  m5: map<byte, int>, m: map<byte, int>)
    requires m1 == map[97 := 8] && m2 == m1[98 := 3] && m3 == m2[99 := 1]
    requires m4 == m3[100 := 5] && m5 == m4[101 := 12] && m == m5[102 := 6]
    ensures Seeds(m) == multiset{} + multiset{Seed(97, 8)} + multiset{Seed(98, 3)} + multiset{Seed(99, 1)}
      + multiset{Seed(100, 5)} + multiset{Seed(101, 12)} + multiset{Seed(102, 6)}
  {
    TestKeys(m1, m2, m3, m4, m5);
    SeedsAdd(map[], 97, 8);
    assert map[][97 := 8] == m1;
    SeedsAdd(m1, 98, 3);
    SeedsAdd(m2, 99, 1);
    SeedsAdd(m3, 100, 5);
    SeedsAdd(m4, 101, 12);
    SeedsAdd(m5, 102, 6);
  }

  /** The seeded leaves of the test table: their weights and symbols. */
  lemma TestLeaves(a: Node, b: Node, c: Node, d: Node, e: Node, f: Node)
    requires a == Seed(97, 8) && b == Seed(98, 3) && c == Seed(99, 1)
    requires d == Seed(100, 5) && e == Seed(101, 12) && f == Seed(102, 6)
    ensures Weighs(a, 8) && Weighs(b, 3) && Weighs(c, 1) && Weighs(d, 5) && Weighs(e, 12) && Weighs(f, 6)
    ensures LeafOf(a, 97) && LeafOf(b, 98) && LeafOf(c, 99) && LeafOf(d, 100) && LeafOf(e, 101) && LeafOf(f, 102)
  {
  }

  /** Every greedy construction from the test table ends with the test's
      tree. */
  lemma TestTree(m1: map<byte, int>, m2: map<byte, int>, m3: map<byte, int>, m4: map<byte, int>,
                 m5: map<byte, int>, m: map<byte, int>, r: Node)
    requires m1 == map[97 := 8] && m2 == m1[98 := 3] && m3 == m2[99 := 1]
    requires m4 == m3[100 := 5] && m5 == m4[101 := 12] && m == m5[102 := 6]
    requires Greedy(Seeds(m), r)
    ensures r == Merge(Merge(Seed(102, 6), Seed(97, 8)),
                       Merge(Merge(Merge(Seed(99, 1), Seed(98, 3)), Seed(100, 5)), Seed(101, 12)))
  {
    var a, b, c, d, e, f := Seed(97, 8), Seed(98, 3), Seed(99, 1), Seed(100, 5), Seed(101, 12), Seed(102, 6);
    TestSeeds(m1, m2, m3, m4, m5, m);
    TestLeaves(a, b, c, d, e, f);
    TableOrder(a, b, c, d, e, f);
    TestTreeForced(a, b, c, d, e, f, Seeds(m), r);
  }

  /** The test's tree gets the test's codes. */
  lemma TestCodes(r: Node)
    requires r == Merge(Merge(Seed(102, 6), Seed(97, 8)),
                        Merge(Merge(Merge(Seed(99, 1), Seed(98, 3)), Seed(100, 5)), Seed(101, 12)))
    ensures AssignCodes(r, "", map[]) == map[102 := "00", 97 := "01", 99 := "1000", 98 := "1001", 100 := "101", 101 := "11"]
  {
    var a, b, c, d, e, f := Seed(97, 8), Seed(98, 3), Seed(99, 1), Seed(100, 5), Seed(101, 12), Seed(102, 6);
    TestLeaves(a, b, c, d, e, f);
    TestTreeCodes(a, b, c, d, e, f, AssignCodes(r, "", map[]));
  }

  /** The builder's test: the root weighs 35 and has both children. */
  method BuildExample() returns (root: Option<Node>)
    ensures root.Some? && root.value.freq == 35
    ensures root.value.left.Some? && root.value.right.Some?
  {
    var m1: map<byte, int> := map[97 := 8];
    var m2, m3 := m1[98 := 3], m1[98 := 3][99 := 1];
    var m4, m5 := m3[100 := 5], m3[100 := 5][101 := 12];
    var m := m5[102 := 6];
    TestKeys(m1, m2, m3, m4, m5);
    TotalAdd(map[], 97, 8);
    assert map[][97 := 8] == m1;
    TotalAdd(m1, 98, 3);
    TotalAdd(m2, 99, 1);
    TotalAdd(m3, 100, 5);
    TotalAdd(m4, 101, 12);
    TotalAdd(m5, 102, 6);
    root := BuildHuffmanTree(m);
  }

  /** The code test: building the tree of {a:8, b:3, c:1, d:5, e:12, f:6}
      and assigning codes from "" gives a=01, b=1001, c=1000, d=101, e=11
      and f=00. */
  method CodesExample() returns (codes: map<byte, string>)
    ensures codes == map[102 := "00", 97 := "01", 99 := "1000", 98 := "1001", 100 := "101", 101 := "11"]
  {
    var m1: map<byte, int> := map[97 := 8];
    var m2, m3 := m1[98 := 3], m1[98 := 3][99 := 1];
    var m4, m5 := m3[100 := 5], m3[100 := 5][101 := 12];
    var m := m5[102 := 6];
    assert 97 in m;
    var root := BuildHuffmanTree(m);
    TestTree(m1, m2, m3, m4, m5, m, root.value);
    TestCodes(root.value);
    codes := AssignCodes(root.value, "", map[]);
  }
}
