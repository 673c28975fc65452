/**
 * The Huffman tree: `HuffmanNode`, `buildHuffmanTree` and `buildCodeTable`.
 *
 * A node never changes after the loop that builds the tree has linked it,
 * so nodes are values.  `nodes.sort((a, b) => a.freq - b.freq)` is a stable
 * sort (ECMAScript 2019 requires `Array.prototype.sort` to be stable), so its
 * result is determined: SortByFreq is a stable insertion sort.
 */
module HuffmanTree {
  import opened Base
  import opened OrderedMap

  type Str = seq<char>

  /** `HuffmanNode`: a leaf holds a character; an inner node (whose `char` is null) holds two children. */
  datatype Node = Leaf(symbol: char, freq: int) | Inner(freq: int, left: Node, right: Node)

  /** The characters at the leaves, left to right. */
  function Leaves(n: Node): seq<char> {
    match n
    case Leaf(c, _) => [c]
    case Inner(_, l, r) => Leaves(l) + Leaves(r)
  }

  /** Every inner node's frequency is the sum of its children's. */
  predicate Weighted(n: Node) {
    match n
    case Leaf(_, _) => true
    case Inner(f, l, r) => f == l.freq + r.freq && Weighted(l) && Weighted(r)
  }

  // ---------------------------------------------------------------------------
  // Sorting by frequency
  // ---------------------------------------------------------------------------

  predicate SortedByFreq(xs: seq<Node>) {
    forall i, j :: 0 <= i < j < |xs| ==> xs[i].freq <= xs[j].freq
  }

  /** Every node of xs has frequency at least b. */
  predicate AtLeast(xs: seq<Node>, b: int) {
    forall i :: 0 <= i < |xs| ==> b <= xs[i].freq
  }

  /** The first position at or after i whose node is not lighter than x. */
  function PlaceFrom(x: Node, s: seq<Node>, i: nat): (k: nat)
    requires i <= |s|
    ensures i <= k <= |s| && (forall j :: i <= j < k ==> s[j].freq < x.freq)
    ensures k < |s| ==> x.freq <= s[k].freq
    decreases |s| - i
  {
    if i == |s| || x.freq <= s[i].freq then i else PlaceFrom(x, s, i + 1)
  }

  /** Insert x before the first node of s that is not lighter than x. */
  function Insert(x: Node, s: seq<Node>): (r: seq<Node>)
    ensures |r| == |s| + 1
  {
    var k := PlaceFrom(x, s, 0);
    seq(|s| + 1, i requires 0 <= i <= |s| => if i < k then s[i] else if i == k then x else s[i - 1])
  }

  /** Where each node of s ends up: before the place of x, at it, or one after. */
  lemma InsertAt(x: Node, s: seq<Node>)
    ensures var k := PlaceFrom(x, s, 0); var r := Insert(x, s);
      forall i :: 0 <= i < |r| ==> r[i] == if i < k then s[i] else if i == k then x else s[i - 1]
  {
  }

  /** The insertion splits s at the place of x. */
  lemma InsertSplit(x: Node, s: seq<Node>)
    ensures var k := PlaceFrom(x, s, 0);
      Insert(x, s) == s[..k] + ([x] + s[k..]) && s == s[..k] + s[k..]
  {
    var k := PlaceFrom(x, s, 0);
    var a, b := s[..k], s[k..];
    var r, t := Insert(x, s), a + ([x] + b);
    assert |r| == |t|;
    forall i | 0 <= i < |r| ensures r[i] == t[i] {
      if i < k {
        assert t[i] == a[i];
      } else if i > k {
        assert t[i] == b[i - k - 1];
      }
    }
  }

  lemma InsertFacts(x: Node, s: seq<Node>)
    ensures multiset(Insert(x, s)) == multiset(s) + multiset{x}
    ensures SortedByFreq(s) ==> SortedByFreq(Insert(x, s))
  {
    var k := PlaceFrom(x, s, 0);
    var a, b := s[..k], s[k..];
    InsertSplit(x, s);
    calc {
      multiset(Insert(x, s));
      multiset(a) + (multiset{x} + multiset(b));
      multiset(s) + multiset{x};
    }
    if SortedByFreq(s) {
      InsertSorted(x, s);
    }
  }

  lemma InsertSorted(x: Node, s: seq<Node>)
    requires SortedByFreq(s)
    ensures SortedByFreq(Insert(x, s))
  {
    var k := PlaceFrom(x, s, 0);
    var r := Insert(x, s);
    InsertAt(x, s);
    forall i, j | 0 <= i < j < |r| ensures r[i].freq <= r[j].freq {
      if j == k {
        assert r[i] == s[i];
      } else if i == k {
        assert r[j] == s[j - 1];
      } else if j < k {
        assert r[i] == s[i] && r[j] == s[j];
      } else if i > k {
        assert r[i] == s[i - 1] && r[j] == s[j - 1];
      } else {
        assert r[i] == s[i] && r[j] == s[j - 1];
      }
    }
  }

  /** `nodes.sort((a, b) => a.freq - b.freq)`. */
  function SortByFreq(xs: seq<Node>): (r: seq<Node>)
    ensures |r| == |xs|
  {
    if xs == [] then [] else Insert(xs[0], SortByFreq(xs[1..]))
  }

  /** The sort is a permutation and leaves the nodes in order of frequency. */
  lemma {:induction false} SortFacts(xs: seq<Node>)
    ensures multiset(SortByFreq(xs)) == multiset(xs) && SortedByFreq(SortByFreq(xs))
  {
    if xs != [] {
      SortFacts(xs[1..]);
      InsertFacts(xs[0], SortByFreq(xs[1..]));
      assert xs == [xs[0]] + xs[1..];
    }
  }

  /** The nodes of xs with frequency f, in order. */
  function WithFreq(xs: seq<Node>, f: int): seq<Node> {
    if xs == [] then []
    else if xs[0].freq == f then [xs[0]] + WithFreq(xs[1..], f)
    else WithFreq(xs[1..], f)
  }

  lemma {:induction false} WithFreqAppend(a: seq<Node>, b: seq<Node>, f: int)
    ensures WithFreq(a + b, f) == WithFreq(a, f) + WithFreq(b, f)
    decreases |a|
  {
    if a == [] {
      assert a + b == b;
    } else {
      assert (a + b)[0] == a[0] && (a + b)[1..] == a[1..] + b;
      WithFreqAppend(a[1..], b, f);
    }
  }

  lemma {:induction false} WithFreqNone(a: seq<Node>, f: int)
    requires forall i :: 0 <= i < |a| ==> a[i].freq != f
    ensures WithFreq(a, f) == []
    decreases |a|
  {
    if a != [] {
      WithFreqNone(a[1..], f);
    }
  }

  lemma InsertStable(x: Node, s: seq<Node>, f: int)
    ensures WithFreq(Insert(x, s), f) == if x.freq == f then [x] + WithFreq(s, f) else WithFreq(s, f)
  {
    var k := PlaceFrom(x, s, 0);
    InsertSplit(x, s);
    StableSplit(s[..k], s[k..], x, f);
  }

  /** x placed after nodes lighter than itself keeps its place among the nodes of its own frequency. */
  lemma StableSplit(a: seq<Node>, b: seq<Node>, x: Node, f: int)
    requires forall i :: 0 <= i < |a| ==> a[i].freq < x.freq
    ensures WithFreq(a + ([x] + b), f) == if x.freq == f then [x] + WithFreq(a + b, f) else WithFreq(a + b, f)
  {
    WithFreqAppend(a, [x] + b, f);
    WithFreqAppend([x], b, f);
    WithFreqAppend(a, b, f);
    assert WithFreq([x], f) == if x.freq == f then [x] else [] by {
      assert [x][1..] == [];
    }
    if x.freq == f {
      WithFreqNone(a, f);
    }
  }

  /** The sort is stable: for each frequency, the nodes with it keep their order. */
  lemma {:induction false} SortStable(xs: seq<Node>, f: int)
    ensures WithFreq(SortByFreq(xs), f) == WithFreq(xs, f)
  {
    if xs != [] {
      SortStable(xs[1..], f);
      InsertStable(xs[0], SortByFreq(xs[1..]), f);
    }
  }

  // ---------------------------------------------------------------------------
  // What a list of nodes holds
  // ---------------------------------------------------------------------------

  /** The frequencies of a list of nodes, summed. */
  function Weight(xs: seq<Node>): int {
    if xs == [] then 0 else xs[0].freq + Weight(xs[1..])
  }

  /** How many leaves of n hold c. */
  function Occurrences(n: Node, c: char): nat {
    match n
    case Leaf(d, _) => if c == d then 1 else 0
    case Inner(_, l, r) => Occurrences(l, c) + Occurrences(r, c)
  }

  /** How many leaves of a list of nodes hold c. */
  function Count(xs: seq<Node>, c: char): nat {
    if xs == [] then 0 else Occurrences(xs[0], c) + Count(xs[1..], c)
  }

  /** Every node of the list is Weighted. */
  predicate AllWeighted(xs: seq<Node>) {
    forall i :: 0 <= i < |xs| ==> Weighted(xs[i])
  }

  lemma {:induction false} Measures(xs: seq<Node>, a: seq<Node>, b: seq<Node>, c: char)
    requires xs == a + b
    ensures Weight(xs) == Weight(a) + Weight(b) && Count(xs, c) == Count(a, c) + Count(b, c)
    decreases |a|
  {
    if a == [] {
      assert xs == b;
    } else {
      assert xs[0] == a[0] && xs[1..] == a[1..] + b;
      Measures(xs[1..], a[1..], b, c);
    }
  }

  lemma InsertMeasures(x: Node, s: seq<Node>, c: char)
    ensures Weight(Insert(x, s)) == x.freq + Weight(s)
    ensures Count(Insert(x, s), c) == Occurrences(x, c) + Count(s, c)
  {
    var k := PlaceFrom(x, s, 0);
    var a, b := s[..k], s[k..];
    InsertSplit(x, s);
    Measures(Insert(x, s), a, [x] + b, c);
    Measures([x] + b, [x], b, c);
    Measures(s, a, b, c);
    Single(x, c);
  }

  lemma Single(x: Node, c: char)
    ensures Weight([x]) == x.freq && Count([x], c) == Occurrences(x, c)
  {
    assert [x][1..] == [];
  }

  lemma {:induction false} SortMeasures(xs: seq<Node>, c: char)
    ensures Weight(SortByFreq(xs)) == Weight(xs) && Count(SortByFreq(xs), c) == Count(xs, c)
  {
    if xs != [] {
      SortMeasures(xs[1..], c);
      InsertMeasures(xs[0], SortByFreq(xs[1..]), c);
    }
  }

  // ---------------------------------------------------------------------------
  // Building the tree
  // ---------------------------------------------------------------------------

  /** One iteration of the while loop: sort, shift the two lightest nodes, push their parent. */
  function Merge(xs: seq<Node>): (r: seq<Node>)
    requires |xs| >= 2
    ensures |r| == |xs| - 1
  {
    Combine(SortByFreq(xs))
  }

  /** `shift` the first two nodes and `push` their parent. */
  function Combine(s: seq<Node>): (r: seq<Node>)
    requires |s| >= 2
    ensures |r| == |s| - 1
  {
    seq(|s| - 1, i requires 0 <= i < |s| - 1 => if i < |s| - 2 then s[i + 2] else Inner(s[0].freq + s[1].freq, s[0], s[1]))
  }

  /** A merge keeps the total frequency and the leaves. */
  lemma MergeMeasures(xs: seq<Node>, c: char)
    requires |xs| >= 2
    ensures Weight(Merge(xs)) == Weight(xs) && Count(Merge(xs), c) == Count(xs, c)
  {
    SortMeasures(xs, c);
    CombineMeasures(SortByFreq(xs), c);
  }

  lemma CombineMeasures(s: seq<Node>, c: char)
    requires |s| >= 2
    ensures Weight(Combine(s)) == Weight(s) && Count(Combine(s), c) == Count(s, c)
  {
    var p := Inner(s[0].freq + s[1].freq, s[0], s[1]);
    Measures(Combine(s), s[2..], [p], c);
    assert s == [s[0]] + ([s[1]] + s[2..]);
    Measures(s, [s[0]], [s[1]] + s[2..], c);
    Measures([s[1]] + s[2..], [s[1]], s[2..], c);
    Single(p, c);
    Single(s[0], c);
    Single(s[1], c);
  }

  /** Two `shift`s and a `push` are Combine. */
  lemma ShiftTwice(s: seq<Node>)
    requires |s| >= 2
    ensures s[1..][1..] + [Inner(s[0].freq + s[1..][0].freq, s[0], s[1..][0])] == Combine(s)
  {
    assert s[1..][1..] == s[2..] && s[1..][0] == s[1];
  }

  /** A merge keeps every node Weighted. */
  lemma MergeWeighted(xs: seq<Node>)
    requires |xs| >= 2 && AllWeighted(xs)
    ensures AllWeighted(Merge(xs))
  {
    var s := SortByFreq(xs);
    SortFacts(xs);
    forall i | 0 <= i < |s| ensures Weighted(s[i]) {
      assert s[i] in multiset(xs);
    }
  }

  /** The new parent's children are two lightest nodes: every other node weighs at least as much. */
  lemma MergeLightest(xs: seq<Node>)
    requires |xs| >= 2
    ensures var p := Merge(xs)[|xs| - 2];
      && p.Inner? && multiset{p.left, p.right} <= multiset(xs) && p.left.freq <= p.right.freq
      && forall y :: y in multiset(xs) - multiset{p.left, p.right} ==> p.right.freq <= y.freq
  {
    var s := SortByFreq(xs);
    SortFacts(xs);
    assert s == [s[0], s[1]] + s[2..];
    assert multiset(s) == multiset{s[0], s[1]} + multiset(s[2..]);
    forall y | y in multiset(s) - multiset{s[0], s[1]} ensures s[1].freq <= y.freq {
      assert y in s[2..];
    }
  }

  /** `buildHuffmanTree` from the list of leaves: `nodes[0] || null` once at most one node is left. */
  function BuildTree(xs: seq<Node>): (r: Option<Node>)
    ensures r.None? <==> xs == []
    decreases |xs|
  {
    if |xs| == 0 then None else if |xs| == 1 then Some(xs[0]) else BuildTree(Merge(xs))
  }

  /** Merging is one round of the loop: the tree it ends with is the same. */
  lemma MergeKeepsTree(xs: seq<Node>, s: seq<Node>)
    requires |xs| >= 2 && s == SortByFreq(xs)
    ensures BuildTree(s[1..][1..] + [Inner(s[0].freq + s[1..][0].freq, s[0], s[1..][0])]) == BuildTree(xs)
  {
    ShiftTwice(s);
  }

  /** The root carries the total frequency, holds every leaf, and every inner node weighs its children. */
  lemma {:induction false} BuildTreeMeasures(xs: seq<Node>, c: char)
    requires xs != []
    ensures var root := BuildTree(xs).value;
      root.freq == Weight(xs) && Occurrences(root, c) == Count(xs, c) && (AllWeighted(xs) ==> Weighted(root))
    decreases |xs|
  {
    if |xs| == 1 {
      Single(xs[0], c);
    } else {
      MergeMeasures(xs, c);
      if AllWeighted(xs) {
        MergeWeighted(xs);
      }
      BuildTreeMeasures(Merge(xs), c);
    }
  }

  /** A character that is at a leaf is counted there. */
  lemma {:induction false} LeafOccurs(n: Node, i: nat)
    requires i < |Leaves(n)|
    ensures Occurrences(n, Leaves(n)[i]) >= 1
  {
    if n.Inner? {
      var a, b := Leaves(n.left), Leaves(n.right);
      if i < |a| {
        assert Leaves(n)[i] == a[i];
        LeafOccurs(n.left, i);
      } else {
        assert Leaves(n)[i] == b[i - |a|];
        LeafOccurs(n.right, i - |a|);
      }
    }
  }

  /** c is counted in n exactly when it is at one of n's leaves. */
  lemma {:induction false} OccursIsLeaf(n: Node, c: char)
    ensures Occurrences(n, c) > 0 <==> c in Leaves(n)
  {
    if n.Inner? {
      OccursIsLeaf(n.left, c);
      OccursIsLeaf(n.right, c);
    }
  }

  /** A tree in which no character occurs twice has distinct leaves. */
  lemma {:induction false} OnceEachDistinct(n: Node)
    requires forall c :: Occurrences(n, c) <= 1
    ensures Distinct(Leaves(n))
  {
    if n.Inner? {
      var a, b := Leaves(n.left), Leaves(n.right);
      assert forall c :: Occurrences(n.left, c) <= Occurrences(n, c);
      assert forall c :: Occurrences(n.right, c) <= Occurrences(n, c);
      OnceEachDistinct(n.left);
      OnceEachDistinct(n.right);
      var t := a + b;
      forall i, j | 0 <= i < j < |t| ensures t[i] != t[j] {
        if i < |a| && j >= |a| {
          LeafOccurs(n.left, i);
          LeafOccurs(n.right, j - |a|);
          assert t[i] == a[i] && t[j] == b[j - |a|];
          assert Occurrences(n, t[i]) <= 1;
        } else if i < |a| {
          assert t[i] == a[i] && t[j] == a[j];
        } else {
          assert t[i] == b[i - |a|] && t[j] == b[j - |a|];
        }
      }
    }
  }

  /** The leaves `Array.from(freq.entries()).map(...)` makes, one per entry, in insertion order. */
  function LeafList(freq: Entries<char, int>): (xs: seq<Node>)
    ensures |xs| == |freq| && AllWeighted(xs)
    ensures forall i :: 0 <= i < |xs| ==> xs[i] == Leaf(freq[i].0, freq[i].1)
  {
    seq(|freq|, i requires 0 <= i < |freq| => Leaf(freq[i].0, freq[i].1))
  }

  /** `buildHuffmanTree`. */
  method BuildHuffmanTree(freq: Entries<char, int>) returns (root: Option<Node>)
    ensures root == BuildTree(LeafList(freq))
  {
    var nodes := LeafList(freq);
    ghost var tree := BuildTree(nodes);
    while |nodes| > 1
      invariant BuildTree(nodes) == tree
      decreases |nodes|
    {
      ghost var before := nodes;
      nodes := SortByFreq(nodes);
      MergeKeepsTree(before, nodes);
      var left := nodes[0];
      nodes := nodes[1..];
      var right := nodes[0];
      nodes := nodes[1..];
      var parent := Inner(left.freq + right.freq, left, right);
      nodes := nodes + [parent];
    }
    root := if |nodes| == 1 then Some(nodes[0]) else None;
  }

  // ---------------------------------------------------------------------------
  // The code table
  // ---------------------------------------------------------------------------

  /**
   * The entries `buildCodeTable(n, prefix)` sets, in order: a leaf gets the
   * path to it (left = '0', right = '1'), or "0" when the path is empty.
   */
  function Paths(n: Node, prefix: Str): (t: seq<(char, Str)>)
    ensures |t| == |Leaves(n)|
  {
    match n
    case Leaf(c, _) => [(c, if prefix == [] then "0" else prefix)]
    case Inner(_, l, r) => Paths(l, prefix + "0") + Paths(r, prefix + "1")
  }

  /** `buildCodeTable(root)`: the Map those `table.set` calls build; null gives the empty table. */
  function CodeTable(root: Option<Node>): Entries<char, Str> {
    match root
    case None => []
    case Some(n) => var t := Paths(n, []); SetAll([], t, |t|)
  }

  predicate IsPrefix(a: Str, b: Str) {
    |a| <= |b| && forall k :: 0 <= k < |a| ==> a[k] == b[k]
  }

  predicate IsBinary(s: Str) {
    forall k :: 0 <= k < |s| ==> s[k] == '0' || s[k] == '1'
  }

  /** No code is a prefix of another entry's code (in particular no two codes are equal). */
  predicate PrefixFree(t: seq<(char, Str)>) {
    forall i, j :: 0 <= i < |t| && 0 <= j < |t| && i != j ==> !IsPrefix(t[i].1, t[j].1)
  }

  /** The keys of the code table are the leaves, left to right. */
  lemma {:induction false} PathsKeys(n: Node, prefix: Str)
    ensures Keys(Paths(n, prefix)) == Leaves(n)
  {
    if n.Inner? {
      var a, b := Paths(n.left, prefix + "0"), Paths(n.right, prefix + "1");
      PathsKeys(n.left, prefix + "0");
      PathsKeys(n.right, prefix + "1");
      assert Keys(a + b) == Keys(a) + Keys(b);
    }
  }

  /**
   * Every code extends the prefix, is non-empty, and is binary when the
   * prefix is; below an inner node it is strictly longer than the prefix.
   */
  lemma {:induction false} PathsCodes(n: Node, prefix: Str)
    ensures forall i :: 0 <= i < |Paths(n, prefix)| ==>
      var code := Paths(n, prefix)[i].1;
      && IsPrefix(prefix, code) && code != []
      && (IsBinary(prefix) ==> IsBinary(code))
      && (n.Inner? ==> |code| > |prefix|)
  {
    if n.Inner? {
      var p0, p1 := prefix + "0", prefix + "1";
      PathsCodes(n.left, p0);
      PathsCodes(n.right, p1);
      var a, b := Paths(n.left, p0), Paths(n.right, p1);
      var t := a + b;
      forall i | 0 <= i < |t|
        ensures var code := t[i].1;
          IsPrefix(prefix, code) && (IsBinary(prefix) ==> IsBinary(code)) && |code| > |prefix|
      {
        var code := t[i].1;
        var q := if i < |a| then p0 else p1;
        assert IsPrefix(q, code);
        assert IsBinary(prefix) ==> IsBinary(q);
      }
    }
  }

  /** The codes are root-to-leaf paths, so none is a prefix of another. */
  lemma {:induction false} PathsPrefixFree(n: Node, prefix: Str)
    ensures PrefixFree(Paths(n, prefix))
  {
    if n.Inner? {
      var p0, p1 := prefix + "0", prefix + "1";
      PathsPrefixFree(n.left, p0);
      PathsPrefixFree(n.right, p1);
      PathsCodes(n.left, p0);
      PathsCodes(n.right, p1);
      var a, b := Paths(n.left, p0), Paths(n.right, p1);
      var t := a + b;
      forall i, j | 0 <= i < |t| && 0 <= j < |t| && i != j ensures !IsPrefix(t[i].1, t[j].1) {
        if i < |a| && j < |a| {
          assert t[i] == a[i] && t[j] == a[j];
        } else if i >= |a| && j >= |a| {
          assert t[i] == b[i - |a|] && t[j] == b[j - |a|];
        } else {
          var x, y := t[i].1, t[j].1;
          assert IsPrefix(if i < |a| then p0 else p1, x);
          assert IsPrefix(if j < |a| then p0 else p1, y);
          assert x[|prefix|] != y[|prefix|];
        }
      }
    }
  }

  /** With distinct leaves, the Map holds the paths themselves, in the order they were set. */
  lemma CodeTableIsPaths(n: Node)
    requires Distinct(Leaves(n))
    ensures CodeTable(Some(n)) == Paths(n, [])
  {
    var t := Paths(n, []);
    PathsKeys(n, []);
    SetAllFresh(t, |t|);
    assert t[..|t|] == t;
  }

  /** A tree that is a single leaf gets the code "0". */
  lemma SingleSymbol(c: char, f: int)
    ensures CodeTable(Some(Leaf(c, f))) == [(c, "0")]
  {
    CodeTableIsPaths(Leaf(c, f));
  }
}
