/**
 * The complete comparison graph: one `Node` per file, in input order, and
 * one `Edge` per pair of files i < j, created in lexicographic (i, j) order.
 */
module ComparisonGraph {
  import opened Common

  /** A pair of vertex indices. */
  datatype VertexPair = VertexPair(left: nat, right: nat)

  /** The pairs (i, i+1), ..., (i, n-1): the edges row `i` of the nested loop creates. */
  function PairRow(n: nat, i: nat): (r: seq<VertexPair>)
    requires i < n
    ensures |r| == n - i - 1
    ensures forall k :: 0 <= k < |r| ==> r[k] == VertexPair(i, i + 1 + k)
  {
    seq(n - i - 1, k requires 0 <= k => VertexPair(i, i + 1 + k))
  }

  /** The pairs created by the first `i` rows of the nested loop, in creation order. */
  function PairsUpTo(n: nat, i: nat): (r: seq<VertexPair>)
    requires i <= n
    ensures forall e :: 0 <= e < |r| ==> r[e].left < i && r[e].left < r[e].right < n
  {
    if i == 0 then [] else PairsUpTo(n, i - 1) + PairRow(n, i - 1)
  }

  /** Every pair of distinct vertex indices of an n-vertex graph, in creation order. */
  function Pairs(n: nat): seq<VertexPair>
  {
    PairsUpTo(n, n)
  }

  /** (i1, j1) comes before (i2, j2) in lexicographic order. */
  predicate LexLess(p: VertexPair, q: VertexPair)
  {
    p.left < q.left || (p.left == q.left && p.right < q.right)
  }

  /** The first `i` rows hold i(n-1) - i(i-1)/2 pairs. */
  lemma {:induction false} PairsUpToCount(n: nat, i: nat)
    requires i <= n
    ensures 2 * |PairsUpTo(n, i)| == 2 * i * (n - 1) - i * (i - 1)
  {
    if i > 0 {
      PairsUpToCount(n, i - 1);
      assert |PairsUpTo(n, i)| == |PairsUpTo(n, i - 1)| + (n - i);
      assert (i - 1) * (n - 1) == i * (n - 1) - (n - 1);
      assert (i - 1) * (i - 2) == i * (i - 1) - 2 * (i - 1);
    }
  }

  /** An n-vertex complete graph has n(n-1)/2 edges. */
  lemma PairsCount(n: nat)
    ensures |Pairs(n)| == n * (n - 1) / 2
  {
    PairsUpToCount(n, n);
  }

  /** Pairs are created in strictly increasing lexicographic order, so none repeats. */
  lemma {:induction false} PairsUpToOrdered(n: nat, i: nat)
    requires i <= n
    ensures forall x, y :: 0 <= x < y < |PairsUpTo(n, i)| ==> LexLess(PairsUpTo(n, i)[x], PairsUpTo(n, i)[y])
  {
    if i > 0 {
      PairsUpToOrdered(n, i - 1);
      var front, row := PairsUpTo(n, i - 1), PairRow(n, i - 1);
      assert PairsUpTo(n, i) == front + row;
      forall x, y | 0 <= x < y < |front + row| ensures LexLess((front + row)[x], (front + row)[y]) {
        if y < |front| {
          assert LexLess(front[x], front[y]);
        } else if x < |front| {
          assert front[x].left < i - 1 && row[y - |front|].left == i - 1;
        } else {
          assert row[x - |front|].right < row[y - |front|].right;
        }
      }
    }
  }

  lemma PairsOrdered(n: nat)
    ensures forall x, y :: 0 <= x < y < |Pairs(n)| ==> LexLess(Pairs(n)[x], Pairs(n)[y])
    ensures forall x, y :: 0 <= x < y < |Pairs(n)| ==> Pairs(n)[x] != Pairs(n)[y]
  {
    PairsUpToOrdered(n, n);
  }

  /** Every pair i < j < n is among the pairs of the first `m` rows when i < m. */
  lemma {:induction false} PairsUpToCover(n: nat, m: nat, i: nat, j: nat) returns (e: nat)
    requires i < j < n && i < m <= n
    ensures e < |PairsUpTo(n, m)| && PairsUpTo(n, m)[e] == VertexPair(i, j)
  {
    if m - 1 == i {
      e := |PairsUpTo(n, i)| + (j - i - 1);
      assert PairRow(n, i)[j - i - 1] == VertexPair(i, j);
    } else {
      e := PairsUpToCover(n, m - 1, i, j);
    }
  }

  /** Every pair i < j < n is an edge of the complete graph. */
  lemma PairsCover(n: nat, i: nat, j: nat) returns (e: nat)
    requires i < j < n
    ensures e < |Pairs(n)| && Pairs(n)[e] == VertexPair(i, j)
  {
    e := PairsUpToCover(n, n, i, j);
  }

  /** A file: its name and its bytes, never changed after creation. */
  class Node {
    const name: string
    const bytes: seq<Byte>

    constructor (name: string, bytes: seq<Byte>)
      ensures this.name == name && this.bytes == bytes
    {
      this.name := name;
      this.bytes := bytes;
    }
  }

  /** The comparison of two files: the longest shared run, its offsets and its signature. */
  class Edge {
    const left: Node
    const right: Node
    var len: int
    var leftOffset: int
    var rightOffset: int
    var byte: int

    /** The state of an edge that no comparison has filled in yet. */
    ghost predicate Blank()
      reads this
    {
      len == 0 && leftOffset == 0 && rightOffset == 0 && byte == 0
    }

    constructor (left: Node, right: Node)
      ensures this.left == left && this.right == right
      ensures len == 0 && leftOffset == 0 && rightOffset == 0 && byte == 0
    {
      this.left := left;
      this.right := right;
      len, leftOffset, rightOffset, byte := 0, 0, 0, 0;
    }

    method SetLen(len: int)
      modifies this
      ensures this.len == len
      ensures leftOffset == old(leftOffset) && rightOffset == old(rightOffset) && byte == old(byte)
    {
      this.len := len;
    }

    /** Each offset only ever grows: it becomes the larger of its old and its new value. */
    method SetOffsets(offsetLeft: int, offsetRight: int)
      modifies this
      ensures leftOffset == Max(old(leftOffset), offsetLeft)
      ensures rightOffset == Max(old(rightOffset), offsetRight)
      ensures len == old(len) && byte == old(byte)
    {
      if leftOffset < offsetLeft {
        leftOffset := offsetLeft;
      }
      if rightOffset < offsetRight {
        rightOffset := offsetRight;
      }
    }

    method SetByte(byte: int)
      modifies this
      ensures this.byte == byte
      ensures len == old(len) && leftOffset == old(leftOffset) && rightOffset == old(rightOffset)
    {
      this.byte := byte;
    }
  }

  /** The complete graph over the files. */
  class Graph {
    var vertices: seq<Node>
    var edges: seq<Edge>

    /**
     * The shape the constructor builds: vertex v is file v, and edge e joins
     * the vertices of the e-th pair in lexicographic order; no vertex and no
     * edge object occurs twice.
     */
    ghost predicate Complete(inputs: seq<seq<Byte>>, names: seq<string>)
      reads this
    {
      |inputs| <= |names| &&
      |vertices| == |inputs| &&
      (forall v :: 0 <= v < |vertices| ==> vertices[v].name == names[v] && vertices[v].bytes == inputs[v]) &&
      (forall v, w :: 0 <= v < w < |vertices| ==> vertices[v] != vertices[w]) &&
      |edges| == |Pairs(|inputs|)| &&
      (forall e :: 0 <= e < |edges| ==>
         edges[e].left == vertices[Pairs(|inputs|)[e].left] && edges[e].right == vertices[Pairs(|inputs|)[e].right]) &&
      (forall e, f :: 0 <= e < f < |edges| ==> edges[e] != edges[f])
    }

    constructor (inputs: seq<seq<Byte>>, names: seq<string>)
      requires |inputs| <= |names|
      ensures Complete(inputs, names)
      ensures forall v :: 0 <= v < |vertices| ==> fresh(vertices[v])
      ensures forall e :: 0 <= e < |edges| ==> fresh(edges[e]) && edges[e].Blank()
    {
      var vs := NewVertices(inputs, names);
      var es := NewEdges(vs);
      vertices := vs;
      edges := es;
    }
  }

  /** The first loop of the graph constructor: one node per file, in input order. */
  method NewVertices(inputs: seq<seq<Byte>>, names: seq<string>) returns (vs: seq<Node>)
    requires |inputs| <= |names|
    ensures |vs| == |inputs|
    ensures forall v :: 0 <= v < |vs| ==> fresh(vs[v]) && vs[v].name == names[v] && vs[v].bytes == inputs[v]
    ensures forall v, w :: 0 <= v < w < |vs| ==> vs[v] != vs[w]
  {
    vs := [];
    for i := 0 to |inputs|
      invariant |vs| == i
      invariant forall v :: 0 <= v < i ==> fresh(vs[v]) && vs[v].name == names[v] && vs[v].bytes == inputs[v]
      invariant forall v, w :: 0 <= v < w < i ==> vs[v] != vs[w]
    {
      var node := new Node(names[i], inputs[i]);
      vs := vs + [node];
    }
  }

  /** The nested loops of the graph constructor: one blank edge per pair i < j, in lexicographic order. */
  method NewEdges(vs: seq<Node>) returns (es: seq<Edge>)
    ensures |es| == |Pairs(|vs|)|
    ensures forall e :: 0 <= e < |es| ==>
      es[e].left == vs[Pairs(|vs|)[e].left] && es[e].right == vs[Pairs(|vs|)[e].right]
    ensures forall e :: 0 <= e < |es| ==> fresh(es[e]) && es[e].Blank()
    ensures forall e, f :: 0 <= e < f < |es| ==> es[e] != es[f]
  {
    var n := |vs|;
    es := [];
    for i := 0 to n
      invariant |es| == |PairsUpTo(n, i)|
      invariant forall e :: 0 <= e < |es| ==>
        es[e].left == vs[PairsUpTo(n, i)[e].left] && es[e].right == vs[PairsUpTo(n, i)[e].right]
      invariant forall e :: 0 <= e < |es| ==> fresh(es[e]) && es[e].Blank()
      invariant forall e, f :: 0 <= e < f < |es| ==> es[e] != es[f]
    {
      var row := NewRowEdges(vs, i);
      assert PairsUpTo(n, i + 1) == PairsUpTo(n, i) + PairRow(n, i);
      es := es + row;
    }
  }

  /** The inner loop of the graph constructor: the edges (i, i+1), ..., (i, n-1). */
  method NewRowEdges(vs: seq<Node>, i: nat) returns (row: seq<Edge>)
    requires i < |vs|
    ensures |row| == |vs| - i - 1
    ensures forall k :: 0 <= k < |row| ==> row[k].left == vs[i] && row[k].right == vs[i + 1 + k]
    ensures forall k :: 0 <= k < |row| ==> fresh(row[k]) && row[k].Blank()
    ensures forall k, l :: 0 <= k < l < |row| ==> row[k] != row[l]
  {
    row := [];
    for j := i + 1 to |vs|
      invariant |row| == j - i - 1
      invariant forall k :: 0 <= k < |row| ==> row[k].left == vs[i] && row[k].right == vs[i + 1 + k]
      invariant forall k :: 0 <= k < |row| ==> fresh(row[k]) && row[k].Blank()
      invariant forall k, l :: 0 <= k < l < |row| ==> row[k] != row[l]
    {
      var edge := new Edge(vs[i], vs[j]);
      row := row + [edge];
    }
  }

  /**
   * The graph built from n files has n vertices and n(n-1)/2 edges; no edge
   * joins a vertex to itself and no two edges join the same two vertices,
   * in either order.
   */
  lemma CompleteShape(g: Graph, inputs: seq<seq<Byte>>, names: seq<string>)
    requires g.Complete(inputs, names)
    ensures |g.vertices| == |inputs| && |g.edges| == |inputs| * (|inputs| - 1) / 2
    ensures forall e :: 0 <= e < |g.edges| ==> g.edges[e].left != g.edges[e].right
    ensures forall e, f :: 0 <= e < f < |g.edges| ==>
      !(g.edges[e].left == g.edges[f].left && g.edges[e].right == g.edges[f].right)
    ensures forall e, f :: 0 <= e < f < |g.edges| ==>
      !(g.edges[e].left == g.edges[f].right && g.edges[e].right == g.edges[f].left)
  {
    var n := |inputs|;
    PairsCount(n);
    PairsOrdered(n);
    forall e, f | 0 <= e < f < |g.edges|
      ensures !(g.edges[e].left == g.edges[f].left && g.edges[e].right == g.edges[f].right)
      ensures !(g.edges[e].left == g.edges[f].right && g.edges[e].right == g.edges[f].left)
    {
      var p, q := Pairs(n)[e], Pairs(n)[f];
      assert p != q;
      if p.left != q.left {
        assert g.vertices[p.left] != g.vertices[q.left];
      } else {
        assert g.vertices[p.right] != g.vertices[q.right];
      }
      // In lexicographic order p.left <= q.left < q.right, so the first
      // endpoint of edge e cannot be the second endpoint of edge f.
      assert g.vertices[p.left] != g.vertices[q.right];
    }
  }
}
