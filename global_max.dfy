/**
 * `graph_pairs`: build the comparison graph, fill every edge with the
 * pairwise engine, and select in one scan the edges of maximal length.
 */
module GlobalMax {
  import opened Common
  import opened LongestRun
  import opened PairwiseLcs
  import opened ComparisonGraph

  /** The selector's state: `max_val` and the indices of the edges in `max_list`. */
  datatype Selection = Selection(maxVal: nat, winners: seq<nat>)

  /**
   * The selection pass over the first `n` edges, with lengths `lens` and
   * signatures `sigs`: a strictly longer edge restarts the list, an edge of
   * equal length joins it if its signature equals that of the list's first
   * edge, and an equal length met while the list is still empty reads
   * `max_list[0]` and fails.
   */
  function SelectUpTo(lens: seq<nat>, sigs: seq<int>, n: nat): (r: Result<Selection>)
    requires n <= |lens| && |sigs| == |lens|
    ensures r.Ok? ==> forall k :: 0 <= k < |r.value.winners| ==>
      r.value.winners[k] < n && lens[r.value.winners[k]] == r.value.maxVal
  {
    if n == 0 then Ok(Selection(0, []))
    else
      match SelectUpTo(lens, sigs, n - 1)
      case Err(e) => Err(e)
      case Ok(s) =>
        var len := lens[n - 1];
        if len > s.maxVal then Ok(Selection(len, [n - 1]))
        else if len == s.maxVal then
          if s.winners == [] then Err(IndexError)
          else if sigs[n - 1] == sigs[s.winners[0]] then Ok(Selection(s.maxVal, s.winners + [n - 1]))
          else Ok(s)
        else Ok(s)
  }

  /** The largest of the first `n` lengths, 0 when n is 0. */
  function PrefixMax(lens: seq<nat>, n: nat): (m: nat)
    requires n <= |lens|
    ensures forall k :: 0 <= k < n ==> lens[k] <= m
    ensures n > 0 ==> exists k :: 0 <= k < n && lens[k] == m
  {
    if n == 0 then 0 else Max(PrefixMax(lens, n - 1), lens[n - 1])
  }

  /** The indices below `n` whose length is `m`, in increasing order. */
  function IndicesOf(lens: seq<nat>, m: nat, n: nat): (r: seq<nat>)
    requires n <= |lens|
    ensures forall k :: 0 <= k < |r| ==> r[k] < n && lens[r[k]] == m
    ensures forall k :: 0 <= k < n && lens[k] == m ==> k in r
    ensures forall x, y :: 0 <= x < y < |r| ==> r[x] < r[y]
  {
    if n == 0 then []
    else IndicesOf(lens, m, n - 1) + (if lens[n - 1] == m then [n - 1] else [])
  }

  /** No index below `n` has a length above the prefix maximum. */
  lemma {:induction false} IndicesOfAboveMax(lens: seq<nat>, m: nat, n: nat)
    requires n <= |lens| && PrefixMax(lens, n) < m
    ensures IndicesOf(lens, m, n) == []
  {
    if n > 0 {
      IndicesOfAboveMax(lens, m, n - 1);
    }
  }

  /** When the first edge has a positive length the list is never empty, and nothing fails. */
  lemma {:induction false} SelectNeverFails(lens: seq<nat>, sigs: seq<int>, n: nat)
    requires 1 <= n <= |lens| && |sigs| == |lens| && lens[0] > 0
    ensures SelectUpTo(lens, sigs, n).Ok?
    ensures SelectUpTo(lens, sigs, n).value.maxVal == PrefixMax(lens, n)
    ensures SelectUpTo(lens, sigs, n).value.winners != []
  {
    if n > 1 {
      SelectNeverFails(lens, sigs, n - 1);
    }
  }

  /** A first edge of length 0 meets the empty list and fails, and the failure persists. */
  lemma {:induction false} SelectFailsOnZeroFirst(lens: seq<nat>, sigs: seq<int>, n: nat)
    requires 1 <= n <= |lens| && |sigs| == |lens| && lens[0] == 0
    ensures SelectUpTo(lens, sigs, n) == Err(IndexError)
  {
    if n > 1 {
      SelectFailsOnZeroFirst(lens, sigs, n - 1);
    }
  }

  /** The pass over the first n edges fails exactly when n > 0 and the first length is 0. */
  lemma SelectFailsIff(lens: seq<nat>, sigs: seq<int>, n: nat)
    requires n <= |lens| && |sigs| == |lens|
    ensures SelectUpTo(lens, sigs, n).Err? <==> n > 0 && lens[0] == 0
  {
    if n > 0 {
      if lens[0] == 0 {
        SelectFailsOnZeroFirst(lens, sigs, n);
      } else {
        SelectNeverFails(lens, sigs, n);
      }
    }
  }

  /**
   * With a positive first length and a single signature value, the pass
   * returns every edge of maximal length, in creation order.
   */
  lemma {:induction false} SelectAllMaximal(lens: seq<nat>, sigs: seq<int>, n: nat)
    requires 1 <= n <= |lens| && |sigs| == |lens| && lens[0] > 0
    requires forall k :: 0 <= k < |sigs| ==> sigs[k] == sigs[0]
    ensures SelectUpTo(lens, sigs, n) == Ok(Selection(PrefixMax(lens, n), IndicesOf(lens, PrefixMax(lens, n), n)))
  {
    if n == 1 {
      assert PrefixMax(lens, 1) == lens[0];
      assert IndicesOf(lens, lens[0], 1) == [0];
      assert SelectUpTo(lens, sigs, 0) == Ok(Selection(0, []));
      assert SelectUpTo(lens, sigs, 1).value.winners == [0];
      assert SelectUpTo(lens, sigs, 1).value.maxVal == lens[0];
      assert SelectUpTo(lens, sigs, 1) == Ok(Selection(lens[0], [0]));
    } else {
      SelectAllMaximal(lens, sigs, n - 1);
      SelectNeverFails(lens, sigs, n - 1);
      var m := PrefixMax(lens, n - 1);
      var before := IndicesOf(lens, m, n - 1);
      var len := lens[n - 1];
      assert SelectUpTo(lens, sigs, n - 1) == Ok(Selection(m, before));
      if len > m {
        IndicesOfAboveMax(lens, len, n - 1);
        assert PrefixMax(lens, n) == len;
        assert IndicesOf(lens, len, n) == [n - 1];
        assert SelectUpTo(lens, sigs, n) == Ok(Selection(len, [n - 1]));
      } else if len == m {
        assert sigs[n - 1] == sigs[before[0]];
        assert PrefixMax(lens, n) == m;
        assert IndicesOf(lens, m, n) == before + [n - 1];
        assert SelectUpTo(lens, sigs, n) == Ok(Selection(m, before + [n - 1]));
      } else {
        assert PrefixMax(lens, n) == m;
        assert IndicesOf(lens, m, n) == before;
        assert SelectUpTo(lens, sigs, n) == Ok(Selection(m, before));
      }
    }
  }

  /**
   * The whole pass with a single signature value: it fails exactly on a
   * first length of 0, and otherwise keeps the maximum and every index
   * that reaches it.
   */
  lemma SelectOutcome(lens: seq<nat>, sigs: seq<int>)
    requires |sigs| == |lens| && forall k :: 0 <= k < |sigs| ==> sigs[k] == sigs[0]
    ensures SelectUpTo(lens, sigs, |lens|).Err? <==> |lens| > 0 && lens[0] == 0
    ensures SelectUpTo(lens, sigs, |lens|).Ok? ==>
      SelectUpTo(lens, sigs, |lens|).value == Selection(PrefixMax(lens, |lens|), IndicesOf(lens, PrefixMax(lens, |lens|), |lens|))
  {
    SelectFailsIff(lens, sigs, |lens|);
    if |lens| > 0 && lens[0] > 0 {
      SelectAllMaximal(lens, sigs, |lens|);
    }
  }

  /** The pass can only start failing at the first edge. */
  lemma SelectFailsFirst(lens: seq<nat>, sigs: seq<int>, n: nat)
    requires n < |lens| && |sigs| == |lens|
    requires SelectUpTo(lens, sigs, n).Ok? && SelectUpTo(lens, sigs, n + 1).Err?
    ensures n == 0 && lens[0] == 0
  {
    SelectFailsIff(lens, sigs, n);
    SelectFailsIff(lens, sigs, n + 1);
  }

  /** The length of the longest common run of each pair of files, in edge order. */
  function PairLengths(inputs: seq<seq<Byte>>): (lens: seq<nat>)
    ensures |lens| == |Pairs(|inputs|)|
  {
    var pairs := Pairs(|inputs|);
    seq(|pairs|, e requires 0 <= e < |pairs| => LongestCommonRun(inputs[pairs[e].left], inputs[pairs[e].right]))
  }

  /** Each entry of PairLengths is the longest common run of two distinct files. */
  lemma PairLengthAt(inputs: seq<seq<Byte>>, e: nat) returns (i: nat, j: nat)
    requires e < |PairLengths(inputs)|
    ensures i < j < |inputs| && PairLengths(inputs)[e] == LongestCommonRun(inputs[i], inputs[j])
  {
    var p := Pairs(|inputs|)[e];
    i, j := p.left, p.right;
  }

  /** Every pair of distinct files has an entry in PairLengths holding their longest common run. */
  lemma PairLengthOf(inputs: seq<seq<Byte>>, i: nat, j: nat) returns (e: nat)
    requires i < j < |inputs|
    ensures e < |PairLengths(inputs)| && PairLengths(inputs)[e] == LongestCommonRun(inputs[i], inputs[j])
  {
    e := PairsCover(|inputs|, i, j);
  }

  /** The longest run of bytes that occurs in at least two of the files (0 with fewer than two). */
  function GlobalLongest(inputs: seq<seq<Byte>>): nat
  {
    PrefixMax(PairLengths(inputs), |PairLengths(inputs)|)
  }

  /** The edges `graph_pairs` should return: those whose length is the global maximum. */
  function Winners(inputs: seq<seq<Byte>>): seq<nat>
  {
    IndicesOf(PairLengths(inputs), GlobalLongest(inputs), |PairLengths(inputs)|)
  }

  /** The first edge joins files 0 and 1. */
  lemma {:induction false} PairsUpToFirst(n: nat, i: nat)
    requires 2 <= n && 1 <= i <= n
    ensures |PairsUpTo(n, i)| > 0 && PairsUpTo(n, i)[0] == VertexPair(0, 1)
  {
    if i > 1 {
      PairsUpToFirst(n, i - 1);
    }
  }

  /**
   * GlobalLongest bounds the longest common run of every pair of distinct
   * files and is reached by one of them.
   */
  lemma GlobalLongestIsLongest(inputs: seq<seq<Byte>>)
    ensures forall i, j :: 0 <= i < j < |inputs| ==> LongestCommonRun(inputs[i], inputs[j]) <= GlobalLongest(inputs)
    ensures |inputs| >= 2 ==> exists i, j :: 0 <= i < j < |inputs| && LongestCommonRun(inputs[i], inputs[j]) == GlobalLongest(inputs)
  {
    var n, lens := |inputs|, PairLengths(inputs);
    forall i, j | 0 <= i < j < n ensures LongestCommonRun(inputs[i], inputs[j]) <= GlobalLongest(inputs) {
      var e := PairsCover(n, i, j);
      assert lens[e] == LongestCommonRun(inputs[i], inputs[j]);
    }
    if n >= 2 {
      PairsUpToFirst(n, n);
      var e :| 0 <= e < |lens| && lens[e] == GlobalLongest(inputs);
      var p := Pairs(n)[e];
      assert LongestCommonRun(inputs[p.left], inputs[p.right]) == GlobalLongest(inputs);
    }
  }

  /** The engine's answer for the files a and b: their longest common run, where it first ends, signature 0. */
  ghost predicate Answers(a: seq<Byte>, b: seq<Byte>, len: int, offA: int, offB: int, sig: int)
  {
    len >= 0 && IsFirstLongest(a, b, len, offA, offB) && sig == 0
  }

  /** One run of the engine: the two files it compared and the length and offsets it answered. */
  datatype Run = Run(a: seq<Byte>, b: seq<Byte>, len: int, offA: int, offB: int)

  /** Every run in `runs` answered correctly. */
  ghost predicate AllAnswered(runs: seq<Run>)
    decreases |runs|
  {
    |runs| == 0 ||
    (AllAnswered(runs[..|runs| - 1]) &&
     Answers(runs[|runs| - 1].a, runs[|runs| - 1].b, runs[|runs| - 1].len, runs[|runs| - 1].offA, runs[|runs| - 1].offB, 0))
  }

  lemma {:induction false} AllAnsweredAt(runs: seq<Run>, e: nat)
    requires AllAnswered(runs) && e < |runs|
    ensures Answers(runs[e].a, runs[e].b, runs[e].len, runs[e].offA, runs[e].offB, 0)
  {
    if e < |runs| - 1 {
      AllAnsweredAt(runs[..|runs| - 1], e);
    }
  }

  /** An edge the engine has filled in: its length, offsets and signature are those of its two files. */
  ghost predicate Filled(e: Edge)
    reads e
  {
    Answers(e.left.bytes, e.right.bytes, e.len, e.leftOffset, e.rightOffset, e.byte)
  }

  /** A filled edge holds the longest common run of its two files, at the offsets it records. */
  lemma FilledIsLongest(e: Edge)
    requires Filled(e)
    ensures e.len == LongestCommonRun(e.left.bytes, e.right.bytes)
    ensures CommonRunAt(e.left.bytes, e.right.bytes, e.leftOffset, e.rightOffset, e.len)
  {
    FirstLongestIsLongest(e.left.bytes, e.right.bytes, e.len, e.leftOffset, e.rightOffset);
  }

  /** The body of `graph_pairs`' loop up to the selection: run the engine on a blank edge and store its answer. */
  method FillEdge(edge: Edge)
    requires edge.Blank()
    modifies edge
    ensures Filled(edge)
  {
    var length, offsetLeft, offsetRight, byte := LeastOfTwo(edge.left.bytes, edge.right.bytes);
    edge.SetLen(length);
    edge.SetOffsets(offsetLeft, offsetRight);
    edge.SetByte(byte);
  }

  /** Every edge of the graph joins the two files whose longest common run PairLengths gives its position. */
  lemma EdgeLengths(g: Graph, inputs: seq<seq<Byte>>, names: seq<string>)
    requires g.Complete(inputs, names)
    ensures |g.edges| == |PairLengths(inputs)|
    ensures forall e :: 0 <= e < |g.edges| ==>
      LongestCommonRun(g.edges[e].left.bytes, g.edges[e].right.bytes) == PairLengths(inputs)[e]
  {
    forall e | 0 <= e < |g.edges|
      ensures LongestCommonRun(g.edges[e].left.bytes, g.edges[e].right.bytes) == PairLengths(inputs)[e]
    {
      var p := Pairs(|inputs|)[e];
      assert g.edges[e].left.bytes == inputs[p.left] && g.edges[e].right.bytes == inputs[p.right];
    }
  }

  /** The first length is that of files 0 and 1. */
  lemma FirstLength(inputs: seq<seq<Byte>>)
    requires |inputs| >= 2
    ensures |PairLengths(inputs)| > 0 && PairLengths(inputs)[0] == LongestCommonRun(inputs[0], inputs[1])
  {
    PairsUpToFirst(|inputs|, |inputs|);
  }

  /** Once filled, the first edge of the graph holds the longest common run of files 0 and 1. */
  lemma FirstEdgeLength(g: Graph, inputs: seq<seq<Byte>>, names: seq<string>)
    requires g.Complete(inputs, names) && |inputs| >= 2
    requires |g.edges| > 0 ==> Filled(g.edges[0])
    ensures |g.edges| > 0 && g.edges[0].len == LongestCommonRun(inputs[0], inputs[1])
  {
    EdgeLengths(g, inputs, names);
    FirstLength(inputs);
    FilledIsLongest(g.edges[0]);
  }

  /** Once every edge is filled, their lengths are PairLengths. */
  lemma FilledLengths(g: Graph, inputs: seq<seq<Byte>>, names: seq<string>, lens: seq<nat>)
    requires g.Complete(inputs, names) && |lens| == |g.edges|
    requires forall e :: 0 <= e < |g.edges| ==> Filled(g.edges[e]) && g.edges[e].len == lens[e]
    ensures lens == PairLengths(inputs)
  {
    EdgeLengths(g, inputs, names);
    forall e | 0 <= e < |lens| ensures lens[e] == PairLengths(inputs)[e] {
      FilledIsLongest(g.edges[e]);
    }
  }

  /** The signatures the engine gives n edges: all 0. */
  function Zeros(n: nat): (z: seq<int>)
    ensures |z| == n && forall k :: 0 <= k < n ==> z[k] == 0
  {
    if n == 0 then [] else Zeros(n - 1) + [0]
  }

  /** The pass over the first n edges looks at no length or signature beyond them. */
  lemma {:induction false} SelectUpToExtend(lens: seq<nat>, sigs: seq<int>, len: nat, sig: int, n: nat)
    requires n <= |lens| && |sigs| == |lens|
    ensures SelectUpTo(lens + [len], sigs + [sig], n) == SelectUpTo(lens, sigs, n)
  {
    if n > 0 {
      SelectUpToExtend(lens, sigs, len, sig, n - 1);
      assert (lens + [len])[n - 1] == lens[n - 1];
    }
  }

  /** One more edge: the pass either restarts, extends or keeps its list, or fails. */
  lemma SelectUpToStep(lens: seq<nat>, sigs: seq<int>, n: nat, s: Selection)
    requires n < |lens| && |sigs| == |lens| && SelectUpTo(lens, sigs, n) == Ok(s)
    ensures lens[n] > s.maxVal ==> SelectUpTo(lens, sigs, n + 1) == Ok(Selection(lens[n], [n]))
    ensures lens[n] < s.maxVal ==> SelectUpTo(lens, sigs, n + 1) == Ok(s)
    ensures lens[n] == s.maxVal && s.winners == [] ==> SelectUpTo(lens, sigs, n + 1) == Err(IndexError)
    ensures lens[n] == s.maxVal && s.winners != [] ==>
      SelectUpTo(lens, sigs, n + 1) == Ok(if sigs[n] == sigs[s.winners[0]] then Selection(s.maxVal, s.winners + [n]) else s)
  {
  }

  /**
   * The selection step of `graph_pairs`' loop for the filled edge
   * `es[|lens|]`, given the pass so far over the lengths `lens` of the edges
   * before it: a longer edge restarts `max_list`, an equal one with the first
   * entry's signature joins it, and an equal one met with `max_list` empty
   * raises IndexError. `winners` are the positions of `max_list`'s edges.
   */
  method Admit(ghost es: seq<Edge>, edge: Edge, maxVal: nat, maxList: seq<Edge>, ghost lens: seq<nat>, ghost winners: seq<nat>)
    returns (r: Result<(nat, seq<Edge>)>, ghost winners': seq<nat>)
    requires |lens| < |es| && edge == es[|lens|] && edge.len >= 0
    requires forall e :: 0 <= e <= |lens| ==> es[e].byte == 0
    requires SelectUpTo(lens, Zeros(|lens|), |lens|) == Ok(Selection(maxVal, winners))
    requires |maxList| == |winners| && forall k :: 0 <= k < |winners| ==> maxList[k] == es[winners[k]]
    ensures r.Err? <==> SelectUpTo(lens + [edge.len], Zeros(|lens| + 1), |lens| + 1).Err?
    ensures r.Err? ==> |lens| == 0 && edge.len == 0
    ensures r.Ok? ==> SelectUpTo(lens + [edge.len], Zeros(|lens| + 1), |lens| + 1) == Ok(Selection(r.value.0, winners'))
    ensures r.Ok? ==> |r.value.1| == |winners'| && forall k :: 0 <= k < |winners'| ==> r.value.1[k] == es[winners'[k]]
  {
    ghost var n := |lens|;
    SelectUpToExtend(lens, Zeros(n), edge.len, 0, n);
    SelectUpToStep(lens + [edge.len], Zeros(n + 1), n, Selection(maxVal, winners));
    winners' := winners;
    if edge.len > maxVal {
      r := Ok((edge.len, [edge]));
      winners' := [n];
    } else if edge.len == maxVal {
      if maxList == [] {
        SelectFailsFirst(lens + [edge.len], Zeros(n + 1), n);
        r := Err(IndexError);
        return;
      }
      if edge.byte == maxList[0].byte {
        r := Ok((maxVal, maxList + [edge]));
        winners' := winners + [n];
      } else {
        r := Ok((maxVal, maxList));
      }
    } else {
      r := Ok((maxVal, maxList));
    }
  }

  /** What the edges before `n` hold: their lengths are `lens`, their signatures 0, and `runs` records them. */
  ghost predicate FilledBefore(es: seq<Edge>, n: nat, lens: seq<nat>, runs: seq<Run>)
    reads es
  {
    n <= |es| && |lens| == n && |runs| == n &&
    (forall e :: 0 <= e < n ==>
       es[e].len == lens[e] && es[e].byte == 0 &&
       runs[e] == Run(es[e].left.bytes, es[e].right.bytes, es[e].len, es[e].leftOffset, es[e].rightOffset)) &&
    AllAnswered(runs) &&
    (forall e :: n <= e < |es| ==> es[e].Blank())
  }

  /** Distinct edges have a position map. */
  lemma Positions(es: seq<Edge>) returns (pos: map<Edge, nat>)
    requires forall e, f :: 0 <= e < f < |es| ==> es[e] != es[f]
    ensures forall e :: 0 <= e < |es| ==> es[e] in pos && pos[es[e]] == e
  {
    pos := map e | 0 <= e < |es| :: es[e] := e;
  }

  /** Once every edge is filled, each one holds its engine answer. */
  lemma AllFilled(es: seq<Edge>, lens: seq<nat>, runs: seq<Run>)
    requires FilledBefore(es, |es|, lens, runs)
    ensures forall e :: 0 <= e < |es| ==> Filled(es[e]) && es[e].len == lens[e]
  {
    forall e | 0 <= e < |es| ensures Filled(es[e]) {
      AllAnsweredAt(runs, e);
    }
  }

  /** The first half of the loop body of `graph_pairs`: fill the edge at `idx`, the next blank one. */
  method FillNext(es: seq<Edge>, ghost pos: map<Edge, nat>, idx: nat, ghost lens: seq<nat>, ghost runs: seq<Run>)
    returns (ghost lens': seq<nat>, ghost runs': seq<Run>)
    requires idx < |es| && FilledBefore(es, idx, lens, runs)
    requires forall e :: 0 <= e < |es| ==> es[e] in pos && pos[es[e]] == e
    modifies es[idx]
    ensures FilledBefore(es, idx + 1, lens', runs')
    ensures lens' == lens + [es[idx].len] && Filled(es[idx])
  {
    var edge := es[idx];
    FillEdge(edge);
    lens' := lens + [edge.len];
    runs' := runs + [Run(edge.left.bytes, edge.right.bytes, edge.len, edge.leftOffset, edge.rightOffset)];
    assert runs'[..idx] == runs;
  }

  /**
   * The loop of `graph_pairs` over the blank edges `es`: fill each edge and
   * keep the list of maximal ones; `lens` are the lengths the edges receive.
   * `pos` gives each edge its position, so no edge occurs twice.
   */
  method FillAndSelect(es: seq<Edge>, ghost pos: map<Edge, nat>) returns (r: Result<seq<Edge>>, ghost lens: seq<nat>)
    requires forall e :: 0 <= e < |es| ==> es[e].Blank()
    requires forall e :: 0 <= e < |es| ==> es[e] in pos && pos[es[e]] == e
    modifies es
    ensures r.Err? ==> |es| > 0 && Filled(es[0]) && es[0].len == 0 && forall e :: 1 <= e < |es| ==> es[e].Blank()
    ensures r.Ok? ==> |es| == 0 || es[0].len > 0
    ensures r.Ok? ==> |lens| == |es| && forall e :: 0 <= e < |es| ==> Filled(es[e]) && es[e].len == lens[e]
    ensures r.Ok? ==> |r.value| == |IndicesOf(lens, PrefixMax(lens, |lens|), |lens|)|
    ensures r.Ok? ==> forall k :: 0 <= k < |r.value| ==>
      r.value[k] == es[IndicesOf(lens, PrefixMax(lens, |lens|), |lens|)[k]]
  {
    lens := [];
    var maxVal: nat := 0;
    var maxList: seq<Edge> := [];
    ghost var winners: seq<nat> := [];
    // The engine's answers so far, kept apart from the heap.
    ghost var runs: seq<Run> := [];
    for idx := 0 to |es|
      invariant FilledBefore(es, idx, lens, runs)
      invariant SelectUpTo(lens, Zeros(idx), idx) == Ok(Selection(maxVal, winners))
      invariant |maxList| == |winners|
      invariant forall k :: 0 <= k < |winners| ==> maxList[k] == es[winners[k]]
    {
      var edge := es[idx];
      ghost var before := lens;
      lens, runs := FillNext(es, pos, idx, lens, runs);
      var step;
      ghost var next;
      step, next := Admit(es, edge, maxVal, maxList, before, winners);
      if step.Err? {
        // `max_list[0]` on an empty list raises IndexError.
        r := Err(IndexError);
        return;
      }
      maxVal, maxList := step.value.0, step.value.1;
      winners := next;
    }
    r := Ok(maxList);
    SelectOutcome(lens, Zeros(|lens|));
    AllFilled(es, lens, runs);
  }

  /**
   * `graph_pairs(input_array, args)`: the graph it builds and the list it
   * returns, or the IndexError it raises when the first edge has length 0.
   */
  method GraphPairs(inputs: seq<seq<Byte>>, names: seq<string>) returns (g: Graph, r: Result<seq<Edge>>)
    requires |inputs| <= |names|
    ensures fresh(g) && g.Complete(inputs, names)
    ensures r.Err? <==> |inputs| >= 2 && LongestCommonRun(inputs[0], inputs[1]) == 0
    ensures r.Err? ==> |g.edges| > 0 && Filled(g.edges[0]) && forall e :: 1 <= e < |g.edges| ==> g.edges[e].Blank()
    ensures r.Ok? ==> forall e :: 0 <= e < |g.edges| ==> Filled(g.edges[e])
    ensures r.Ok? ==> |r.value| == |Winners(inputs)|
    ensures r.Ok? ==> forall k :: 0 <= k < |r.value| ==> r.value[k] == g.edges[Winners(inputs)[k]]
    ensures r.Ok? ==> forall k :: 0 <= k < |r.value| ==> r.value[k].len == GlobalLongest(inputs)
    ensures |inputs| < 2 ==> r == Ok([])
  {
    g := new Graph(inputs, names);
    CompleteShape(g, inputs, names);
    ghost var pos := Positions(g.edges);
    ghost var lens;
    r, lens := FillAndSelect(g.edges, pos);
    if |inputs| >= 2 {
      FirstEdgeLength(g, inputs, names);
    }
    if r.Ok? {
      FilledLengths(g, inputs, names, lens);
    }
  }
}
