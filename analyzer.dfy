/** analyzer.cpp: the same matching as matching.cpp, but each result pair
    holds copies of the two nodes instead of pointers to them. */
module Analyzer {
  import opened Seqs
  import opened Types
  import Matching

  type NodePair = (MessagingNode, MessagingNode)

  /** The copied pairs for send `i` among the first `m` receives, in loop order. */
  function PairRow(sends: seq<MessagingNode>, recvs: seq<MessagingNode>, i: nat, m: nat): seq<NodePair>
    requires i < |sends| && m <= |recvs|
  {
    if m == 0 then []
    else PairRow(sends, recvs, i, m - 1)
         + (if Matching.TypesMatch(sends[i].typeName, recvs[m - 1].typeName) then [(sends[i], recvs[m - 1])] else [])
  }

  /** The copied pairs of the first `n` sends, in discovery order. */
  function PairsDiscovered(sends: seq<MessagingNode>, recvs: seq<MessagingNode>, n: nat): seq<NodePair>
    requires n <= |sends|
  {
    if n == 0 then []
    else PairsDiscovered(sends, recvs, n - 1) + PairRow(sends, recvs, n - 1, |recvs|)
  }

  /** What analyzer.cpp's `analyzeNodes` returns. */
  function MatchedCopies(sends: seq<MessagingNode>, recvs: seq<MessagingNode>): seq<NodePair>
  {
    Reverse(PairsDiscovered(sends, recvs, |sends|))
  }

  method AnalyzeNodes(sends: seq<MessagingNode>, recvs: seq<MessagingNode>) returns (matched: seq<NodePair>)
    ensures matched == MatchedCopies(sends, recvs)
  {
    matched := [];
    var i: nat := 0;
    while i < |sends|
      invariant i <= |sends|
      invariant matched == Reverse(PairsDiscovered(sends, recvs, i))
    {
      var send := sends[i];
      var j: nat := 0;
      PairRowBoundaries(sends, recvs, i);
      while j < |recvs|
        invariant j <= |recvs|
        invariant matched == Reverse(PairsDiscovered(sends, recvs, i) + PairRow(sends, recvs, i, j))
      {
        var recv := recvs[j];
        // analyzer.cpp:10-35 repeats matching.cpp's comparison verbatim
        var isMatch := Matching.CompareTypes(send.typeName, recv.typeName);
        PairStep(sends, recvs, i, j, matched);
        if isMatch {
          matched := [(send, recv)] + matched;
        }
        j := j + 1;
      }
      i := i + 1;
    }
  }

  /** A row starts empty, and a full row completes the next prefix. */
  lemma PairRowBoundaries(sends: seq<MessagingNode>, recvs: seq<MessagingNode>, i: nat)
    requires i < |sends|
    ensures PairsDiscovered(sends, recvs, i) + PairRow(sends, recvs, i, 0) == PairsDiscovered(sends, recvs, i)
    ensures PairsDiscovered(sends, recvs, i) + PairRow(sends, recvs, i, |recvs|) == PairsDiscovered(sends, recvs, i + 1)
  {
    assert PairsDiscovered(sends, recvs, i) + [] == PairsDiscovered(sends, recvs, i);
  }

  /** One step of the inner loop pushes the two copies at the front exactly
      when their types match. */
  lemma PairStep(sends: seq<MessagingNode>, recvs: seq<MessagingNode>, i: nat, j: nat, matched: seq<NodePair>)
    requires i < |sends| && j < |recvs|
    requires matched == Reverse(PairsDiscovered(sends, recvs, i) + PairRow(sends, recvs, i, j))
    ensures Matching.TypesMatch(sends[i].typeName, recvs[j].typeName) ==>
      [(sends[i], recvs[j])] + matched == Reverse(PairsDiscovered(sends, recvs, i) + PairRow(sends, recvs, i, j + 1))
    ensures !Matching.TypesMatch(sends[i].typeName, recvs[j].typeName) ==>
      matched == Reverse(PairsDiscovered(sends, recvs, i) + PairRow(sends, recvs, i, j + 1))
  {
    var before := PairsDiscovered(sends, recvs, i) + PairRow(sends, recvs, i, j);
    if Matching.TypesMatch(sends[i].typeName, recvs[j].typeName) {
      assert PairsDiscovered(sends, recvs, i) + PairRow(sends, recvs, i, j + 1) == before + [(sends[i], recvs[j])];
      ReverseSnoc(before, (sends[i], recvs[j]));
    } else {
      assert PairsDiscovered(sends, recvs, i) + PairRow(sends, recvs, i, j + 1) == before;
    }
  }

  /** The overload on a pair of lists delegates to the two-list version. */
  method AnalyzeNodesOfPair(data: (seq<MessagingNode>, seq<MessagingNode>)) returns (matched: seq<NodePair>)
    ensures matched == MatchedCopies(data.0, data.1)
  {
    var sends, recvs := data.0, data.1;
    matched := AnalyzeNodes(sends, recvs);
  }

  /** `pairs` holds, position by position, copies of the nodes that the
      index pairs `ps` point to. */
  predicate Mirrors(sends: seq<MessagingNode>, recvs: seq<MessagingNode>, pairs: seq<NodePair>, ps: seq<Matching.IndexPair>)
  {
    |pairs| == |ps| &&
    forall k :: 0 <= k < |ps| ==> ps[k].0 < |sends| && ps[k].1 < |recvs| && pairs[k] == (sends[ps[k].0], recvs[ps[k].1])
  }

  lemma MirrorsConcat(sends: seq<MessagingNode>, recvs: seq<MessagingNode>,
                      pa: seq<NodePair>, ia: seq<Matching.IndexPair>, pb: seq<NodePair>, ib: seq<Matching.IndexPair>)
    requires Mirrors(sends, recvs, pa, ia) && Mirrors(sends, recvs, pb, ib)
    ensures Mirrors(sends, recvs, pa + pb, ia + ib)
  {
    forall k | 0 <= k < |ia + ib|
      ensures (ia + ib)[k].0 < |sends| && (ia + ib)[k].1 < |recvs|
        && (pa + pb)[k] == (sends[(ia + ib)[k].0], recvs[(ia + ib)[k].1])
    {
      if k < |ia| {
        assert (ia + ib)[k] == ia[k] && (pa + pb)[k] == pa[k];
      } else {
        assert (ia + ib)[k] == ib[k - |ia|] && (pa + pb)[k] == pb[k - |ia|];
      }
    }
  }

  lemma {:induction false} RowMirrors(sends: seq<MessagingNode>, recvs: seq<MessagingNode>, i: nat, m: nat)
    requires i < |sends| && m <= |recvs|
    ensures Mirrors(sends, recvs, PairRow(sends, recvs, i, m), Matching.RowMatches(sends, recvs, i, m))
  {
    if m > 0 {
      var matches := Matching.TypesMatch(sends[i].typeName, recvs[m - 1].typeName);
      var lastPair: seq<NodePair> := if matches then [(sends[i], recvs[m - 1])] else [];
      var lastIndex: seq<Matching.IndexPair> := if matches then [(i, m - 1)] else [];
      assert PairRow(sends, recvs, i, m) == PairRow(sends, recvs, i, m - 1) + lastPair;
      assert Matching.RowMatches(sends, recvs, i, m) == Matching.RowMatches(sends, recvs, i, m - 1) + lastIndex;
      RowMirrors(sends, recvs, i, m - 1);
      MirrorsConcat(sends, recvs, PairRow(sends, recvs, i, m - 1), Matching.RowMatches(sends, recvs, i, m - 1), lastPair, lastIndex);
    }
  }

  /** Adding row `m` to both sides keeps them mirrored. */
  lemma DiscoveredMirrorsStep(sends: seq<MessagingNode>, recvs: seq<MessagingNode>, n: nat)
    requires 0 < n <= |sends|
    requires Mirrors(sends, recvs, PairsDiscovered(sends, recvs, n - 1), Matching.Discovered(sends, recvs, n - 1))
    ensures Mirrors(sends, recvs, PairsDiscovered(sends, recvs, n), Matching.Discovered(sends, recvs, n))
  {
    var m, width := n - 1, |recvs|;
    RowMirrors(sends, recvs, m, width);
    MirrorsConcat(sends, recvs, PairsDiscovered(sends, recvs, m), Matching.Discovered(sends, recvs, m),
                  PairRow(sends, recvs, m, width), Matching.RowMatches(sends, recvs, m, width));
  }

  lemma {:induction false} DiscoveredMirrors(sends: seq<MessagingNode>, recvs: seq<MessagingNode>, n: nat)
    requires n <= |sends|
    ensures Mirrors(sends, recvs, PairsDiscovered(sends, recvs, n), Matching.Discovered(sends, recvs, n))
  {
    if n > 0 {
      DiscoveredMirrors(sends, recvs, n - 1);
      DiscoveredMirrorsStep(sends, recvs, n);
    }
  }

  /** analyzer.cpp returns, position by position, copies of the nodes that
      matching.cpp's result points to: both variants make the same matches
      in the same order. */
  lemma MatchedCopiesMirrorMatching(sends: seq<MessagingNode>, recvs: seq<MessagingNode>)
    ensures |MatchedCopies(sends, recvs)| == |Matching.MatchedPairs(sends, recvs)|
    ensures forall k :: 0 <= k < |MatchedCopies(sends, recvs)| ==>
      Matching.MatchedPairs(sends, recvs)[k].0 < |sends| && Matching.MatchedPairs(sends, recvs)[k].1 < |recvs| &&
      MatchedCopies(sends, recvs)[k] == (sends[Matching.MatchedPairs(sends, recvs)[k].0], recvs[Matching.MatchedPairs(sends, recvs)[k].1])
  {
    var d := Matching.Discovered(sends, recvs, |sends|);
    DiscoveredMirrors(sends, recvs, |sends|);
    ReverseAt(d);
    ReverseAt(PairsDiscovered(sends, recvs, |sends|));
  }

  /** Each matching combination contributes its two node copies. */
  lemma MatchedCopiesComplete(sends: seq<MessagingNode>, recvs: seq<MessagingNode>, i: nat, j: nat)
    requires i < |sends| && j < |recvs|
    requires Matching.TypesMatch(sends[i].typeName, recvs[j].typeName)
    ensures (sends[i], recvs[j]) in MatchedCopies(sends, recvs)
  {
    var r := Matching.MatchedPairs(sends, recvs);
    Matching.MatchedPairsMembership(sends, recvs, i, j);
    MatchedCopiesMirrorMatching(sends, recvs);
    var k :| 0 <= k < |r| && r[k] == (i, j);
    assert MatchedCopies(sends, recvs)[k] == (sends[i], recvs[j]);
  }

  /** Every result pair is a send and a receive whose type names match. */
  lemma MatchedCopiesSound(sends: seq<MessagingNode>, recvs: seq<MessagingNode>, p: NodePair)
    requires p in MatchedCopies(sends, recvs)
    ensures exists i, j :: (0 <= i < |sends| && 0 <= j < |recvs| && p == (sends[i], recvs[j])
      && Matching.TypesMatch(sends[i].typeName, recvs[j].typeName))
  {
    var r := Matching.MatchedPairs(sends, recvs);
    MatchedCopiesMirrorMatching(sends, recvs);
    var k :| 0 <= k < |MatchedCopies(sends, recvs)| && MatchedCopies(sends, recvs)[k] == p;
    Matching.MatchedPairsMembership(sends, recvs, r[k].0, r[k].1);
    assert r[k] in r;
  }
}
