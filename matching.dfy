/** matching.cpp: pairing every send with every receive whose transmitted
    type names agree, reported as pointers into the two input lists. */
module Matching {
  import opened Seqs
  import opened Strings
  import opened Types

  /** The comparison of matching.cpp:19-36: equal lengths must be equal
      strings, otherwise the shorter must equal the trailing characters of
      the longer (`weatherstation::Weather` matches `Weather`). */
  predicate TypesMatch(sendType: string, recvType: string)
  {
    var compared := |sendType| - |recvType|;
    if compared == 0 then sendType == recvType
    else if compared < 0 then recvType[|recvType| - |sendType|..] == sendType
    else sendType[|sendType| - |recvType|..] == recvType
  }

  /** The match relation is "one is a suffix of the other". */
  lemma TypesMatchIsSuffix(sendType: string, recvType: string)
    ensures TypesMatch(sendType, recvType) <==> IsSuffix(sendType, recvType) || IsSuffix(recvType, sendType)
  {
  }

  lemma TypesMatchSymmetric(a: string, b: string)
    ensures TypesMatch(a, b) <==> TypesMatch(b, a)
  {
    TypesMatchIsSuffix(a, b);
    TypesMatchIsSuffix(b, a);
  }

  lemma EqualLengthMatchIsEquality(a: string, b: string)
    requires |a| == |b|
    ensures TypesMatch(a, b) <==> a == b
  {
  }

  /** Not namespace-boundary aware: the empty name matches every name, and
      so does any trailing fragment (`ather` matches `Weather`). */
  lemma EmptyTypeMatchesAll(t: string)
    ensures TypesMatch("", t) && TypesMatch(t, "")
  {
    assert t[|t|..] == "";
  }

  /** A pointer pair `(&sends[i], &recvs[j])`, as the two indices. */
  type IndexPair = (nat, nat)

  predicate LexLess(a: IndexPair, b: IndexPair)
  {
    a.0 < b.0 || (a.0 == b.0 && a.1 < b.1)
  }

  /** The matches of send `i` among the first `m` receives, in loop order. */
  function RowMatches(sends: seq<MessagingNode>, recvs: seq<MessagingNode>, i: nat, m: nat): seq<IndexPair>
    requires i < |sends| && m <= |recvs|
  {
    if m == 0 then []
    else RowMatches(sends, recvs, i, m - 1)
         + (if TypesMatch(sends[i].typeName, recvs[m - 1].typeName) then [(i, m - 1)] else [])
  }

  /** The matches of the first `n` sends, in the order the nested loops
      of matching.cpp:8-9 discover them. */
  function Discovered(sends: seq<MessagingNode>, recvs: seq<MessagingNode>, n: nat): seq<IndexPair>
    requires n <= |sends|
  {
    if n == 0 then []
    else Discovered(sends, recvs, n - 1) + RowMatches(sends, recvs, n - 1, |recvs|)
  }

  /** What `analyzeNodes` returns: `push_front` reverses the discovery order. */
  function MatchedPairs(sends: seq<MessagingNode>, recvs: seq<MessagingNode>): seq<IndexPair>
  {
    Reverse(Discovered(sends, recvs, |sends|))
  }

  method AnalyzeNodes(sends: seq<MessagingNode>, recvs: seq<MessagingNode>) returns (matched: seq<IndexPair>)
    ensures matched == MatchedPairs(sends, recvs)
  {
    matched := [];
    var i: nat := 0;
    while i < |sends|
      invariant i <= |sends|
      invariant matched == Reverse(Discovered(sends, recvs, i))
    {
      var j: nat := 0;
      RowBoundaries(sends, recvs, i);
      while j < |recvs|
        invariant j <= |recvs|
        invariant matched == Reverse(Discovered(sends, recvs, i) + RowMatches(sends, recvs, i, j))
      {
        var isMatch := CompareTypes(sends[i].typeName, recvs[j].typeName);
        MatchStep(sends, recvs, i, j, matched);
        if isMatch {
          matched := [(i, j)] + matched;
        }
        j := j + 1;
      }
      i := i + 1;
    }
  }

  /** The comparison in the inner loop body (matching.cpp:19-36). */
  method CompareTypes(sendType: string, recvType: string) returns (isMatch: bool)
    ensures isMatch <==> IsSuffix(sendType, recvType) || IsSuffix(recvType, sendType)
    ensures isMatch == TypesMatch(sendType, recvType)
  {
    var compared := |sendType| - |recvType|;
    if compared == 0 {
      isMatch := sendType == recvType;
    } else if compared < 0 {
      isMatch := recvType[|recvType| - |sendType|..] == sendType;
    } else {
      isMatch := sendType[|sendType| - |recvType|..] == recvType;
    }
    TypesMatchIsSuffix(sendType, recvType);
  }

  /** A row starts empty, and a full row completes the next prefix. */
  lemma RowBoundaries(sends: seq<MessagingNode>, recvs: seq<MessagingNode>, i: nat)
    requires i < |sends|
    ensures Discovered(sends, recvs, i) + RowMatches(sends, recvs, i, 0) == Discovered(sends, recvs, i)
    ensures Discovered(sends, recvs, i) + RowMatches(sends, recvs, i, |recvs|) == Discovered(sends, recvs, i + 1)
  {
    assert Discovered(sends, recvs, i) + [] == Discovered(sends, recvs, i);
  }

  /** One step of the inner loop pushes `(i, j)` at the front exactly when
      the two types match. */
  lemma MatchStep(sends: seq<MessagingNode>, recvs: seq<MessagingNode>, i: nat, j: nat, matched: seq<IndexPair>)
    requires i < |sends| && j < |recvs|
    requires matched == Reverse(Discovered(sends, recvs, i) + RowMatches(sends, recvs, i, j))
    ensures TypesMatch(sends[i].typeName, recvs[j].typeName) ==>
      [(i, j)] + matched == Reverse(Discovered(sends, recvs, i) + RowMatches(sends, recvs, i, j + 1))
    ensures !TypesMatch(sends[i].typeName, recvs[j].typeName) ==>
      matched == Reverse(Discovered(sends, recvs, i) + RowMatches(sends, recvs, i, j + 1))
  {
    var before := Discovered(sends, recvs, i) + RowMatches(sends, recvs, i, j);
    if TypesMatch(sends[i].typeName, recvs[j].typeName) {
      assert Discovered(sends, recvs, i) + RowMatches(sends, recvs, i, j + 1) == before + [(i, j)];
      ReverseSnoc(before, (i, j));
    } else {
      assert Discovered(sends, recvs, i) + RowMatches(sends, recvs, i, j + 1) == before;
    }
  }

  /** The overload on a pair of lists (matching.cpp:44-47) works on copies
      of the two lists, so its result indexes the pair's components. */
  method AnalyzeNodesOfPair(data: (seq<MessagingNode>, seq<MessagingNode>)) returns (matched: seq<IndexPair>)
    ensures matched == MatchedPairs(data.0, data.1)
  {
    var sends, recvs := data.0, data.1;
    matched := AnalyzeNodes(sends, recvs);
  }

  lemma {:induction false} RowLength(sends: seq<MessagingNode>, recvs: seq<MessagingNode>, i: nat, m: nat)
    requires i < |sends| && m <= |recvs|
    ensures |RowMatches(sends, recvs, i, m)| <= m
  {
    if m > 0 {
      RowLength(sends, recvs, i, m - 1);
    }
  }

  lemma {:induction false} RowMembership(sends: seq<MessagingNode>, recvs: seq<MessagingNode>, i: nat, m: nat)
    requires i < |sends| && m <= |recvs|
    ensures forall p :: p in RowMatches(sends, recvs, i, m) <==>
      p.0 == i && p.1 < m && TypesMatch(sends[i].typeName, recvs[p.1].typeName)
  {
    if m > 0 {
      RowMembership(sends, recvs, i, m - 1);
    }
  }

  /** Strictly increasing in (send index, receive index). */
  predicate Ascending(s: seq<IndexPair>)
  {
    forall k, l :: 0 <= k < l < |s| ==> LexLess(s[k], s[l])
  }

  lemma AscendingConcat(a: seq<IndexPair>, b: seq<IndexPair>)
    requires Ascending(a) && Ascending(b)
    requires forall x, y :: x in a && y in b ==> LexLess(x, y)
    ensures Ascending(a + b)
  {
    forall k, l | 0 <= k < l < |a + b| ensures LexLess((a + b)[k], (a + b)[l]) {
      if l < |a| {
        assert (a + b)[k] == a[k] && (a + b)[l] == a[l];
      } else if k >= |a| {
        assert (a + b)[k] == b[k - |a|] && (a + b)[l] == b[l - |a|];
      } else {
        assert (a + b)[k] == a[k] && a[k] in a;
        assert (a + b)[l] == b[l - |a|] && b[l - |a|] in b;
      }
    }
  }

  lemma {:induction false} RowSorted(sends: seq<MessagingNode>, recvs: seq<MessagingNode>, i: nat, m: nat)
    requires i < |sends| && m <= |recvs|
    ensures Ascending(RowMatches(sends, recvs, i, m))
  {
    if m > 0 {
      RowSorted(sends, recvs, i, m - 1);
      RowMembership(sends, recvs, i, m - 1);
      var prev := RowMatches(sends, recvs, i, m - 1);
      var last: seq<IndexPair> := if TypesMatch(sends[i].typeName, recvs[m - 1].typeName) then [(i, m - 1)] else [];
      assert RowMatches(sends, recvs, i, m) == prev + last;
      AscendingConcat(prev, last);
    }
  }

  lemma {:induction false} DiscoveredLength(sends: seq<MessagingNode>, recvs: seq<MessagingNode>, n: nat)
    requires n <= |sends|
    ensures |Discovered(sends, recvs, n)| <= n * |recvs|
  {
    if n > 0 {
      var m, width := n - 1, |recvs|;
      DiscoveredLength(sends, recvs, m);
      RowLength(sends, recvs, m, width);
      var d, row := Discovered(sends, recvs, m), RowMatches(sends, recvs, m, width);
      assert Discovered(sends, recvs, n) == d + row;
      MulSucc(m, width);
      assert |d + row| <= m * width + width == n * width;
    }
  }

  lemma MulSucc(a: nat, b: nat)
    ensures a * b + b == (a + 1) * b
  {
  }

  lemma {:induction false} DiscoveredMembership(sends: seq<MessagingNode>, recvs: seq<MessagingNode>, n: nat)
    requires n <= |sends|
    ensures forall p :: p in Discovered(sends, recvs, n) <==>
      p.0 < n && p.1 < |recvs| && TypesMatch(sends[p.0].typeName, recvs[p.1].typeName)
  {
    if n > 0 {
      var m, width := n - 1, |recvs|;
      DiscoveredMembership(sends, recvs, m);
      RowMembership(sends, recvs, m, width);
      var d, row := Discovered(sends, recvs, m), RowMatches(sends, recvs, m, width);
      assert Discovered(sends, recvs, n) == d + row;
      forall p: IndexPair | p in d + row
        ensures p.0 < n && p.1 < width && TypesMatch(sends[p.0].typeName, recvs[p.1].typeName)
      {
        assert p in d || p in row;
      }
      forall p: IndexPair | p.0 < n && p.1 < width && TypesMatch(sends[p.0].typeName, recvs[p.1].typeName)
        ensures p in d + row
      {
        if p.0 < m {
          assert p in d;
        } else {
          assert p in row;
        }
      }
    }
  }

  lemma {:induction false} DiscoveredSorted(sends: seq<MessagingNode>, recvs: seq<MessagingNode>, n: nat)
    requires n <= |sends|
    ensures Ascending(Discovered(sends, recvs, n))
  {
    if n > 0 {
      var m, width := n - 1, |recvs|;
      DiscoveredSorted(sends, recvs, m);
      DiscoveredMembership(sends, recvs, m);
      RowSorted(sends, recvs, m, width);
      RowMembership(sends, recvs, m, width);
      var d, row := Discovered(sends, recvs, m), RowMatches(sends, recvs, m, width);
      assert Discovered(sends, recvs, n) == d + row;
      AscendingConcat(d, row);
    }
  }

  /** matching.cpp's result holds exactly the matching combinations. */
  lemma MatchedPairsMembership(sends: seq<MessagingNode>, recvs: seq<MessagingNode>, i: nat, j: nat)
    ensures (i, j) in MatchedPairs(sends, recvs) <==>
      i < |sends| && j < |recvs| && TypesMatch(sends[i].typeName, recvs[j].typeName)
  {
    var d := Discovered(sends, recvs, |sends|);
    DiscoveredMembership(sends, recvs, |sends|);
    ReverseMembership(d, (i, j));
  }

  /** At most one pair per combination of a send with a receive. */
  lemma MatchedPairsBound(sends: seq<MessagingNode>, recvs: seq<MessagingNode>)
    ensures |MatchedPairs(sends, recvs)| <= |sends| * |recvs|
  {
    DiscoveredLength(sends, recvs, |sends|);
  }

  /** The pairs come in reverse discovery order: strictly decreasing in
      (send index, receive index). */
  lemma MatchedPairsOrder(sends: seq<MessagingNode>, recvs: seq<MessagingNode>)
    ensures forall k, l :: 0 <= k < l < |MatchedPairs(sends, recvs)| ==>
      LexLess(MatchedPairs(sends, recvs)[l], MatchedPairs(sends, recvs)[k])
  {
    var d := Discovered(sends, recvs, |sends|);
    DiscoveredSorted(sends, recvs, |sends|);
    var r := MatchedPairs(sends, recvs);
    ReverseAt(d);
    forall k, l | 0 <= k < l < |r| ensures LexLess(r[l], r[k]) {
      assert r[k] == d[|d| - 1 - k] && r[l] == d[|d| - 1 - l];
    }
  }

  /** Distinct positions hold distinct pairs: no combination is reported twice. */
  lemma MatchedPairsDistinct(sends: seq<MessagingNode>, recvs: seq<MessagingNode>)
    ensures forall k, l :: 0 <= k < l < |MatchedPairs(sends, recvs)| ==>
      MatchedPairs(sends, recvs)[k] != MatchedPairs(sends, recvs)[l]
  {
    MatchedPairsOrder(sends, recvs);
  }
}
