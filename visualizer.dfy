/** visualizer.cpp: the namespace graph drawn from the matched pairs, and
    the node names used in it. */
module Visualizer {
  import opened Seqs
  import opened Types

  /** A matched (send, receive) pair; the pointers are only dereferenced. */
  type NodePair = (MessagingNode, MessagingNode)

  /** An edge of the graph: the receiving namespace and the sent type. */
  type Edge = (string, string)

  /** `MessageMap`: each namespace to its outgoing edges. */
  type MessageMap = map<string, seq<Edge>>

  /** Every namespace that sends or receives in `pairs`. */
  function Namespaces(pairs: seq<NodePair>): set<string>
  {
    if pairs == [] then {}
    else
      var last := pairs[|pairs| - 1];
      Namespaces(pairs[..|pairs| - 1]) + {last.0.nspace, last.1.nspace}
  }

  /** The edges out of `ns`, one per pair sent from `ns`, in input order. */
  function EdgesFrom(pairs: seq<NodePair>, ns: string): seq<Edge>
  {
    if pairs == [] then []
    else
      var last := pairs[|pairs| - 1];
      EdgesFrom(pairs[..|pairs| - 1], ns)
        + (if last.0.nspace == ns then [(last.1.nspace, last.0.typeName)] else [])
  }

  /** `mmap` is the map built from `pairs`: one key per namespace, holding
      that namespace's edges, latest first. */
  predicate Describes(mmap: MessageMap, pairs: seq<NodePair>)
  {
    && mmap.Keys == Namespaces(pairs)
    && forall ns :: ns in mmap ==> mmap[ns] == Reverse(EdgesFrom(pairs, ns))
  }

  /** `buildMessageMap`: every pair pushes an edge at the front of its
      sender's list (creating the list if needed) and makes sure the
      receiver has a list, without touching one that exists. */
  method BuildMessageMap(pairs: seq<NodePair>) returns (mmap: MessageMap)
    ensures mmap.Keys == Namespaces(pairs)
    ensures forall ns :: ns in mmap ==> mmap[ns] == Reverse(EdgesFrom(pairs, ns))
  {
    mmap := map[];
    var i: nat := 0;
    while i < |pairs|
      invariant i <= |pairs|
      invariant Describes(mmap, pairs[..i])
    {
      ghost var before := mmap;
      mmap := AddPair(mmap, pairs[i]);
      TakeSnoc(pairs, i);
      BuildStep(pairs[..i], pairs[i], pairs[..i + 1], before, mmap);
      i := i + 1;
    }
    assert pairs[..i] == pairs;
  }

  /** One round of the loop, visualizer.cpp:6-11: `mmap[sender]` creates
      an empty list if needed and the edge is pushed at its front; the
      receiver gets an empty list only if it has none. */
  method AddPair(mmap: MessageMap, pair: NodePair) returns (after: MessageMap)
    ensures after.Keys == mmap.Keys + {pair.0.nspace, pair.1.nspace}
    ensures after[pair.0.nspace] == [(pair.1.nspace, pair.0.typeName)] +
      (if pair.0.nspace in mmap then mmap[pair.0.nspace] else [])
    ensures forall ns :: ns in mmap && ns != pair.0.nspace ==> after[ns] == mmap[ns]
    ensures pair.1.nspace !in mmap && pair.1.nspace != pair.0.nspace ==> after[pair.1.nspace] == []
  {
    var senderModule, receiverModule := pair.0.nspace, pair.1.nspace;
    after := mmap;
    if senderModule !in after {
      after := after[senderModule := []];
    }
    after := after[senderModule := [(receiverModule, pair.0.typeName)] + after[senderModule]];
    if receiverModule !in after {
      after := after[receiverModule := []];
    }
  }

  /** One round of the loop keeps the map equal to the edges so far. */
  lemma BuildStep(prefix: seq<NodePair>, p: NodePair, whole: seq<NodePair>, before: MessageMap, after: MessageMap)
    requires Describes(before, prefix)
    requires after.Keys == before.Keys + {p.0.nspace, p.1.nspace}
    requires after[p.0.nspace] == [(p.1.nspace, p.0.typeName)] +
      (if p.0.nspace in before then before[p.0.nspace] else [])
    requires forall ns :: ns in before && ns != p.0.nspace ==> after[ns] == before[ns]
    requires p.1.nspace !in before && p.1.nspace != p.0.nspace ==> after[p.1.nspace] == []
    requires whole == prefix + [p]
    ensures Describes(after, whole)
  {
    var edge := (p.1.nspace, p.0.typeName);
    NamespacesSnoc(prefix, p, whole);
    forall ns | ns in after ensures after[ns] == Reverse(EdgesFrom(whole, ns)) {
      var oldEntry := if ns in before then before[ns] else [];
      if ns !in before {
        EdgesFromAbsent(prefix, ns);
      }
      EntryStep(prefix, p, whole, ns, oldEntry, after[ns]);
    }
  }

  /** One namespace's list after one round of the loop. */
  lemma EntryStep(prefix: seq<NodePair>, p: NodePair, whole: seq<NodePair>, ns: string,
                  oldEntry: seq<Edge>, newEntry: seq<Edge>)
    requires whole == prefix + [p]
    requires oldEntry == Reverse(EdgesFrom(prefix, ns))
    requires newEntry == if ns == p.0.nspace then [(p.1.nspace, p.0.typeName)] + oldEntry else oldEntry
    ensures newEntry == Reverse(EdgesFrom(whole, ns))
  {
    EdgesFromSnoc(prefix, p, whole, ns);
    if ns == p.0.nspace {
      ReverseSnoc(EdgesFrom(prefix, ns), (p.1.nspace, p.0.typeName));
    } else {
      assert EdgesFrom(prefix, ns) + [] == EdgesFrom(prefix, ns);
    }
  }

  lemma NamespacesSnoc(prefix: seq<NodePair>, p: NodePair, whole: seq<NodePair>)
    requires whole == prefix + [p]
    ensures Namespaces(whole) == Namespaces(prefix) + {p.0.nspace, p.1.nspace}
  {
    assert whole[..|prefix|] == prefix;
  }

  lemma EdgesFromSnoc(prefix: seq<NodePair>, p: NodePair, whole: seq<NodePair>, ns: string)
    requires whole == prefix + [p]
    ensures EdgesFrom(whole, ns) ==
      EdgesFrom(prefix, ns) + (if p.0.nspace == ns then [(p.1.nspace, p.0.typeName)] else [])
  {
    assert whole[..|prefix|] == prefix;
  }

  /** A namespace that occurs nowhere has no edges. */
  lemma {:induction false} EdgesFromAbsent(pairs: seq<NodePair>, ns: string)
    requires ns !in Namespaces(pairs)
    ensures EdgesFrom(pairs, ns) == []
  {
    if pairs != [] {
      EdgesFromAbsent(pairs[..|pairs| - 1], ns);
    }
  }

  /** The key set is the set of all sender and receiver namespaces. */
  lemma {:induction false} NamespacesMembership(pairs: seq<NodePair>, ns: string)
    ensures ns in Namespaces(pairs) <==> exists p :: p in pairs && (p.0.nspace == ns || p.1.nspace == ns)
  {
    if pairs != [] {
      var init, last := pairs[..|pairs| - 1], pairs[|pairs| - 1];
      assert pairs == init + [last];
      NamespacesMembership(init, ns);
      if ns in Namespaces(pairs) && ns !in Namespaces(init) {
        assert last in pairs;
      }
    }
  }

  /** An edge from `ns` is there exactly when some pair sent `ns`'s type to
      that receiver. */
  lemma {:induction false} EdgesFromMembership(pairs: seq<NodePair>, ns: string, e: Edge)
    ensures e in EdgesFrom(pairs, ns) <==>
      exists p :: p in pairs && p.0.nspace == ns && e == (p.1.nspace, p.0.typeName)
  {
    if pairs != [] {
      var init, last := pairs[..|pairs| - 1], pairs[|pairs| - 1];
      assert pairs == init + [last];
      EdgesFromMembership(init, ns, e);
    }
  }

  /** Number of pairs sent from `ns`. */
  function SentFrom(pairs: seq<NodePair>, ns: string): nat
  {
    if pairs == [] then 0
    else SentFrom(pairs[..|pairs| - 1], ns) + (if pairs[|pairs| - 1].0.nspace == ns then 1 else 0)
  }

  /** One edge per pair sent from `ns`, no more and no less. */
  lemma {:induction false} EdgesFromCount(pairs: seq<NodePair>, ns: string)
    ensures |EdgesFrom(pairs, ns)| == SentFrom(pairs, ns)
  {
    if pairs != [] {
      EdgesFromCount(pairs[..|pairs| - 1], ns);
    }
  }

  /** A namespace that only ever receives has no outgoing edges. */
  lemma ReceiverOnlyHasNoEdges(pairs: seq<NodePair>, ns: string)
    requires forall p :: p in pairs ==> p.0.nspace != ns
    ensures Reverse(EdgesFrom(pairs, ns)) == []
  {
    if EdgesFrom(pairs, ns) != [] {
      var e := EdgesFrom(pairs, ns)[0];
      EdgesFromMembership(pairs, ns, e);
    }
  }

  /** The character of a decimal digit. */
  function DigitChar(d: nat): char
    requires d < 10
  {
    "0123456789"[d]
  }

  /** `std::to_string` of an unsigned value: its decimal digits, no leading zero. */
  function Decimal(n: nat): (r: string)
    ensures |r| >= 1
    ensures forall k :: 0 <= k < |r| ==> '0' <= r[k] <= '9'
    ensures |r| > 1 ==> r[0] != '0'
  {
    if n < 10 then [DigitChar(n)]
    else Decimal(n / 10) + [DigitChar(n % 10)]
  }

  /** Reading a string of decimal digits back. */
  function ParseDecimal(s: string): nat
    requires forall k :: 0 <= k < |s| ==> '0' <= s[k] <= '9'
  {
    if s == [] then 0
    else ParseDecimal(s[..|s| - 1]) * 10 + (s[|s| - 1] as int - '0' as int)
  }

  lemma {:induction false} DecimalRoundTrip(n: nat)
    ensures ParseDecimal(Decimal(n)) == n
  {
    var r := Decimal(n);
    if n < 10 {
      DigitValue(n);
    } else {
      var q, d := n / 10, n % 10;
      assert r == Decimal(q) + [DigitChar(d)];
      assert r[..|r| - 1] == Decimal(q);
      DecimalRoundTrip(q);
      DigitValue(d);
      assert ParseDecimal(r) == q * 10 + d;
    }
  }

  lemma DigitValue(d: nat)
    requires d < 10
    ensures DigitChar(d) as int - '0' as int == d
  {
  }

  /** `getNodeName`, with `std::hash` as a parameter: `"Node"` followed by
      the decimal hash of the verbose name. */
  method GetNodeName(verboseName: string, hash: string -> nat) returns (nodename: string)
    ensures nodename == "Node" + Decimal(hash(verboseName))
  {
    nodename := "Node";
    nodename := nodename + Decimal(hash(verboseName));
  }

  /** Two verbose names get the same node name exactly when their hashes
      agree, and equal names always do. */
  lemma NodeNamesDistinguishHashes(h1: nat, h2: nat)
    ensures "Node" + Decimal(h1) == "Node" + Decimal(h2) <==> h1 == h2
  {
    if "Node" + Decimal(h1) == "Node" + Decimal(h2) {
      assert ("Node" + Decimal(h1))[4..] == Decimal(h1);
      assert ("Node" + Decimal(h2))[4..] == Decimal(h2);
      DecimalRoundTrip(h1);
      DecimalRoundTrip(h2);
    }
  }
}
