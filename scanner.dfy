/** scanner.cpp: the plain substring tests for send and receive calls, the
    namespace of a function built from its debug-info scope chain, and the
    order in which the per-module results are combined. */
module Scanner {
  import opened Wrappers
  import opened Seqs
  import opened Strings
  import opened Types
  import ChannelTypes
  import Properties

  const SendNames: seq<string> := [
    "$LT$std..sync..mpsc..Sender$LT$T$GT$$GT$::send",
    "$LT$ipc_channel..ipc..IpcSender$LT$T$GT$$GT$::send"]

  const RecvNames: seq<string> := [
    "$LT$std..sync..mpsc..Receiver$LT$T$GT$$GT$::recv",
    "$LT$std..sync..mpsc..Receiver$LT$T$GT$$GT$::try_recv",
    "$LT$ipc_channel..ipc..IpcReceiver$LT$T$GT$$GT$::recv",
    "$LT$ipc_channel..ipc..IpcReceiver$LT$T$GT$$GT$::try_recv"]

  /** The search loop of `isSend` / `isRecv`: does any of the names occur? */
  function AnyOccurs(names: seq<string>, s: string): (r: bool)
    ensures r <==> exists k :: 0 <= k < |names| && Contains(s, names[k])
  {
    if names == [] then false
    else if Find(s, names[0]).Some? then true
    else
      var r := AnyOccurs(names[1..], s);
      assert forall k :: 1 <= k < |names| ==> names[k] == names[1..][k - 1];
      r
  }

  predicate IsSend(demangledInvoke: string)
  {
    AnyOccurs(SendNames, demangledInvoke)
  }

  predicate IsRecv(demangledInvoke: string)
  {
    AnyOccurs(RecvNames, demangledInvoke)
  }

  /** A needle's prefix occurs wherever the needle does. */
  lemma ContainsNeedlePrefix(s: string, t: string, n: nat)
    requires Contains(s, t) && n <= |t|
    ensures Contains(s, t[..n])
  {
    var i: nat :| i <= |s| && OccursAt(s, t, i);
    assert s[i..][..n] == t[..n];
    OccursAtContains(s, t[..n], i);
  }

  /** properties.cpp's names are these names followed by `::`. */
  lemma SendNamesExtended()
    ensures |Properties.SendNames| == |SendNames|
    ensures forall k :: 0 <= k < |SendNames| ==> Properties.SendNames[k] == SendNames[k] + "::"
  {
    assert Properties.SendNames[0] == SendNames[0] + "::";
    assert Properties.SendNames[1] == SendNames[1] + "::";
  }

  lemma RecvNamesExtended()
    ensures |Properties.RecvNames| == |RecvNames|
    ensures forall k :: 0 <= k < |RecvNames| ==> Properties.RecvNames[k] == RecvNames[k] + "::"
  {
    assert Properties.RecvNames[0] == RecvNames[0] + "::";
    assert Properties.RecvNames[1] == RecvNames[1] + "::";
    assert Properties.RecvNames[2] == RecvNames[2] + "::";
    assert Properties.RecvNames[3] == RecvNames[3] + "::";
  }

  /** Where `name + "::"` occurs, `name` occurs. */
  lemma ExtendedOccurrence(s: string, name: string, i: nat)
    requires OccursAt(s, name + "::", i)
    ensures Contains(s, name)
  {
    OccursAtContains(s, name + "::", i);
    ContainsNeedlePrefix(s, name + "::", |name|);
    assert (name + "::")[..|name|] == name;
  }

  /** Every call the closure-aware test of properties.cpp accepts as a send
      is a send here too: these names are those names without the last `::`. */
  lemma PropertiesSendIsScannerSend(s: string)
    ensures Properties.IsSend(s) ==> IsSend(s)
  {
    if Properties.IsSend(s) {
      Properties.FirstOccurrenceDecidesSpec(Properties.SendNames, s);
      var k: nat, i: nat :| Properties.DecidedBy(Properties.SendNames, s, k, i);
      SendNamesExtended();
      ExtendedOccurrence(s, SendNames[k], i);
    }
  }

  lemma PropertiesRecvIsScannerRecv(s: string)
    ensures Properties.IsRecv(s) ==> IsRecv(s)
  {
    if Properties.IsRecv(s) {
      Properties.FirstOccurrenceDecidesSpec(Properties.RecvNames, s);
      var k: nat, i: nat :| Properties.DecidedBy(Properties.RecvNames, s, k, i);
      RecvNamesExtended();
      ExtendedOccurrence(s, RecvNames[k], i);
    }
  }

  /** The converse fails: a closure inside a send is a send here. */
  lemma ClosureInsideSendAccepted(rest: string)
    ensures IsSend(Properties.SendNames[0] + "{{closure}}::" + rest)
    ensures !Properties.IsSend(Properties.SendNames[0] + "{{closure}}::" + rest)
  {
    var s := Properties.SendNames[0] + "{{closure}}::" + rest;
    assert s[..|SendNames[0]|] == SendNames[0];
    assert OccursAt(s, SendNames[0], 0);
    OccursAtContains(s, SendNames[0], 0);
    Properties.ClosureInsideSendRejected(rest);
  }

  method GetSentType(structName: string) returns (r: ChannelTypes.Extraction)
    ensures r == ChannelTypes.StripChannelType(ChannelTypes.SenderPrefixes, structName)
  {
    r := ChannelTypes.EraseChannelType(ChannelTypes.SenderPrefixes, structName);
  }

  method GetReceivedType(structName: string) returns (r: ChannelTypes.Extraction)
    ensures r == ChannelTypes.StripChannelType(ChannelTypes.ReceiverPrefixes, structName)
  {
    r := ChannelTypes.EraseChannelType(ChannelTypes.ReceiverPrefixes, structName);
  }

  /** The name LLVM's debug info gives a scope that is an `impl` block. */
  const ImplScope := "{{impl}}"

  /** Names joined with `::`, first name first. */
  function JoinPath(names: seq<string>): string
    requires names != []
  {
    if |names| == 1 then names[0]
    else JoinPath(names[..|names| - 1]) + "::" + names[|names| - 1]
  }

  /** Joining one more name of a list appends `::` and that name. */
  lemma JoinPathExtend(names: seq<string>, m: nat)
    requires 1 <= m < |names|
    ensures JoinPath(names[..m + 1]) == JoinPath(names[..m]) + "::" + names[m]
  {
    assert names[..m + 1][..m] == names[..m];
  }

  /** The first index from `from` on whose name is `{{impl}}`, or `|names|`. */
  function ImplFrom(names: seq<string>, from: nat): (r: nat)
    requires from <= |names|
    decreases |names| - from
    ensures from <= r <= |names|
    ensures r < |names| ==> names[r] == ImplScope
    ensures forall j :: from <= j < r ==> names[j] != ImplScope
  {
    if from == |names| || names[from] == ImplScope then from
    else ImplFrom(names, from + 1)
  }

  /** The namespace `getNamespace` builds: scope names from the outermost
      inward, the outermost always included, cut before the first later
      `{{impl}}`. The outermost name is the last scope of the chain. */
  function NamespaceOf(outermostFirst: seq<string>): string
    requires outermostFirst != []
  {
    JoinPath(outermostFirst[..ImplFrom(outermostFirst, 1)])
  }

  /** The joined string starts with the first name. */
  lemma {:induction false} JoinPathStartsWithFirst(names: seq<string>)
    requires names != []
    ensures IsPrefix(names[0], JoinPath(names))
  {
    if |names| > 1 {
      JoinPathStartsWithFirst(names[..|names| - 1]);
    }
  }

  /** The joined string is made of the names and one `::` between each two. */
  lemma {:induction false} JoinPathLength(names: seq<string>)
    requires names != []
    ensures |JoinPath(names)| == TotalLength(names) + 2 * (|names| - 1)
  {
    if |names| > 1 {
      JoinPathLength(names[..|names| - 1]);
      TotalLengthSnoc(names[..|names| - 1], names[|names| - 1]);
      assert names[..|names| - 1] + [names[|names| - 1]] == names;
    }
  }

  lemma {:induction false} TotalLengthSnoc<T>(ss: seq<seq<T>>, s: seq<T>)
    ensures TotalLength(ss + [s]) == TotalLength(ss) + |s|
  {
    if ss != [] {
      assert (ss + [s])[1..] == ss[1..] + [s];
      TotalLengthSnoc(ss[1..], s);
    }
  }

  /** The outermost name always starts the namespace. */
  lemma NamespaceStartsWithOutermost(outermostFirst: seq<string>)
    requires outermostFirst != []
    ensures IsPrefix(outermostFirst[0], NamespaceOf(outermostFirst))
  {
    var cut := ImplFrom(outermostFirst, 1);
    assert outermostFirst[..cut][0] == outermostFirst[0];
    JoinPathStartsWithFirst(outermostFirst[..cut]);
  }

  /** Without a later `{{impl}}`, every name is joined. */
  lemma NamespaceWithoutImpl(outermostFirst: seq<string>)
    requires outermostFirst != []
    requires forall j :: 1 <= j < |outermostFirst| ==> outermostFirst[j] != ImplScope
    ensures NamespaceOf(outermostFirst) == JoinPath(outermostFirst)
  {
    var cut := ImplFrom(outermostFirst, 1);
    assert cut == |outermostFirst|;
    assert outermostFirst[..cut] == outermostFirst;
  }

  /** The names from the first later `{{impl}}` on do not matter. */
  lemma NamespaceIgnoresAfterImpl(outermostFirst: seq<string>, j: nat, tail: seq<string>)
    requires 1 <= j < |outermostFirst| && outermostFirst[j] == ImplScope
    ensures NamespaceOf(outermostFirst) == NamespaceOf(outermostFirst[..j + 1] + tail)
  {
    var other := outermostFirst[..j + 1] + tail;
    var cut := ImplFrom(outermostFirst, 1);
    var cut2 := ImplFrom(other, 1);
    assert forall q :: 0 <= q <= j ==> other[q] == outermostFirst[q];
    assert cut == cut2;
    assert other[..cut2] == outermostFirst[..cut];
  }

  /** `getNamespace`: the scope chain starts at the function's own scope
      `innermost`, followed by its parents out to the outermost. The names
      are pushed on a stack in that order, so its top is the outermost name;
      then the names are popped and appended until the stack is empty or its
      top is `{{impl}}`. */
  method GetNamespace(innermost: string, parents: seq<string>) returns (ns: string)
    ensures ns == NamespaceOf(Reverse([innermost] + parents))
  {
    var scopes := [innermost] + parents;
    ghost var outer := Reverse(scopes);
    // the stack, top at the end
    var namestack := [innermost];
    var k := 0;
    while k < |parents|
      invariant k <= |parents|
      invariant namestack == scopes[..k + 1]
    {
      namestack := namestack + [parents[k]];
      k := k + 1;
    }
    assert namestack == scopes;
    ns := namestack[|namestack| - 1];
    namestack := namestack[..|namestack| - 1];
    assert outer[..1] == [ns] by {
      ReverseAt(scopes);
    }
    ghost var taken := 1;
    while |namestack| > 0 && namestack[|namestack| - 1] != ImplScope
      invariant taken == |scopes| - |namestack| && 1 <= taken <= |scopes|
      invariant namestack == scopes[..|namestack|]
      invariant ns == JoinPath(outer[..taken])
      invariant forall j :: 1 <= j < taken ==> outer[j] != ImplScope
      decreases |namestack|
    {
      var top := namestack[|namestack| - 1];
      assert top == outer[taken] by {
        ReverseAt(scopes);
      }
      JoinPathExtend(outer, taken);
      ns := ns + "::" + top;
      namestack := namestack[..|namestack| - 1];
      taken := taken + 1;
    }
    assert ImplFrom(outer, 1) == taken by {
      if taken < |outer| {
        assert outer[taken] == namestack[|namestack| - 1] by {
          ReverseAt(scopes);
        }
      }
    }
  }

  /** The per-module send lists, in module order. */
  function SendLists(scanned: seq<(seq<MessagingNode>, seq<MessagingNode>)>): (r: seq<seq<MessagingNode>>)
    ensures |r| == |scanned| && forall k :: 0 <= k < |r| ==> r[k] == scanned[k].0
  {
    seq(|scanned|, k requires 0 <= k < |scanned| => scanned[k].0)
  }

  /** The per-module receive lists, in module order. */
  function RecvLists(scanned: seq<(seq<MessagingNode>, seq<MessagingNode>)>): (r: seq<seq<MessagingNode>>)
    ensures |r| == |scanned| && forall k :: 0 <= k < |r| ==> r[k] == scanned[k].1
  {
    seq(|scanned|, k requires 0 <= k < |scanned| => scanned[k].1)
  }

  /** `scan_modules`, given what `scan_module` found in each module in turn:
      each module's lists are spliced in front of what was collected before. */
  method ScanModules(scanned: seq<(seq<MessagingNode>, seq<MessagingNode>)>)
    returns (sends: seq<MessagingNode>, recvs: seq<MessagingNode>)
    ensures sends == Flatten(Reverse(SendLists(scanned)))
    ensures recvs == Flatten(Reverse(RecvLists(scanned)))
  {
    sends, recvs := [], [];
    var i := 0;
    while i < |scanned|
      invariant i <= |scanned|
      invariant sends == Flatten(Reverse(SendLists(scanned)[..i]))
      invariant recvs == Flatten(Reverse(RecvLists(scanned)[..i]))
    {
      var (funcSend, funcRecv) := scanned[i];
      assert SendLists(scanned)[..i + 1] == SendLists(scanned)[..i] + [funcSend];
      assert RecvLists(scanned)[..i + 1] == RecvLists(scanned)[..i] + [funcRecv];
      ReverseSnoc(SendLists(scanned)[..i], funcSend);
      ReverseSnoc(RecvLists(scanned)[..i], funcRecv);
      sends := funcSend + sends;
      recvs := funcRecv + recvs;
      i := i + 1;
    }
    assert SendLists(scanned)[..i] == SendLists(scanned);
    assert RecvLists(scanned)[..i] == RecvLists(scanned);
  }

  /** The combined list is as long as all the per-module lists together. */
  lemma SplicedLength<T>(lists: seq<seq<T>>)
    ensures |Flatten(Reverse(lists))| == TotalLength(lists)
  {
    FlattenLength(Reverse(lists));
    TotalLengthReverse(lists);
  }

  lemma {:induction false} TotalLengthReverse<T>(lists: seq<seq<T>>)
    ensures TotalLength(Reverse(lists)) == TotalLength(lists)
  {
    if lists != [] {
      TotalLengthReverse(lists[1..]);
      TotalLengthSnoc(Reverse(lists[1..]), lists[0]);
    }
  }

  /** Where module `k`'s block starts: after the lists of all later modules. */
  function BlockStart<T>(lists: seq<seq<T>>, k: nat): nat
    requires k < |lists|
  {
    TotalLength(lists[k + 1..])
  }

  /** Module `k`'s list appears, in its own order, starting at `BlockStart`. */
  lemma SplicedBlock<T>(lists: seq<seq<T>>, k: nat, t: nat)
    requires k < |lists| && t < |lists[k]|
    ensures BlockStart(lists, k) + t < |Flatten(Reverse(lists))|
    ensures Flatten(Reverse(lists))[BlockStart(lists, k) + t] == lists[k][t]
  {
    BlockInReverse(lists, k);
    BlockAt(Reverse(lists), lists, k, t);
  }

  lemma BlockAt<T>(rev: seq<seq<T>>, lists: seq<seq<T>>, k: nat, t: nat)
    requires k < |lists| == |rev| && t < |lists[k]|
    requires rev[|lists| - 1 - k] == lists[k]
    requires TotalLength(rev[..|lists| - 1 - k]) == BlockStart(lists, k)
    ensures BlockStart(lists, k) + t < |Flatten(rev)|
    ensures Flatten(rev)[BlockStart(lists, k) + t] == lists[k][t]
  {
    FlattenAt(rev, |lists| - 1 - k, t, BlockStart(lists, k));
  }

  /** In the reversed list of lists, module `k` sits at `|lists| - 1 - k`
      and the lists in front of it are the later modules'. */
  lemma BlockInReverse<T>(lists: seq<seq<T>>, k: nat)
    requires k < |lists|
    ensures Reverse(lists)[|lists| - 1 - k] == lists[k]
    ensures TotalLength(Reverse(lists)[..|lists| - 1 - k]) == BlockStart(lists, k)
  {
    ReverseAt(lists);
    ReverseFront(lists, k);
    TotalLengthReverse(lists[k + 1..]);
  }

  /** A later module's block ends before an earlier module's block begins. */
  lemma LaterModulesFirst<T>(lists: seq<seq<T>>, k1: nat, k2: nat)
    requires k1 < k2 < |lists|
    ensures BlockStart(lists, k2) + |lists[k2]| <= BlockStart(lists, k1)
  {
    assert lists[k1 + 1..] == lists[k1 + 1..k2] + [lists[k2]] + lists[k2 + 1..];
    TotalLengthConcat(lists[k1 + 1..k2] + [lists[k2]], lists[k2 + 1..]);
    TotalLengthSnoc(lists[k1 + 1..k2], lists[k2]);
  }

  lemma {:induction false} TotalLengthConcat<T>(a: seq<seq<T>>, b: seq<seq<T>>)
    ensures TotalLength(a + b) == TotalLength(a) + TotalLength(b)
  {
    if a == [] {
      assert a + b == b;
    } else {
      assert (a + b)[1..] == a[1..] + b;
      TotalLengthConcat(a[1..], b);
    }
  }
}
