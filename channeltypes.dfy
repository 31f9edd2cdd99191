/** `getSentType` / `getReceivedType` (identical in properties.cpp and
    scanner.cpp): the transmitted type `T` of a `Sender<T>` or `Receiver<T>`
    struct name, found by erasing the channel prefix and the last `>`. */
module ChannelTypes {
  import opened Wrappers
  import opened Strings

  /** The returned `const char*`: `nullptr`, the extracted name, or the
      `std::out_of_range` that `erase(npos)` throws when no `>` is left. */
  datatype Extraction = NoChannel | Extracted(typeName: string) | EraseOutOfRange

  const MpscSender := "std::sync::mpsc::Sender<"
  const IpcSender := "ipc_channel::ipc::IpcSender<"
  const MpscReceiver := "std::sync::mpsc::Receiver<"
  const IpcReceiver := "ipc_channel::ipc::IpcReceiver<"

  const SenderPrefixes: seq<string> := [MpscSender, IpcSender]
  const ReceiverPrefixes: seq<string> := [MpscReceiver, IpcReceiver]

  /** What is left of `name` once the first `|prefix|` characters are erased
      and everything from the last `>` on is erased. */
  function StripWrapper(prefix: string, name: string): Extraction
  {
    var rest := Erase(name, 0, |prefix|);
    match RFind(rest, '>')
    case None => EraseOutOfRange
    case Some(gt) => Extracted(Erase(rest, gt, |rest|))
  }

  /** The first prefix, in list order, that occurs ANYWHERE in `name`
      decides; later prefixes are not consulted. */
  function StripChannelType(prefixes: seq<string>, name: string): Extraction
  {
    if prefixes == [] then NoChannel
    else if Contains(name, prefixes[0]) then StripWrapper(prefixes[0], name)
    else StripChannelType(prefixes[1..], name)
  }

  /** The loop of properties.cpp:80-88, erasing the local copy in place. */
  method EraseChannelType(prefixes: seq<string>, structName: string) returns (r: Extraction)
    ensures r == StripChannelType(prefixes, structName)
  {
    var name := structName;
    var i := 0;
    while i < |prefixes|
      invariant i <= |prefixes|
      invariant StripChannelType(prefixes[i..], structName) == StripChannelType(prefixes, structName)
    {
      var prefix := prefixes[i];
      assert prefixes[i..][1..] == prefixes[i + 1..];
      if Find(name, prefix).Some? {
        name := Erase(name, 0, |prefix|);
        var gt := RFind(name, '>');
        if gt.None? {
          return EraseOutOfRange;
        }
        name := Erase(name, gt.value, |name|);
        return Extracted(name);
      }
      i := i + 1;
    }
    return NoChannel;
  }

  /** `nullptr` exactly when none of the prefixes occurs. */
  lemma {:induction false} NoChannelIffNoPrefix(prefixes: seq<string>, name: string)
    ensures StripChannelType(prefixes, name) == NoChannel <==>
      forall k :: 0 <= k < |prefixes| ==> !Contains(name, prefixes[k])
  {
    if prefixes != [] {
      NoChannelIffNoPrefix(prefixes[1..], name);
      if Contains(name, prefixes[0]) {
        var rest := Erase(name, 0, |prefixes[0]|);
        assert StripWrapper(prefixes[0], name) != NoChannel;
      } else {
        assert forall k :: 1 <= k < |prefixes| ==> prefixes[k] == prefixes[1..][k - 1];
      }
    }
  }

  /** Erasing `|prefix|` characters and the trailing `>` of `prefix + T + ">"` gives back `T`. */
  lemma StripWrapperRoundTrip(prefix: string, t: string)
    ensures StripWrapper(prefix, prefix + t + ">") == Extracted(t)
  {
    var name := prefix + t + ">";
    var rest := Erase(name, 0, |prefix|);
    assert rest == t + ">";
    assert RFind(rest, '>') == Some(|t|);
    assert Erase(rest, |t|, |rest|) == t;
  }

  /** The round trip through the first prefix of the list holds for every `T`. */
  lemma FirstPrefixRoundTrip(prefixes: seq<string>, t: string)
    requires prefixes != []
    ensures StripChannelType(prefixes, prefixes[0] + t + ">") == Extracted(t)
  {
    var name := prefixes[0] + t + ">";
    assert OccursAt(name, prefixes[0], 0);
    StripWrapperRoundTrip(prefixes[0], t);
  }

  lemma MpscSenderRoundTrip(t: string)
    ensures StripChannelType(SenderPrefixes, MpscSender + t + ">") == Extracted(t)
  {
    FirstPrefixRoundTrip(SenderPrefixes, t);
  }

  lemma MpscReceiverRoundTrip(t: string)
    ensures StripChannelType(ReceiverPrefixes, MpscReceiver + t + ">") == Extracted(t)
  {
    FirstPrefixRoundTrip(ReceiverPrefixes, t);
  }

  /** An occurrence of `p` (which starts with `s` and ends with `<`) in
      `w + t + ">"` lies inside `t` when `w` holds no `s` at all. */
  lemma OccurrenceInsidePayload(w: string, t: string, p: string, i: nat)
    requires |p| > 0 && p[0] == 's' && p[|p| - 1] == '<'
    requires forall k :: 0 <= k < |w| ==> w[k] != 's'
    requires OccursAt(w + t + ">", p, i)
    ensures Contains(t, p)
  {
    var name := w + t + ">";
    assert forall k :: 0 <= k < |w| ==> name[k] == w[k];
    assert name[i] == 's';
    assert name[i + |p| - 1] == '<';
    assert name[|name| - 1] == '>';
    assert i >= |w| && i + |p| <= |w| + |t|;
    assert name[i..i + |p|] == t[i - |w|..i - |w| + |p|];
    OccursAtContains(t, p, i - |w|);
  }

  /** The mpsc prefixes start with `s` and end with `<`; the IPC prefixes
      hold no `s`. */
  lemma PrefixShapes()
    ensures MpscSender[0] == 's' && MpscSender[|MpscSender| - 1] == '<'
    ensures MpscReceiver[0] == 's' && MpscReceiver[|MpscReceiver| - 1] == '<'
    ensures forall k :: 0 <= k < |IpcSender| ==> IpcSender[k] != 's'
    ensures forall k :: 0 <= k < |IpcReceiver| ==> IpcReceiver[k] != 's'
  {
  }

  /** The round trip through the second prefix holds when the first one
      does not occur anywhere in the name. */
  lemma SecondPrefixRoundTrip(prefixes: seq<string>, t: string)
    requires |prefixes| >= 2 && !Contains(prefixes[1] + t + ">", prefixes[0])
    ensures StripChannelType(prefixes, prefixes[1] + t + ">") == Extracted(t)
  {
    var name := prefixes[1] + t + ">";
    assert prefixes[1..][0] == prefixes[1];
    assert OccursAt(name, prefixes[1], 0);
    StripWrapperRoundTrip(prefixes[1], t);
  }

  /** The IPC round trip holds when `T` does not contain the mpsc prefix;
      `IpcSenderMisparsed` shows it fails otherwise, because the mpsc prefix
      is tried first, anywhere in the name. */
  lemma IpcSenderRoundTrip(t: string)
    requires !Contains(t, MpscSender)
    ensures StripChannelType(SenderPrefixes, IpcSender + t + ">") == Extracted(t)
  {
    var name := IpcSender + t + ">";
    if Contains(name, MpscSender) {
      var i: nat :| i <= |name| && OccursAt(name, MpscSender, i);
      PrefixShapes();
      OccurrenceInsidePayload(IpcSender, t, MpscSender, i);
    }
    SecondPrefixRoundTrip(SenderPrefixes, t);
  }

  /** The same over the receiver prefixes; `IpcReceiverMisparsed` is its
      converse. */
  lemma IpcReceiverRoundTrip(t: string)
    requires !Contains(t, MpscReceiver)
    ensures StripChannelType(ReceiverPrefixes, IpcReceiver + t + ">") == Extracted(t)
  {
    var name := IpcReceiver + t + ">";
    if Contains(name, MpscReceiver) {
      var i: nat :| i <= |name| && OccursAt(name, MpscReceiver, i);
      PrefixShapes();
      OccurrenceInsidePayload(IpcReceiver, t, MpscReceiver, i);
    }
    SecondPrefixRoundTrip(ReceiverPrefixes, t);
  }

  /** When the payload of `outer + t + ">"` contains the shorter prefix
      `inner`, erasing `|inner|` characters leaves the tail of `outer` in
      front of the payload. */
  lemma WrongPrefixErased(outer: string, inner: string, t: string)
    requires |inner| <= |outer| && Contains(t, inner)
    ensures Contains(outer + t + ">", inner)
    ensures StripWrapper(inner, outer + t + ">") == Extracted(outer[|inner|..] + t)
  {
    var i: nat :| i <= |t| && OccursAt(t, inner, i);
    OccurrenceShifted(outer, t, ">", inner, i);
    var name := outer + t + ">";
    assert name[|inner|..] == (outer[|inner|..] + t) + ">";
    StripKnownTail(inner, name, outer[|inner|..] + t);
  }

  /** An occurrence inside `t` is one inside `a + t + b`, shifted by `|a|`. */
  lemma OccurrenceShifted(a: string, t: string, b: string, p: string, i: nat)
    requires OccursAt(t, p, i)
    ensures Contains(a + t + b, p)
  {
    var s := a + t + b;
    assert s[|a| + i..|a| + i + |p|] == t[i..i + |p|];
    OccursAtContains(s, p, |a| + i);
  }

  /** Whatever precedes it, a name whose text after the erased characters is
      `w + ">"` yields `w`. */
  lemma StripKnownTail(prefix: string, name: string, w: string)
    requires |prefix| <= |name| && name[|prefix|..] == w + ">"
    ensures StripWrapper(prefix, name) == Extracted(w)
  {
    var rest := Erase(name, 0, |prefix|);
    assert rest == w + ">";
    assert RFind(rest, '>') == Some(|w|);
    assert Erase(rest, |w|, |rest|) == w;
  }

  /** The converse of `IpcSenderRoundTrip`: when `T` contains the mpsc
      sender prefix, the IPC sender never gives back `T`; the last four
      characters of the IPC prefix stay in front of it. */
  lemma IpcSenderMisparsed(t: string)
    requires Contains(t, MpscSender)
    ensures StripChannelType(SenderPrefixes, IpcSender + t + ">") == Extracted("der<" + t)
    ensures StripChannelType(SenderPrefixes, IpcSender + t + ">") != Extracted(t)
  {
    WrongPrefixErased(IpcSender, MpscSender, t);
    assert IpcSender[|MpscSender|..] == "der<";
    assert |"der<" + t| != |t|;
  }

  /** The converse of `IpcReceiverRoundTrip`, over the receiver prefixes. */
  lemma IpcReceiverMisparsed(t: string)
    requires Contains(t, MpscReceiver)
    ensures StripChannelType(ReceiverPrefixes, IpcReceiver + t + ">") == Extracted("ver<" + t)
    ensures StripChannelType(ReceiverPrefixes, IpcReceiver + t + ">") != Extracted(t)
  {
    WrongPrefixErased(IpcReceiver, MpscReceiver, t);
    assert IpcReceiver[|MpscReceiver|..] == "ver<";
    assert |"ver<" + t| != |t|;
  }

  /** So the IPC round trips hold exactly when `T` lacks the mpsc prefix. */
  lemma IpcRoundTripIff(t: string)
    ensures StripChannelType(SenderPrefixes, IpcSender + t + ">") == Extracted(t) <==> !Contains(t, MpscSender)
    ensures StripChannelType(ReceiverPrefixes, IpcReceiver + t + ">") == Extracted(t) <==> !Contains(t, MpscReceiver)
  {
    if Contains(t, MpscSender) {
      IpcSenderMisparsed(t);
    } else {
      IpcSenderRoundTrip(t);
    }
    if Contains(t, MpscReceiver) {
      IpcReceiverMisparsed(t);
    } else {
      IpcReceiverRoundTrip(t);
    }
  }

  /** As written, the mpsc prefix is searched for anywhere, so an IPC sender
      that carries an mpsc sender is cut at the wrong place: the result is
      four characters longer than the payload and is not it. */
  lemma NestedSenderMisparsed()
    ensures var t := MpscSender + "u8>";
      var r := StripChannelType(SenderPrefixes, IpcSender + t + ">");
      r.Extracted? && |r.typeName| == |t| + 4 && r.typeName != t
  {
    var t := MpscSender + "u8>";
    var name := IpcSender + t + ">";
    assert name[|IpcSender|..][..|MpscSender|] == MpscSender;
    assert OccursAt(name, MpscSender, |IpcSender|);
    OccursAtContains(name, MpscSender, |IpcSender|);
    var rest := Erase(name, 0, |MpscSender|);
    assert |rest| == |name| - |MpscSender|;
    assert rest[|rest| - 1] == '>';
    assert RFind(rest, '>') == Some(|rest| - 1);
  }

  /** The evidently intended reading: a prefix counts only at the start of
      the name, as the comment at properties.cpp:78 says. */
  function StripAnchoredChannelType(prefixes: seq<string>, name: string): Extraction
  {
    if prefixes == [] then NoChannel
    else if IsPrefix(prefixes[0], name) then StripWrapper(prefixes[0], name)
    else StripAnchoredChannelType(prefixes[1..], name)
  }

  /** Anchored, the round trip holds for every prefix `k` whose predecessors
      are not prefixes of the wrapped name. */
  lemma {:induction false} AnchoredRoundTrip(prefixes: seq<string>, k: nat, t: string)
    requires k < |prefixes|
    requires forall j :: 0 <= j < k ==> !IsPrefix(prefixes[j], prefixes[k] + t + ">")
    ensures StripAnchoredChannelType(prefixes, prefixes[k] + t + ">") == Extracted(t)
  {
    if k == 0 {
      StripWrapperRoundTrip(prefixes[0], t);
    } else {
      assert !IsPrefix(prefixes[0], prefixes[k] + t + ">");
      assert prefixes[1..][k - 1] == prefixes[k];
      AnchoredRoundTrip(prefixes[1..], k - 1, t);
    }
  }

  /** Every `T` survives the anchored extraction through either sender prefix. */
  lemma AnchoredSenderRoundTrip(t: string)
    ensures StripAnchoredChannelType(SenderPrefixes, MpscSender + t + ">") == Extracted(t)
    ensures StripAnchoredChannelType(SenderPrefixes, IpcSender + t + ">") == Extracted(t)
  {
    AnchoredRoundTrip(SenderPrefixes, 0, t);
    assert (IpcSender + t + ">")[0] != MpscSender[0];
    AnchoredRoundTrip(SenderPrefixes, 1, t);
  }

  /** Every `T` survives the anchored extraction through either receiver prefix. */
  lemma AnchoredReceiverRoundTrip(t: string)
    ensures StripAnchoredChannelType(ReceiverPrefixes, MpscReceiver + t + ">") == Extracted(t)
    ensures StripAnchoredChannelType(ReceiverPrefixes, IpcReceiver + t + ">") == Extracted(t)
  {
    AnchoredRoundTrip(ReceiverPrefixes, 0, t);
    assert (IpcReceiver + t + ">")[0] != MpscReceiver[0];
    AnchoredRoundTrip(ReceiverPrefixes, 1, t);
  }

  /** Anchored, a name that merely mentions a channel type is not one. */
  lemma {:induction false} AnchoredNoChannelIffNoPrefix(prefixes: seq<string>, name: string)
    ensures StripAnchoredChannelType(prefixes, name) == NoChannel <==>
      forall k :: 0 <= k < |prefixes| ==> !IsPrefix(prefixes[k], name)
  {
    if prefixes != [] {
      AnchoredNoChannelIffNoPrefix(prefixes[1..], name);
      if !IsPrefix(prefixes[0], name) {
        assert forall k :: 1 <= k < |prefixes| ==> prefixes[k] == prefixes[1..][k - 1];
      }
    }
  }
}
