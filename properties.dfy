/** properties.cpp: recognising send and receive calls by their demangled
    names, with the check that guards against closures called inside them,
    and extracting the transmitted type of a channel end. */
module Properties {
  import opened Wrappers
  import opened Strings
  import opened Types
  import ChannelTypes

  const SendNames: seq<string> := [
    "$LT$std..sync..mpsc..Sender$LT$T$GT$$GT$::send::",
    "$LT$ipc_channel..ipc..IpcSender$LT$T$GT$$GT$::send::"]

  const RecvNames: seq<string> := [
    "$LT$std..sync..mpsc..Receiver$LT$T$GT$$GT$::recv::",
    "$LT$std..sync..mpsc..Receiver$LT$T$GT$$GT$::try_recv::",
    "$LT$ipc_channel..ipc..IpcReceiver$LT$T$GT$$GT$::recv::",
    "$LT$ipc_channel..ipc..IpcReceiver$LT$T$GT$$GT$::try_recv::"]

  /** `s.substr(from)` holds no `::`. */
  predicate NoScopeFrom(s: string, from: nat)
  {
    from <= |s| && !Contains(Substr(s, from, |s|), "::")
  }

  /** The search loop shared by `isSend` and `isRecv`: the first name, in
      list order, that occurs decides, by whether the text after its first
      occurrence holds another `::`. */
  function FirstOccurrenceDecides(names: seq<string>, s: string): bool
  {
    if names == [] then false
    else match Find(s, names[0])
      case Some(position) => NoScopeFrom(s, position + |names[0]|)
      case None => FirstOccurrenceDecides(names[1..], s)
  }

  /** `names[k]` is the first name that occurs in `s`, its first occurrence
      is at `i`, and nothing after that occurrence looks like a namespace. */
  ghost predicate DecidedBy(names: seq<string>, s: string, k: nat, i: nat)
  {
    && k < |names|
    && (forall j :: 0 <= j < k ==> !Contains(s, names[j]))
    && OccursAt(s, names[k], i)
    && (forall h: nat :: h < i ==> !OccursAt(s, names[k], h))
    && NoScopeFrom(s, i + |names[k]|)
  }

  /** The search loop accepts exactly when some name decides in its favour. */
  lemma {:induction false} FirstOccurrenceDecidesSpec(names: seq<string>, s: string)
    ensures FirstOccurrenceDecides(names, s) <==> exists k: nat, i: nat :: DecidedBy(names, s, k, i)
  {
    if names != [] {
      if Find(s, names[0]).Some? {
        HeadFoundDecides(names, s, Find(s, names[0]).value);
      } else {
        FirstOccurrenceDecidesSpec(names[1..], s);
        HeadMissingDefers(names, s);
      }
    }
  }

  /** The first name occurs: its first occurrence alone decides. */
  lemma HeadFoundDecides(names: seq<string>, s: string, position: nat)
    requires names != [] && Find(s, names[0]) == Some(position)
    ensures FirstOccurrenceDecides(names, s) <==> exists k: nat, i: nat :: DecidedBy(names, s, k, i)
  {
    HeadFoundVerdict(names, s, position);
    HeadFoundOnly(names, s, position);
    if NoScopeFrom(s, position + |names[0]|) {
      HeadFoundAccepts(names, s, position);
    }
  }

  /** Once the first name occurs, it alone decides: the later names are
      not consulted. */
  lemma HeadFoundVerdict(names: seq<string>, s: string, position: nat)
    requires names != [] && Find(s, names[0]) == Some(position)
    ensures FirstOccurrenceDecides(names, s) == NoScopeFrom(s, position + |names[0]|)
  {
  }

  lemma HeadFoundAccepts(names: seq<string>, s: string, position: nat)
    requires names != [] && Find(s, names[0]) == Some(position)
    requires NoScopeFrom(s, position + |names[0]|)
    ensures DecidedBy(names, s, 0, position)
  {
  }

  /** Only the first name, at its first occurrence, can decide. */
  lemma HeadFoundOnly(names: seq<string>, s: string, position: nat)
    requires names != [] && Find(s, names[0]) == Some(position)
    ensures forall k: nat, i: nat :: DecidedBy(names, s, k, i) ==>
      k == 0 && i == position && NoScopeFrom(s, position + |names[0]|)
  {
    forall k: nat, i: nat | DecidedBy(names, s, k, i)
      ensures k == 0 && i == position && NoScopeFrom(s, position + |names[0]|)
    {
      assert Contains(s, names[0]);
      assert OccursAt(s, names[0], position);
    }
  }

  /** The first name does not occur: the rest of the list decides, with
      every index shifted by one. */
  lemma HeadMissingDefers(names: seq<string>, s: string)
    requires names != [] && !Contains(s, names[0])
    ensures (exists k: nat, i: nat :: DecidedBy(names, s, k, i)) <==>
      (exists k: nat, i: nat :: DecidedBy(names[1..], s, k, i))
  {
    forall k: nat, i: nat | DecidedBy(names[1..], s, k, i) ensures DecidedBy(names, s, k + 1, i) {
      forall j | 0 <= j < k + 1 ensures !Contains(s, names[j]) {
        if j > 0 {
          assert names[j] == names[1..][j - 1];
        }
      }
    }
    forall k: nat, i: nat | DecidedBy(names, s, k, i) ensures k > 0 && DecidedBy(names[1..], s, k - 1, i) {
      forall j | 0 <= j < k - 1 ensures !Contains(s, names[1..][j]) {
        assert names[1..][j] == names[j + 1];
      }
    }
  }

  /** No name anywhere in `s` means no match. */
  lemma NoNameRejects(names: seq<string>, s: string)
    requires forall k :: 0 <= k < |names| ==> !Contains(s, names[k])
    ensures !FirstOccurrenceDecides(names, s)
  {
    FirstOccurrenceDecidesSpec(names, s);
  }

  /** `isSend(std::string)`. */
  predicate IsSend(demangledInvoke: string)
  {
    FirstOccurrenceDecides(SendNames, demangledInvoke)
  }

  /** `isRecv(std::string)`, over four names including the `try_recv` forms. */
  predicate IsRecv(demangledInvoke: string)
  {
    FirstOccurrenceDecides(RecvNames, demangledInvoke)
  }

  /** `isRecv` follows the same rule over its four names: the first of them
      to occur decides, by the text after its first occurrence. */
  lemma IsRecvDecided(s: string)
    ensures IsRecv(s) <==> exists k: nat, i: nat :: DecidedBy(RecvNames, s, k, i)
  {
    FirstOccurrenceDecidesSpec(RecvNames, s);
  }

  /** A name that starts with the first send name is a send exactly when
      no namespace follows it. */
  lemma SendAtStart(rest: string)
    ensures IsSend(SendNames[0] + rest) <==> !Contains(rest, "::")
  {
    var name := SendNames[0];
    var s := name + rest;
    assert OccursAt(s, name, 0);
    assert Find(s, name) == Some(0);
    assert Substr(s, |name|, |s|) == rest;
  }

  /** So a closure called within a send is rejected. */
  lemma ClosureInsideSendRejected(rest: string)
    ensures !IsSend(SendNames[0] + "{{closure}}::" + rest)
  {
    var after := "{{closure}}::" + rest;
    assert SendNames[0] + "{{closure}}::" + rest == SendNames[0] + after;
    assert OccursAt(after, "::", 11);
    OccursAtContains(after, "::", 11);
    SendAtStart(after);
  }

  /** An LLVM call or invoke instruction: `None` when there is no directly
      called function, otherwise the callee's (possibly empty) name. The two
      overloads of `isSend` on them are identical. */
  datatype CallSite = Invoke(callee: Option<string>) | Call(callee: Option<string>)

  /** `isSend(InvokeInst*)` and `isSend(CallInst*)`, with `itaniumDemangle`
      as a parameter. */
  function IsSendSite(site: CallSite, demangle: Demangler): (r: bool)
    ensures site.callee.None? ==> !r
    ensures site.callee == Some("") ==> !r
    ensures site.callee.Some? && demangle(site.callee.value).None? ==> !r
    ensures site.callee.Some? && site.callee.value != "" && demangle(site.callee.value).Some? ==>
      (r <==> IsSend(demangle(site.callee.value).value))
  {
    match site.callee
    case None => false
    case Some(name) =>
      if name == "" then false
      else match demangle(name)
        case None => false
        case Some(demangled) => IsSend(demangled)
  }

  /** `getSentType`: the `nullptr` / transmitted type / out-of-range outcome
      of stripping a sender prefix from `structName`. */
  method GetSentType(structName: string) returns (r: ChannelTypes.Extraction)
    ensures r == ChannelTypes.StripChannelType(ChannelTypes.SenderPrefixes, structName)
  {
    r := ChannelTypes.EraseChannelType(ChannelTypes.SenderPrefixes, structName);
  }

  /** `getReceivedType`, over the receiver prefixes. */
  method GetReceivedType(structName: string) returns (r: ChannelTypes.Extraction)
    ensures r == ChannelTypes.StripChannelType(ChannelTypes.ReceiverPrefixes, structName)
  {
    r := ChannelTypes.EraseChannelType(ChannelTypes.ReceiverPrefixes, structName);
  }
}
