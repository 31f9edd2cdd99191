/** analysisguide.cpp: the filter that keeps the guided analysis out of the
    standard library's own functions. */
module AnalysisGuide {
  import opened Wrappers
  import opened Strings
  import opened Types

  const IgnorablePrefixes: seq<string> :=
    ["core::", "_$LT$core..", "alloc::", "_$LT$alloc..", "std::", "_$LT$std.."]

  /** The loop of analysisguide.cpp:21-23: does the name's leading
      `substr(0, size)` equal one of the prefixes? */
  function HasIgnorablePrefix(prefixes: seq<string>, fnName: string): (r: bool)
    ensures r <==> exists k :: 0 <= k < |prefixes| && IsPrefix(prefixes[k], fnName)
  {
    if prefixes == [] then false
    else if Substr(fnName, 0, |prefixes[0]|) == prefixes[0] then true
    else
      var r := HasIgnorablePrefix(prefixes[1..], fnName);
      assert forall k :: 1 <= k < |prefixes| ==> prefixes[k] == prefixes[1..][k - 1];
      r
  }

  /** `isIgnorable`, with the callee's name (empty when it has none) and
      `itaniumDemangle` as parameters. */
  function IsIgnorable(fnName: string, demangle: Demangler): (r: bool)
    ensures fnName == "" ==> !r
    ensures demangle(fnName).None? ==> !r
    ensures fnName != "" && demangle(fnName).Some? ==>
      (r <==> exists k :: 0 <= k < |IgnorablePrefixes| && IsPrefix(IgnorablePrefixes[k], demangle(fnName).value))
  {
    if fnName == "" then false
    else match demangle(fnName)
      case None => false
      case Some(demangled) => HasIgnorablePrefix(IgnorablePrefixes, demangled)
  }

  /** A name shorter than a prefix never carries it: `substr` then returns
      the whole, shorter, name. */
  lemma ShortNameNeverMatches(p: string, fnName: string)
    requires |fnName| < |p|
    ensures Substr(fnName, 0, |p|) != p
    ensures !HasIgnorablePrefix([p], fnName)
  {
    assert |Substr(fnName, 0, |p|)| == |fnName|;
  }

  /** The test is anchored: the standard library's name in the middle of a
      name does not make it ignorable. */
  lemma MiddleOccurrenceDoesNotCount(rest: string)
    ensures !HasIgnorablePrefix(IgnorablePrefixes, "my_crate::std::" + rest)
  {
    var name := "my_crate::std::" + rest;
    forall k | 0 <= k < |IgnorablePrefixes| ensures !IsPrefix(IgnorablePrefixes[k], name) {
      var p := IgnorablePrefixes[k];
      assert name[0] == 'm' && p[0] != 'm';
    }
  }

  /** A standard-library path is ignorable, whatever follows it. */
  lemma StdPathIsIgnorable(fnName: string, demangle: Demangler, rest: string)
    requires fnName != "" && demangle(fnName) == Some("std::" + rest)
    ensures IsIgnorable(fnName, demangle)
  {
    assert IsPrefix(IgnorablePrefixes[4], "std::" + rest);
  }
}
