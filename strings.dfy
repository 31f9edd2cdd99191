/** The parts of `std::string` the analyzer relies on: `find`, `rfind`,
    `substr` and `erase`, with their out-of-range behaviour where it matters. */
module Strings {
  import opened Wrappers

  predicate IsPrefix(p: string, s: string)
  {
    |p| <= |s| && s[..|p|] == p
  }

  predicate IsSuffix(t: string, s: string)
  {
    |t| <= |s| && s[|s| - |t|..] == t
  }

  /** `t` occurs in `s` starting at index `i`. */
  predicate OccursAt(s: string, t: string, i: nat)
  {
    i + |t| <= |s| && s[i..i + |t|] == t
  }

  predicate Contains(s: string, t: string)
  {
    exists i: nat | i <= |s| :: OccursAt(s, t, i)
  }

  lemma OccursAtContains(s: string, t: string, i: nat)
    requires OccursAt(s, t, i)
    ensures Contains(s, t)
  {
  }

  /** `s.find(t, from)`: the first occurrence of `t` at or after `from`. */
  function FindFrom(s: string, t: string, from: nat): (r: Option<nat>)
    requires from <= |s|
    decreases |s| - from
    ensures r.Some? ==> from <= r.value <= |s| && OccursAt(s, t, r.value)
    ensures r.Some? ==> forall j: nat :: from <= j < r.value ==> !OccursAt(s, t, j)
    ensures r.None? ==> forall j: nat :: from <= j ==> !OccursAt(s, t, j)
  {
    if OccursAt(s, t, from) then Some(from)
    else if from == |s| then None
    else FindFrom(s, t, from + 1)
  }

  /** `s.find(t)`; `None` stands for `npos`. */
  function Find(s: string, t: string): (r: Option<nat>)
    ensures r.Some? <==> Contains(s, t)
    ensures r.Some? ==> OccursAt(s, t, r.value) && r.value + |t| <= |s|
    ensures r.Some? ==> forall j: nat :: j < r.value ==> !OccursAt(s, t, j)
  {
    FindFrom(s, t, 0)
  }

  /** `s.rfind(c)` for a one-character needle; `None` stands for `npos`. */
  function RFind(s: string, c: char): (r: Option<nat>)
    ensures r.Some? ==> r.value < |s| && s[r.value] == c
    ensures r.Some? ==> forall j :: r.value < j < |s| ==> s[j] != c
    ensures r.None? ==> forall j :: 0 <= j < |s| ==> s[j] != c
  {
    if s == [] then None
    else if s[|s| - 1] == c then Some(|s| - 1)
    else RFind(s[..|s| - 1], c)
  }

  /** `s.substr(pos, count)`: at most `count` characters from `pos`
      (`pos > size()` throws, so callers must stay in range). */
  function Substr(s: string, pos: nat, count: nat): (r: string)
    requires pos <= |s|
    ensures |r| == if pos + count <= |s| then count else |s| - pos
    ensures forall k :: 0 <= k < |r| ==> r[k] == s[pos + k]
  {
    if pos + count <= |s| then s[pos..pos + count] else s[pos..]
  }

  /** `s.erase(pos, count)`: removes at most `count` characters from `pos`
      (`pos > size()` throws, so callers must stay in range). */
  function Erase(s: string, pos: nat, count: nat): (r: string)
    requires pos <= |s|
    ensures |r| == if pos + count <= |s| then |s| - count else pos
    ensures r[..pos] == s[..pos]
    ensures pos + count <= |s| ==> r[pos..] == s[pos + count..]
  {
    if pos + count <= |s| then s[..pos] + s[pos + count..] else s[..pos]
  }
}
