/** Sequence helpers shared by the analyzer's list code: `push_front` builds
    lists in reverse, `splice_after(before_begin)` concatenates at the front. */
module Seqs {

  /** The sequence in reverse order. */
  function Reverse<T>(s: seq<T>): (r: seq<T>)
    ensures |r| == |s|
  {
    if s == [] then [] else Reverse(s[1..]) + [s[0]]
  }

  /** Position `i` of the reverse holds position `|s| - 1 - i` of `s`. */
  lemma {:induction false} ReverseAt<T>(s: seq<T>)
    ensures forall i :: 0 <= i < |s| ==> Reverse(s)[i] == s[|s| - 1 - i]
  {
    if s != [] {
      ReverseAt(s[1..]);
    }
  }

  /** Appending at the back of `s` is pushing at the front of its reverse. */
  lemma ReverseSnoc<T>(s: seq<T>, x: T)
    ensures Reverse(s + [x]) == [x] + Reverse(s)
  {
    var l, r := Reverse(s + [x]), [x] + Reverse(s);
    ReverseAt(s + [x]);
    ReverseAt(s);
    assert |l| == |r|;
    forall i | 0 <= i < |l| ensures l[i] == r[i] {
      if i > 0 {
        assert r[i] == Reverse(s)[i - 1] == s[|s| - i];
      }
    }
  }

  /** The front of the reverse, up to the reversed position `k`, is the
      reverse of what follows position `k`. */
  lemma {:induction false} ReverseFront<T>(s: seq<T>, k: nat)
    requires k < |s|
    ensures Reverse(s)[..|s| - 1 - k] == Reverse(s[k + 1..])
  {
    var tail := Reverse(s[1..]);
    assert Reverse(s) == tail + [s[0]];
    if k == 0 {
      assert Reverse(s)[..|s| - 1] == tail;
    } else {
      ReverseFront(s[1..], k - 1);
      assert s[1..][k..] == s[k + 1..];
      assert Reverse(s)[..|s| - 1 - k] == tail[..|s| - 1 - k];
    }
  }

  /** The first `i + 1` elements are the first `i` and then element `i`. */
  lemma TakeSnoc<T>(s: seq<T>, i: nat)
    requires i < |s|
    ensures s[..i + 1] == s[..i] + [s[i]]
  {
  }

  /** Membership is not affected by reversal. */
  lemma ReverseMembership<T>(s: seq<T>, x: T)
    ensures x in Reverse(s) <==> x in s
  {
    var r := Reverse(s);
    ReverseAt(s);
    if x in s {
      var i :| 0 <= i < |s| && s[i] == x;
      assert r[|s| - 1 - i] == x;
    }
    if x in r {
      var i :| 0 <= i < |r| && r[i] == x;
      assert s[|s| - 1 - i] == x;
    }
  }

  /** The concatenation of the lists, first list first. */
  function Flatten<T>(ss: seq<seq<T>>): seq<T>
  {
    if ss == [] then [] else ss[0] + Flatten(ss[1..])
  }

  /** The sum of the lengths of the lists. */
  function TotalLength<T>(ss: seq<seq<T>>): nat
  {
    if ss == [] then 0 else |ss[0]| + TotalLength(ss[1..])
  }

  lemma {:induction false} FlattenLength<T>(ss: seq<seq<T>>)
    ensures |Flatten(ss)| == TotalLength(ss)
  {
    if ss != [] {
      FlattenLength(ss[1..]);
    }
  }

  /** Element `t` of list `k` sits, in the flattened list, after all the
      elements of the lists before it, which number `start`. */
  lemma {:induction false} FlattenAt<T>(ss: seq<seq<T>>, k: nat, t: nat, start: nat)
    requires k < |ss| && t < |ss[k]|
    requires start == TotalLength(ss[..k])
    ensures start + t < |Flatten(ss)|
    ensures Flatten(ss)[start + t] == ss[k][t]
  {
    FlattenLength(ss);
    if k == 0 {
      assert ss[..0] == [];
    } else {
      assert ss[1..][..k - 1] == ss[..k][1..];
      assert TotalLength(ss[..k]) == |ss[0]| + TotalLength(ss[..k][1..]);
      FlattenAt(ss[1..], k - 1, t, start - |ss[0]|);
    }
  }
}
