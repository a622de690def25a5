/** Texts cut at their dots. */
module Labels {

  /** The parts between the dots of a text; there is one more than there are dots. */
  function Split<T(==)>(t: seq<T>, dot: T): (parts: seq<seq<T>>)
    ensures |parts| >= 1
  {
    if t == [] then [[]]
    else
      var parts := Split(t[1..], dot);
      if t[0] == dot then [[]] + parts else [[t[0]] + parts[0]] + parts[1..]
  }

  /** The parts with dots between them again. */
  function Join<T>(parts: seq<seq<T>>, dot: T): seq<T>
    requires |parts| >= 1
  {
    if |parts| == 1 then parts[0] else parts[0] + [dot] + Join(parts[1..], dot)
  }

  lemma {:induction false} JoinSplit<T>(t: seq<T>, dot: T)
    ensures Join(Split(t, dot), dot) == t
  {
    if t != [] {
      JoinSplit(t[1..], dot);
      var parts := Split(t[1..], dot);
      if t[0] == dot {
        assert Split(t, dot)[1..] == parts;
      } else {
        assert Split(t, dot)[1..] == parts[1..];
        assert t == [t[0]] + Join(parts, dot);
      }
    }
  }

  lemma {:induction false} SplitHasNoDots<T>(t: seq<T>, dot: T)
    ensures forall k :: 0 <= k < |Split(t, dot)| ==> dot !in Split(t, dot)[k]
  {
    if t != [] {
      SplitHasNoDots(t[1..], dot);
    }
  }

  /** A stretch without dots belongs to the first part. */
  lemma {:induction false} SplitAt<T>(t: seq<T>, dot: T, k: nat)
    requires k <= |t| && dot !in t[..k]
    ensures Split(t, dot) == [t[..k] + Split(t[k..], dot)[0]] + Split(t[k..], dot)[1..]
  {
    if k == 0 {
      assert t[k..] == t;
      assert t[..k] + Split(t, dot)[0] == Split(t, dot)[0];
    } else {
      assert t[0] == t[..k][0];
      assert t[1..][..k - 1] == t[..k][1..];
      assert t[1..][k - 1..] == t[k..];
      SplitAt(t[1..], dot, k - 1);
      assert [t[0]] + (t[1..][..k - 1] + Split(t[k..], dot)[0]) == t[..k] + Split(t[k..], dot)[0];
    }
  }

  /** The first part ends at the first dot, or with the text. */
  lemma SplitFirst<T>(t: seq<T>, dot: T, k: nat)
    requires k <= |t| && dot !in t[..k]
    ensures k == |t| ==> Split(t, dot) == [t]
    ensures k < |t| && t[k] == dot ==> Split(t, dot) == [t[..k]] + Split(t[k + 1..], dot)
  {
    SplitAt(t, dot, k);
    if k == |t| {
      assert t[k..] == [] && t[..k] + [] == t;
    } else if t[k] == dot {
      assert t[k..][1..] == t[k + 1..];
      assert t[..k] + [] == t[..k];
    }
  }

  lemma {:induction false} SplitJoin<T>(parts: seq<seq<T>>, dot: T)
    requires |parts| >= 1 && forall k :: 0 <= k < |parts| ==> dot !in parts[k]
    ensures Split(Join(parts, dot), dot) == parts
  {
    var t, a := Join(parts, dot), parts[0];
    if |parts| == 1 {
      assert t[..|a|] == a;
      SplitFirst(t, dot, |a|);
    } else {
      assert t == a + [dot] + Join(parts[1..], dot);
      assert t[..|a|] == a && t[|a| + 1..] == Join(parts[1..], dot);
      SplitFirst(t, dot, |a|);
      SplitJoin(parts[1..], dot);
    }
  }

  /** The parts of two texts with a dot between them. */
  lemma {:induction false} SplitBetween<T>(a: seq<T>, b: seq<T>, dot: T)
    ensures Split(a + [dot] + b, dot) == Split(a, dot) + Split(b, dot)
  {
    var t := a + [dot] + b;
    if a == [] {
      assert t[1..] == b;
      assert [[]] + Split(b, dot) == Split(a, dot) + Split(b, dot);
    } else {
      assert t[0] == a[0] && t[1..] == a[1..] + [dot] + b;
      SplitBetween(a[1..], b, dot);
    }
  }

  /** No part is longer than the text. */
  lemma {:induction false} PartsWithin<T>(t: seq<T>, dot: T)
    ensures forall k :: 0 <= k < |Split(t, dot)| ==> |Split(t, dot)[k]| <= |t|
  {
    if t != [] {
      PartsWithin(t[1..], dot);
    }
  }
}
