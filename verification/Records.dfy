/** A stretch of memory seen as an array of fixed-size records.

    The sort works on bytes and on byte offsets; what it promises is about records. */
module Records {

  import opened Machine

  type Record = seq<byte>

  /** The distance in bytes from the first of an array of records to record k: k * es, written as
      repeated addition so that the proofs about positions stay linear. */
  ghost function Offset(k: nat, es: nat): (o: nat) {
    if k == 0 then 0 else Offset(k - 1, es) + es
  }

  lemma {:induction false} OffsetIsProduct(k: nat, es: nat)
    ensures Offset(k, es) == k * es
  {
    if k > 0 {
      OffsetIsProduct(k - 1, es);
    }
  }

  /** Record k ends before a later record begins. */
  lemma {:induction false} Fits(k: nat, n: nat, es: nat)
    requires k < n
    ensures Offset(k, es) + es <= Offset(n, es)
  {
    if k + 1 < n {
      Fits(k, n - 1, es);
    }
  }

  /** Record k of the n records of es bytes that start at offset base. */
  ghost function RecordAt(mem: seq<byte>, base: nat, es: nat, n: nat, k: nat): (r: Record)
    requires base + Offset(n, es) <= |mem|
    requires k < n
    ensures |r| == es
  {
    Fits(k, n, es);
    mem[base + Offset(k, es)..base + Offset(k, es) + es]
  }

  /** All n records. */
  ghost function View(mem: seq<byte>, base: nat, es: nat, n: nat): (r: seq<Record>)
    requires base + Offset(n, es) <= |mem|
    ensures |r| == n
    ensures forall k :: 0 <= k < n ==> |r[k]| == es
  {
    seq(n, k requires 0 <= k < n => RecordAt(mem, base, es, n, k))
  }

  /** Record k is the k-th stretch of es bytes. */
  lemma ViewIs(mem: seq<byte>, base: nat, es: nat, n: nat, k: nat)
    requires base + Offset(n, es) <= |mem| && k < n
    ensures k * es + es <= Offset(n, es) == n * es
    ensures View(mem, base, es, n)[k] == mem[base + k * es..base + k * es + es]
  {
    OffsetIsProduct(k, es);
    OffsetIsProduct(n, es);
    Fits(k, n, es);
  }

  /** Two byte ranges of length es that start at i and j are equal or disjoint. */
  predicate Apart(i: nat, j: nat, es: nat) {
    i + es <= j || j + es <= i
  }

  /** Byte k lies outside the es bytes that start at i. */
  predicate Outside(k: nat, i: nat, es: nat) {
    k < i || i + es <= k
  }

  /** The es bytes at i and at j have been exchanged, and every other byte is as before. */
  ghost predicate BytesExchanged(before: seq<byte>, after: seq<byte>, i: nat, j: nat, es: nat)
    requires i + es <= |before| && j + es <= |before|
  {
    && |after| == |before|
    && after[i..i + es] == before[j..j + es]
    && after[j..j + es] == before[i..i + es]
    && forall b :: 0 <= b < |before| && Outside(b, i, es) && Outside(b, j, es) ==> after[b] == before[b]
  }

  /** The es bytes at k have moved to i, those at i to j and those at j to k, and every other byte
      is as before.  When j and k coincide nothing is left to move to k, and what remains is an
      exchange of i and j. */
  ghost predicate BytesRotated(before: seq<byte>, after: seq<byte>, i: nat, j: nat, k: nat, es: nat)
    requires i + es <= |before| && j + es <= |before| && k + es <= |before|
  {
    && |after| == |before|
    && after[i..i + es] == before[k..k + es]
    && after[j..j + es] == before[i..i + es]
    && (k != j ==> after[k..k + es] == before[j..j + es])
    && forall b :: 0 <= b < |before| && Outside(b, i, es) && Outside(b, j, es) && Outside(b, k, es) ==>
         after[b] == before[b]
  }

  /** The records with those at x and y exchanged. */
  ghost function Exchanged(r: seq<Record>, x: nat, y: nat): seq<Record>
    requires x < |r| && y < |r|
  {
    r[x := r[y]][y := r[x]]
  }

  /** The records with z moved to x, y to z and x to y. */
  ghost function Rotated(r: seq<Record>, x: nat, y: nat, z: nat): seq<Record>
    requires x < |r| && y < |r| && z < |r|
  {
    r[x := r[z]][z := r[y]][y := r[x]]
  }

  /** Everything outside the n records is as before. */
  ghost predicate SameOutside(before: seq<byte>, after: seq<byte>, base: nat, es: nat, n: nat)
    requires base + Offset(n, es) <= |before|
  {
    && |after| == |before|
    && forall k {:trigger after[k]} :: 0 <= k < base || base + Offset(n, es) <= k < |before| ==> after[k] == before[k]
  }

  lemma StillOutside(was: seq<byte>, before: seq<byte>, after: seq<byte>, base: nat, es: nat, n: nat)
    requires base + Offset(n, es) <= |was|
    requires SameOutside(was, before, base, es, n) && SameOutside(before, after, base, es, n)
    ensures SameOutside(was, after, base, es, n)
  {
  }

  /** Record k holds what record from held, because its bytes do. */
  lemma {:induction false} RecordMoved(before: seq<byte>, after: seq<byte>, base: nat, es: nat, n: nat, k: nat, from: nat)
    requires base + Offset(n, es) <= |before| == |after| && k < n && from < n
    requires Offset(k, es) + es <= Offset(n, es) && Offset(from, es) + es <= Offset(n, es)
    requires after[base + Offset(k, es)..base + Offset(k, es) + es]
          == before[base + Offset(from, es)..base + Offset(from, es) + es]
    ensures RecordAt(after, base, es, n, k) == RecordAt(before, base, es, n, from)
  {
  }

  /** A record that is not among those moved is as before. */
  lemma {:induction false} RecordKept(before: seq<byte>, after: seq<byte>, base: nat, es: nat, n: nat,
                                      moved: set<nat>, k: nat)
    requires base + Offset(n, es) <= |before| == |after| && k < n && k !in moved
    requires forall b :: 0 <= b < |before| && (forall x :: x in moved ==> Outside(b, base + Offset(x, es), es)) ==>
               after[b] == before[b]
    ensures RecordAt(after, base, es, n, k) == RecordAt(before, base, es, n, k)
  {
    Fits(k, n, es);
    forall x | x in moved
      ensures Apart(Offset(k, es), Offset(x, es), es)
    {
      Distinct(k, x, es);
    }
    var m := base + Offset(k, es);
    assert forall b :: m <= b < m + es ==> after[b] == before[b];
    assert after[m..m + es] == before[m..m + es];
  }

  lemma {:induction false} RecordExchanged(before: seq<byte>, after: seq<byte>, base: nat, es: nat, n: nat,
                                           x: nat, y: nat, k: nat)
    requires es >= 1 && base + Offset(n, es) <= |before| && x < n && y < n && k < n
    requires Offset(x, es) + es <= Offset(n, es) && Offset(y, es) + es <= Offset(n, es)
    requires BytesExchanged(before, after, base + Offset(x, es), base + Offset(y, es), es)
    ensures RecordAt(after, base, es, n, k) == RecordAt(before, base, es, n, if k == x then y else if k == y then x else k)
  {
    hide Offset;
    Fits(k, n, es);
    if k == x {
      RecordMoved(before, after, base, es, n, k, y);
    } else if k == y {
      RecordMoved(before, after, base, es, n, k, x);
    } else {
      RecordKept(before, after, base, es, n, {x, y}, k);
    }
  }

  /** Exchanging the bytes of two records exchanges the records and touches nothing else. */
  lemma {:induction false} ExchangedView(before: seq<byte>, after: seq<byte>, base: nat, es: nat, n: nat, x: nat, y: nat)
    requires es >= 1 && base + Offset(n, es) <= |before| && x < n && y < n
    requires Offset(x, es) + es <= Offset(n, es) && Offset(y, es) + es <= Offset(n, es)
    requires BytesExchanged(before, after, base + Offset(x, es), base + Offset(y, es), es)
    ensures SameOutside(before, after, base, es, n)
    ensures View(after, base, es, n) == Exchanged(View(before, base, es, n), x, y)
  {
    forall k | 0 <= k < n
      ensures View(after, base, es, n)[k] == Exchanged(View(before, base, es, n), x, y)[k]
    {
      RecordExchanged(before, after, base, es, n, x, y, k);
    }
  }

  lemma {:induction false} RecordRotated(before: seq<byte>, after: seq<byte>, base: nat, es: nat, n: nat,
                                         x: nat, y: nat, z: nat, k: nat)
    requires es >= 1 && base + Offset(n, es) <= |before| && x < n && y < n && z < n && k < n && x != y && x != z
    requires Offset(x, es) + es <= Offset(n, es) && Offset(y, es) + es <= Offset(n, es) && Offset(z, es) + es <= Offset(n, es)
    requires BytesRotated(before, after, base + Offset(x, es), base + Offset(y, es), base + Offset(z, es), es)
    ensures RecordAt(after, base, es, n, k)
         == RecordAt(before, base, es, n, if k == x then z else if k == y then x else if k == z then y else k)
  {
    hide Offset;
    Fits(k, n, es);
    if k == x {
      RecordMoved(before, after, base, es, n, k, z);
    } else if k == y {
      RecordMoved(before, after, base, es, n, k, x);
    } else if k == z {
      Distinct(y, z, es);
      RecordMoved(before, after, base, es, n, k, y);
    } else {
      RecordKept(before, after, base, es, n, {x, y, z}, k);
    }
  }

  /** Rotating the bytes of three records rotates the records and touches nothing else. */
  lemma {:induction false} RotatedView(before: seq<byte>, after: seq<byte>, base: nat, es: nat, n: nat,
                                       x: nat, y: nat, z: nat)
    requires es >= 1 && base + Offset(n, es) <= |before| && x < n && y < n && z < n && x != y && x != z
    requires Offset(x, es) + es <= Offset(n, es) && Offset(y, es) + es <= Offset(n, es) && Offset(z, es) + es <= Offset(n, es)
    requires BytesRotated(before, after, base + Offset(x, es), base + Offset(y, es), base + Offset(z, es), es)
    ensures SameOutside(before, after, base, es, n)
    ensures View(after, base, es, n) == Rotated(View(before, base, es, n), x, y, z)
  {
    forall k | 0 <= k < n
      ensures View(after, base, es, n)[k] == Rotated(View(before, base, es, n), x, y, z)[k]
    {
      RecordRotated(before, after, base, es, n, x, y, z, k);
    }
  }

  /** Different records do not overlap. */
  lemma {:induction false} Distinct(x: nat, y: nat, es: nat)
    ensures x != y ==> Apart(Offset(x, es), Offset(y, es), es)
  {
    if x < y {
      Fits(x, y, es);
    } else if y < x {
      Fits(y, x, es);
    }
  }

  /** r' is r with the records in [lo, hi) rearranged. */
  ghost predicate PermutedWithin(r: seq<Record>, r': seq<Record>, lo: nat, hi: nat) {
    && |r'| == |r|
    && multiset(r') == multiset(r)
    && forall k {:trigger r'[k]} :: 0 <= k < |r| && (k < lo || hi <= k) ==> r'[k] == r[k]
  }

  lemma ExchangedPermutes(was: seq<Record>, r: seq<Record>, x: nat, y: nat, lo: nat, hi: nat)
    requires lo <= x < hi <= |r| && lo <= y < hi
    requires PermutedWithin(was, r, lo, hi)
    ensures PermutedWithin(was, Exchanged(r, x, y), lo, hi)
  {
  }

  lemma RotatedPermutes(was: seq<Record>, r: seq<Record>, x: nat, y: nat, z: nat, lo: nat, hi: nat)
    requires lo <= x < hi <= |r| && lo <= y < hi && lo <= z < hi && x != y && x != z
    requires PermutedWithin(was, r, lo, hi)
    ensures PermutedWithin(was, Rotated(r, x, y, z), lo, hi)
  {
    // two exchanges in a row
    var once := Exchanged(r, x, z);
    ExchangedPermutes(was, r, x, z, lo, hi);
    ExchangedPermutes(was, once, z, y, lo, hi);
    assert Rotated(r, x, y, z) == Exchanged(once, z, y);
  }

  /** Rearranging a part of what is being rearranged. */
  lemma PermutedWider(was: seq<Record>, r: seq<Record>, r': seq<Record>, start: nat, lo: nat, hi: nat, end: nat)
    requires start <= lo <= hi <= end <= |was|
    requires PermutedWithin(was, r, start, end) && PermutedWithin(r, r', lo, hi)
    ensures PermutedWithin(was, r', start, end)
  {
  }

  lemma MultisetOfParts(r: seq<Record>, lo: nat, hi: nat)
    requires lo <= hi <= |r|
    ensures multiset(r) == multiset(r[..lo]) + multiset(r[lo..hi]) + multiset(r[hi..])
  {
    assert r == r[..lo] + r[lo..hi] + r[hi..];
  }

  lemma Cancel(a: multiset<Record>, b: multiset<Record>, b': multiset<Record>, c: multiset<Record>)
    requires a + b + c == a + b' + c
    ensures b == b'
  {
    forall e: Record
      ensures b[e] == b'[e]
    {
      assert (a + b + c)[e] == a[e] + b[e] + c[e];
      assert (a + b' + c)[e] == a[e] + b'[e] + c[e];
    }
  }

  /** The rearranged part holds the same records as before. */
  lemma PermutedPart(r: seq<Record>, r': seq<Record>, lo: nat, hi: nat)
    requires lo <= hi <= |r|
    requires PermutedWithin(r, r', lo, hi)
    ensures multiset(r'[lo..hi]) == multiset(r[lo..hi])
  {
    MultisetOfParts(r, lo, hi);
    MultisetOfParts(r', lo, hi);
    assert r'[..lo] == r[..lo] && r'[hi..] == r[hi..];
    Cancel(multiset(r[..lo]), multiset(r[lo..hi]), multiset(r'[lo..hi]), multiset(r[hi..]));
  }

  /** Every record of the rearranged part was there before. */
  lemma PermutedFrom(r: seq<Record>, r': seq<Record>, lo: nat, hi: nat, k: nat) returns (k': nat)
    requires lo <= k < hi <= |r|
    requires PermutedWithin(r, r', lo, hi)
    ensures lo <= k' < hi && r'[k] == r[k']
  {
    PermutedPart(r, r', lo, hi);
    assert r'[lo..hi][k - lo] in multiset(r'[lo..hi]);
    assert r'[k] in r[lo..hi];
    var m :| 0 <= m < hi - lo && r[lo..hi][m] == r'[k];
    k' := lo + m;
  }
}
