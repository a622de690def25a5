/** The library quicksort: an in-place three-way partition over records of any size. */
module Qsort {
  import opened Machine
  import opened Records

  /** An order of records, told by the sign of the result. */
  type Comparator = (Record, Record) -> int

  /** What the comparison function answers: its first argument is the number of the call, for it may
      keep state of its own. */
  type Answers = (nat, Record, Record) -> int

  /** What ISO/IEC 9899:1999, section 7.20.5, asks of the comparison function: on the records of the
      array it is a total preorder, told by the sign of its result. */
  ghost predicate TotalPreorder(cmp: Comparator, pool: seq<Record>) {
    && (forall x: Record, y: Record {:trigger cmp(x, y)} :: x in pool && y in pool ==> (cmp(x, y) < 0 <==> cmp(y, x) > 0))
    && (forall x: Record, y: Record, z: Record {:trigger cmp(x, y), cmp(y, z)} ::
          x in pool && y in pool && z in pool && cmp(x, y) <= 0 && cmp(y, z) <= 0 ==> cmp(x, z) <= 0)
  }

  /** Every call on them answers by the same order. */
  ghost predicate Agrees(qscmp: Answers, cmp: Comparator, pool: seq<Record>) {
    forall t: nat, x: Record, y: Record {:trigger qscmp(t, x, y)} :: x in pool && y in pool ==> qscmp(t, x, y) == cmp(x, y)
  }

  ghost predicate Among(r: seq<Record>, pool: seq<Record>) {
    forall k :: 0 <= k < |r| ==> r[k] in pool
  }

  /** Rearranging brings in no other records. */
  lemma StillAmong(was: seq<Record>, r: seq<Record>, pool: seq<Record>)
    requires Among(was, pool) && multiset(r) == multiset(was)
    ensures Among(r, pool)
  {
    forall k | 0 <= k < |r|
      ensures r[k] in pool
    {
      assert r[k] in multiset(was);
    }
  }

  lemma Reflexive(cmp: Comparator, pool: seq<Record>, x: Record)
    requires TotalPreorder(cmp, pool) && x in pool
    ensures cmp(x, x) == 0
  {
    var c := cmp(x, x);
  }

  /** What a comparison with a record equal to the pivot says about the other record. */
  lemma Verdict(cmp: Comparator, pool: seq<Record>, ord: bool, x: Record, eq: Record, pivot: Record)
    requires ord ==> TotalPreorder(cmp, pool) && cmp(eq, pivot) == 0 && x in pool && eq in pool && pivot in pool
    ensures ord && cmp(x, eq) < 0 ==> cmp(x, pivot) < 0
    ensures ord && cmp(x, eq) == 0 ==> cmp(x, pivot) == 0
    ensures ord && cmp(x, eq) > 0 ==> cmp(x, pivot) > 0
    ensures ord && cmp(eq, x) < 0 ==> cmp(x, pivot) > 0
    ensures ord && cmp(eq, x) == 0 ==> cmp(x, pivot) == 0
    ensures ord && cmp(eq, x) > 0 ==> cmp(x, pivot) < 0
  {
    if ord {
      assert cmp(pivot, eq) == 0;
      var a, b, c, d := cmp(x, eq), cmp(x, pivot), cmp(eq, x), cmp(pivot, x);
    }
  }

  /** The state of a partition pass over [lo, hi): records below the pivot in [lo, i), equal to
      it in [lp, hp], above it in (j, hi); those in [i, lp) and (hp, j] are still unclassified. */
  ghost predicate Blocks(r: seq<Record>, cmp: Comparator, pivot: Record,
                         lo: nat, i: nat, lp: nat, hp: nat, j: nat, hi: nat)
    requires lo <= i <= lp <= hp <= j < hi <= |r|
  {
    && (forall k :: lo <= k < i ==> cmp(r[k], pivot) < 0)
    && (forall k :: lp <= k <= hp ==> cmp(r[k], pivot) == 0)
    && (forall k :: j < k < hi ==> cmp(r[k], pivot) > 0)
  }

  /** The record in the middle of [lo, hi). */
  ghost function Pivot(r: seq<Record>, lo: nat, hi: nat): Record
    requires lo < hi <= |r|
  {
    r[lo + (hi - lo) / 2]
  }

  /** A pass starts with the pivot alone in the block of equal records. */
  lemma Start(cmp: Comparator, pool: seq<Record>, r: seq<Record>, lo: nat, hi: nat)
    requires TotalPreorder(cmp, pool) && lo + 2 <= hi <= |r| && Pivot(r, lo, hi) in pool
    ensures Blocks(r, cmp, Pivot(r, lo, hi), lo, lo, lo + (hi - lo) / 2, lo + (hi - lo) / 2, hi - 1, hi)
  {
    Reflexive(cmp, pool, Pivot(r, lo, hi));
  }

  /** A record below the pivot stays where it is. */
  lemma LeftBelow(r: seq<Record>, cmp: Comparator, pivot: Record,
                  lo: nat, i: nat, lp: nat, hp: nat, j: nat, hi: nat)
    requires lo <= i <= lp <= hp <= j < hi <= |r| && i < lp
    requires Blocks(r, cmp, pivot, lo, i, lp, hp, j, hi) && cmp(r[i], pivot) < 0
    ensures Blocks(r, cmp, pivot, lo, i + 1, lp, hp, j, hi)
  {
  }

  /** A record above the pivot stays where it is. */
  lemma RightAbove(r: seq<Record>, cmp: Comparator, pivot: Record,
                   lo: nat, i: nat, lp: nat, hp: nat, j: nat, hi: nat)
    requires lo <= i <= lp <= hp <= j < hi <= |r| && hp < j
    requires Blocks(r, cmp, pivot, lo, i, lp, hp, j, hi) && cmp(r[j], pivot) > 0
    ensures Blocks(r, cmp, pivot, lo, i, lp, hp, j - 1, hi)
  {
  }

  /** A record equal to the pivot joins the block from the left. */
  lemma LeftEqual(r: seq<Record>, cmp: Comparator, pivot: Record,
                  lo: nat, i: nat, lp: nat, hp: nat, j: nat, hi: nat)
    requires lo <= i <= lp <= hp <= j < hi <= |r| && i < lp
    requires Blocks(r, cmp, pivot, lo, i, lp, hp, j, hi) && cmp(r[i], pivot) == 0
    ensures Blocks(Exchanged(r, i, lp - 1), cmp, pivot, lo, i, lp - 1, hp, j, hi)
  {
  }

  /** A record equal to the pivot joins the block from the right. */
  lemma RightEqual(r: seq<Record>, cmp: Comparator, pivot: Record,
                   lo: nat, i: nat, lp: nat, hp: nat, j: nat, hi: nat)
    requires lo <= i <= lp <= hp <= j < hi <= |r| && hp < j
    requires Blocks(r, cmp, pivot, lo, i, lp, hp, j, hi) && cmp(r[j], pivot) == 0
    ensures Blocks(Exchanged(r, hp + 1, j), cmp, pivot, lo, i, lp, hp + 1, j, hi)
  {
  }

  /** A record below the pivot changes places with one above it. */
  lemma Swap(r: seq<Record>, cmp: Comparator, pivot: Record,
             lo: nat, i: nat, lp: nat, hp: nat, j: nat, hi: nat)
    requires lo <= i <= lp <= hp <= j < hi <= |r| && i < lp && hp < j
    requires Blocks(r, cmp, pivot, lo, i, lp, hp, j, hi) && cmp(r[i], pivot) > 0 && cmp(r[j], pivot) < 0
    ensures Blocks(Exchanged(r, i, j), cmp, pivot, lo, i + 1, lp, hp, j - 1, hi)
  {
  }

  /** Nothing waits on the left: the block of equal records moves up by one to make room. */
  lemma ShiftUp(r: seq<Record>, cmp: Comparator, pivot: Record,
                lo: nat, lp: nat, hp: nat, j: nat, hi: nat)
    requires lo <= lp <= hp < j < hi <= |r|
    requires Blocks(r, cmp, pivot, lo, lp, lp, hp, j, hi) && cmp(r[j], pivot) < 0
    ensures Blocks(Rotated(r, lp, hp + 1, j), cmp, pivot, lo, lp + 1, lp + 1, hp + 1, j, hi)
  {
  }

  /** Nothing waits on the right: the block of equal records moves down by one to make room. */
  lemma ShiftDown(r: seq<Record>, cmp: Comparator, pivot: Record,
                  lo: nat, i: nat, lp: nat, hp: nat, hi: nat)
    requires lo <= i < lp <= hp < hi <= |r|
    requires Blocks(r, cmp, pivot, lo, i, lp, hp, hp, hi) && cmp(r[i], pivot) > 0
    ensures Blocks(Rotated(r, hp, lp - 1, i), cmp, pivot, lo, i, lp - 1, hp - 1, hp - 1, hi)
  {
  }

  /** Distances between records add up. */
  lemma {:induction false} Span(x: nat, y: nat, es: nat)
    requires x <= y
    ensures Offset(y, es) == Offset(x, es) + Offset(y - x, es)
  {
    if x < y {
      Span(x, y - 1, es);
    }
  }

  lemma {:induction false} Multiples(d: nat, x: nat, y: nat)
    ensures x < y ==> d * x + d <= d * y
  {
    if x < y {
      assert d * y == d * (y - 1) + d;
      Multiples(d, x, y - 1);
    }
  }

  lemma {:induction false} Quotient(d: nat, h: nat, o: nat)
    requires o < d
    ensures (d * h + o) / d == h
  {
    var k := (d * h + o) / d;
    assert d * k <= d * h + o < d * k + d;
    Multiples(d, h, k);
    Multiples(d, k, h);
  }

  /** Records and their offsets come in the same order. */
  lemma {:induction false} Order(x: nat, y: nat, es: nat)
    requires es >= 1
    ensures x < y <==> Offset(x, es) < Offset(y, es)
  {
    if x < y {
      Fits(x, y, es);
    } else if y < x {
      Fits(y, x, es);
    }
  }

  /** The record after x, and the one before. */
  lemma {:induction false} Next(x: nat, es: nat)
    ensures Offset(x + 1, es) == Offset(x, es) + es
    ensures x > 0 ==> Offset(x - 1, es) == Offset(x, es) - es
  {
  }

  /** The offset computed for the middle of m records is that of record m / 2. */
  lemma {:induction false} MiddleOffset(m: nat, es: nat)
    requires es >= 1
    ensures es * (Offset(m, es) / (2 * es)) == Offset(m / 2, es)
  {
    var h, o := m / 2, if m % 2 == 0 then 0 else es;
    Double(h, es);
    OffsetIsProduct(h, es);
    assert Offset(m, es) == (2 * es) * h + o;
    Quotient(2 * es, h, o);
  }

  lemma {:induction false} Double(h: nat, es: nat)
    ensures Offset(2 * h, es) == (2 * es) * h
  {
    OffsetIsProduct(2 * h, es);
  }

  /** The byte loops leave slices exchanged. */
  lemma ExchangeComplete(was: seq<byte>, now: seq<byte>, i: nat, j: nat, es: nat)
    requires i + es <= |was| == |now| && j + es <= |was|
    requires forall b {:trigger now[b]} :: i <= b < i + es ==> now[b] == was[j + (b - i)]
    requires forall b {:trigger now[b]} :: j <= b < j + es ==> now[b] == was[i + (b - j)]
    requires forall b {:trigger now[b]} :: 0 <= b < |was| && Outside(b, i, es) && Outside(b, j, es) ==> now[b] == was[b]
    ensures BytesExchanged(was, now, i, j, es)
  {
  }

  lemma RotateComplete(was: seq<byte>, now: seq<byte>, i: nat, j: nat, k: nat, es: nat)
    requires i + es <= |was| == |now| && j + es <= |was| && k + es <= |was|
    requires forall b {:trigger now[b]} :: i <= b < i + es ==> now[b] == was[k + (b - i)]
    requires forall b {:trigger now[b]} :: j <= b < j + es ==> now[b] == was[i + (b - j)]
    requires j != k ==> forall b {:trigger now[b]} :: k <= b < k + es ==> now[b] == was[j + (b - k)]
    requires forall b {:trigger now[b]} ::
               0 <= b < |was| && Outside(b, i, es) && Outside(b, j, es) && Outside(b, k, es) ==> now[b] == was[b]
    ensures BytesRotated(was, now, i, j, k, es)
  {
  }

  /** What stays fixed during a partition pass over records lo to hi of the n records at base:
      the memory mem at its start, and whether the comparator is taken for a total preorder. */
  datatype Setting = Setting(cmp: Comparator, pool: seq<Record>, es: nat, mem: seq<byte>, base: nat, n: nat,
                             lo: nat, hi: nat, ord: bool)
  {
    ghost predicate Valid() {
      && es >= 1 && base + Offset(n, es) <= |mem| && lo <= hi <= n
      && (ord ==> TotalPreorder(cmp, pool) && Among(View(mem, base, es, n), pool))
    }

    ghost function Start(): seq<Record>
      requires Valid()
    {
      View(mem, base, es, n)
    }

    ghost function Pivot(): Record
      requires Valid() && lo < hi
    {
      Start()[lo + (hi - lo) / 2]
    }
  }

  /** The address of record k. */
  ghost function At(s: Setting, k: nat): nat {
    s.base + Offset(k, s.es)
  }

  /** The records of memory now. */
  ghost function Recs(s: Setting, now: seq<byte>): (r: seq<Record>)
    requires At(s, s.n) <= |now|
    ensures |r| == s.n
    ensures forall k :: 0 <= k < s.n ==> |r[k]| == s.es
  {
    View(now, s.base, s.es, s.n)
  }

  /** The records at which the pointers i, lp, hp and j of a pass stand. */
  datatype Marks = Marks(i: nat, lp: nat, hp: nat, j: nat)

  /** A pass has reached the memory now with its pointers at the marks m. */
  ghost predicate Reached(s: Setting, now: seq<byte>, m: Marks) {
    && s.Valid() && s.lo <= m.i <= m.lp <= m.hp <= m.j < s.hi
    && SameOutside(s.mem, now, s.base, s.es, s.n)
    && PermutedWithin(s.Start(), Recs(s, now), s.lo, s.hi)
    && (s.ord ==> Blocks(Recs(s, now), s.cmp, s.Pivot(), s.lo, m.i, m.lp, m.hp, m.j, s.hi))
  }

  /** Record i has been compared and found above the pivot, but has not been moved yet. */
  ghost predicate Held(s: Setting, now: seq<byte>, i: nat) {
    s.Valid() && s.lo < s.hi && |now| == |s.mem| && i < s.n && (s.ord ==> s.cmp(Recs(s, now)[i], s.Pivot()) > 0)
  }

  /** Memory after differs from before by an exchange of records x and y. */
  ghost predicate ExchangedAt(s: Setting, before: seq<byte>, after: seq<byte>, x: nat, y: nat) {
    && At(s, s.n) <= |before| && SameOutside(before, after, s.base, s.es, s.n) && x < s.n && y < s.n
    && Recs(s, after) == Exchanged(Recs(s, before), x, y)
  }

  /** Memory after differs from before by a rotation of records x, y and z. */
  ghost predicate RotatedAt(s: Setting, before: seq<byte>, after: seq<byte>, x: nat, y: nat, z: nat) {
    && At(s, s.n) <= |before| && SameOutside(before, after, s.base, s.es, s.n)
    && x < s.n && y < s.n && z < s.n
    && Recs(s, after) == Rotated(Recs(s, before), x, y, z)
  }

  /** Every call answers by the order of the setting, as far as that is taken for a total preorder. */
  ghost predicate Follows(s: Setting, qscmp: Answers) {
    s.ord ==> Agrees(qscmp, s.cmp, s.pool)
  }

  /** The comparison function as it is called: the calls are counted where they are made. */
  class Comparison {
    const qscmp: Answers
    var made: nat

    constructor (qscmp: Answers)
      ensures this.qscmp == qscmp && made == 0
    {
      this.qscmp, made := qscmp, 0;
    }

    method Ask(x: Record, y: Record) returns (c: int)
      modifies this
      ensures made == old(made) + 1 && c == qscmp(old(made), x, y)
    {
      c := qscmp(made, x, y);
      made := made + 1;
    }
  }

  /** One comparison of the records at i and j, which are records x and y. */
  method Compare(fc: Comparison, es: nat, arr: array<byte>, i: nat, j: nat, ghost s: Setting, ghost x: nat, ghost y: nat)
    returns (c: int)
    requires Follows(s, fc.qscmp) && s.es == es && At(s, s.n) <= arr.Length && x < s.n && y < s.n
    requires s.ord ==> Among(Recs(s, arr[..]), s.pool)
    requires i == At(s, x) && j == At(s, y)
    modifies fc
    ensures fc.made == old(fc.made) + 1
    ensures c == fc.qscmp(old(fc.made), Recs(s, arr[..])[x], Recs(s, arr[..])[y])
    ensures s.ord ==> c == s.cmp(Recs(s, arr[..])[x], Recs(s, arr[..])[y])
  {
    Fits(x, s.n, es);
    Fits(y, s.n, es);
    c := fc.Ask(arr[i..i + es], arr[j..j + es]);
    assert Recs(s, arr[..])[x] == arr[i..i + es];
    assert Recs(s, arr[..])[y] == arr[j..j + es];
  }

  /** Exchanges two records byte by byte; the two may be the same record. */
  method Qsexc(es: nat, arr: array<byte>, i: nat, j: nat)
    requires es >= 1 && i + es <= arr.Length && j + es <= arr.Length
    requires i == j || Apart(i, j, es)
    modifies arr
    ensures BytesExchanged(old(arr[..]), arr[..], i, j, es)
  {
    ghost var was, t := arr[..], 0;
    var n, ri, rj := es, i, j;
    while n > 0
      invariant n + t == es && ri == i + t && rj == j + t
      invariant forall b {:trigger arr[b]} :: i <= b < ri ==> arr[b] == was[j + (b - i)]
      invariant forall b {:trigger arr[b]} :: j <= b < rj ==> arr[b] == was[i + (b - j)]
      invariant forall b {:trigger arr[b]} ::
                  0 <= b < arr.Length && !(i <= b < ri) && !(j <= b < rj) ==> arr[b] == was[b]
    {
      var c := arr[ri];
      arr[ri] := arr[rj];
      ri := ri + 1;
      arr[rj] := c;
      rj := rj + 1;
      n, t := n - 1, t + 1;
    }
    ExchangeComplete(was, arr[..], i, j, es);
  }

  /** The first t bytes have moved from k to i, from i to j and from j to k. */
  ghost predicate RotatedTo(was: seq<byte>, now: seq<byte>, i: nat, j: nat, k: nat, t: nat)
    requires i + t <= |was| == |now| && j + t <= |was| && k + t <= |was|
  {
    && (forall b {:trigger now[b]} :: i <= b < i + t ==> now[b] == was[k + (b - i)])
    && (forall b {:trigger now[b]} :: j <= b < j + t ==> now[b] == was[i + (b - j)])
    && (j != k ==> forall b {:trigger now[b]} :: k <= b < k + t ==> now[b] == was[j + (b - k)])
    && (forall b {:trigger now[b]} ::
          0 <= b < |was| && Outside(b, i, t) && Outside(b, j, t) && Outside(b, k, t) ==> now[b] == was[b])
  }

  lemma RotateStep(was: seq<byte>, before: seq<byte>, now: seq<byte>, i: nat, j: nat, k: nat, t: nat, es: nat)
    requires t < es && i + es <= |was| == |before| == |now| && j + es <= |was| && k + es <= |was|
    requires Apart(i, j, es) && Apart(i, k, es) && (j == k || Apart(j, k, es))
    requires RotatedTo(was, before, i, j, k, t)
    requires now == before[i + t := before[k + t]][k + t := before[j + t]][j + t := before[i + t]]
    ensures RotatedTo(was, now, i, j, k, t + 1)
  {
    assert before[i + t] == was[i + t] && before[j + t] == was[j + t] && before[k + t] == was[k + t];
  }

  /** Moves record k to i, i to j and j to k, byte by byte; j and k may be the same record. */
  method Qstexc(es: nat, arr: array<byte>, i: nat, j: nat, k: nat)
    requires es >= 1 && i + es <= arr.Length && j + es <= arr.Length && k + es <= arr.Length
    requires Apart(i, j, es) && Apart(i, k, es) && (j == k || Apart(j, k, es))
    modifies arr
    ensures BytesRotated(old(arr[..]), arr[..], i, j, k, es)
  {
    ghost var was, t := arr[..], 0;
    var n, ri, rj, rk := es, i, j, k;
    while n > 0
      invariant n + t == es && ri == i + t && rj == j + t && rk == k + t
      invariant RotatedTo(was, arr[..], i, j, k, t)
    {
      hide RotatedTo;
      ghost var before := arr[..];
      var c := arr[ri];
      arr[ri] := arr[rk];
      ri := ri + 1;
      arr[rk] := arr[rj];
      rk := rk + 1;
      arr[rj] := c;
      rj := rj + 1;
      RotateStep(was, before, arr[..], i, j, k, t, es);
      n, t := n - 1, t + 1;
    }
    RotateComplete(was, arr[..], i, j, k, es);
  }

  /** Qsexc on records x and y. */
  method Exchange(es: nat, arr: array<byte>, i: nat, j: nat, ghost s: Setting, ghost x: nat, ghost y: nat)
    requires s.es == es >= 1 && At(s, s.n) <= arr.Length && x < s.n && y < s.n
    requires i == At(s, x) && j == At(s, y)
    modifies arr
    ensures ExchangedAt(s, old(arr[..]), arr[..], x, y)
  {
    hide BytesExchanged, SameOutside, View, Exchanged, Offset;
    ghost var was := arr[..];
    Fits(x, s.n, es);
    Fits(y, s.n, es);
    Distinct(x, y, es);
    Qsexc(es, arr, i, j);
    ExchangedView(was, arr[..], s.base, es, s.n, x, y);
  }

  /** Qstexc on records x, y and z. */
  method Rotate(es: nat, arr: array<byte>, i: nat, j: nat, k: nat,
                ghost s: Setting, ghost x: nat, ghost y: nat, ghost z: nat)
    requires s.es == es >= 1 && At(s, s.n) <= arr.Length && x < s.n && y < s.n && z < s.n && x != y && x != z
    requires i == At(s, x) && j == At(s, y) && k == At(s, z)
    modifies arr
    ensures RotatedAt(s, old(arr[..]), arr[..], x, y, z)
  {
    hide BytesRotated, SameOutside, View, Rotated, Offset;
    ghost var was := arr[..];
    Fits(x, s.n, es);
    Fits(y, s.n, es);
    Fits(z, s.n, es);
    Distinct(x, y, es);
    Distinct(x, z, es);
    Distinct(y, z, es);
    Qstexc(es, arr, i, j, k);
    RotatedView(was, arr[..], s.base, es, s.n, x, y, z);
  }

  /** The distance, in bytes, from the start of m records to the middle one. */
  method HalfWay(es: nat, n: nat, ghost m: nat) returns (h: nat)
    requires es >= 1 && n == Offset(m, es)
    ensures h == Offset(m / 2, es)
  {
    MiddleOffset(m, es);
    h := es * (n / (2 * es));
  }

  /** The records stay the ones that the order is about. */
  lemma InPool(s: Setting, now: seq<byte>)
    requires s.Valid() && At(s, s.n) <= |now| && PermutedWithin(s.Start(), Recs(s, now), s.lo, s.hi)
    ensures s.ord ==> Among(Recs(s, now), s.pool) && Among(s.Start(), s.pool)
  {
    hide TotalPreorder, Among, View;
    if s.ord {
      StillAmong(s.Start(), Recs(s, now), s.pool);
    }
  }

  lemma Pointers(s: Setting, now: seq<byte>, m: Marks)
    requires Reached(s, now, m)
    ensures |now| == |s.mem| && s.es >= 1 && At(s, s.n) <= |now|
    ensures s.ord ==> Among(Recs(s, now), s.pool)
    ensures s.lo <= m.i <= m.lp <= m.hp <= m.j < s.hi <= s.n
    ensures At(s, m.i) < At(s, m.lp) <==> m.i < m.lp
    ensures At(s, m.hp) < At(s, m.j) <==> m.hp < m.j
    ensures At(s, m.i + 1) == At(s, m.i) + s.es && At(s, m.lp + 1) == At(s, m.lp) + s.es
    ensures At(s, m.hp + 1) == At(s, m.hp) + s.es
    ensures m.lp > 0 ==> At(s, m.lp - 1) == At(s, m.lp) - s.es
    ensures m.hp > 0 ==> At(s, m.hp - 1) == At(s, m.hp) - s.es
    ensures m.j > 0 ==> At(s, m.j - 1) == At(s, m.j) - s.es
  {
    hide TotalPreorder, Among, Blocks, View;
    InPool(s, now);
    Order(m.i, m.lp, s.es);
    Order(m.hp, m.j, s.es);
  }

  /** A comparison of the record at lp with the one at i places the latter. */
  lemma JudgeLeft(s: Setting, now: seq<byte>, m: Marks, c: int)
    requires Reached(s, now, m) && m.i < m.lp
    requires s.ord ==> c == s.cmp(Recs(s, now)[m.i], Recs(s, now)[m.lp])
    ensures c < 0 ==> Reached(s, now, m.(i := m.i + 1))
    ensures c > 0 ==> Held(s, now, m.i)
    ensures c == 0 ==> (s.ord ==> s.cmp(Recs(s, now)[m.i], s.Pivot()) == 0)
  {
    var r := Recs(s, now);
    InPool(s, now);
    Verdict(s.cmp, s.pool, s.ord, r[m.i], r[m.lp], s.Pivot());
    if s.ord && c < 0 {
      LeftBelow(r, s.cmp, s.Pivot(), s.lo, m.i, m.lp, m.hp, m.j, s.hi);
    }
  }

  /** A comparison of the record at hp with the one at j places the latter. */
  lemma JudgeRight(s: Setting, now: seq<byte>, m: Marks, c: int)
    requires Reached(s, now, m) && m.hp < m.j
    requires s.ord ==> c == s.cmp(Recs(s, now)[m.hp], Recs(s, now)[m.j])
    ensures c < 0 ==> Reached(s, now, m.(j := m.j - 1))
    ensures c == 0 ==> (s.ord ==> s.cmp(Recs(s, now)[m.j], s.Pivot()) == 0)
    ensures c > 0 ==> (s.ord ==> s.cmp(Recs(s, now)[m.j], s.Pivot()) < 0)
  {
    var r := Recs(s, now);
    InPool(s, now);
    Verdict(s.cmp, s.pool, s.ord, r[m.j], r[m.hp], s.Pivot());
    if s.ord && c < 0 {
      RightAbove(r, s.cmp, s.Pivot(), s.lo, m.i, m.lp, m.hp, m.j, s.hi);
    }
  }

  lemma {:induction false} ExchangedElsewhere(s: Setting, before: seq<byte>, after: seq<byte>, x: nat, y: nat, k: nat)
    requires ExchangedAt(s, before, after, x, y) && k < s.n && k != x && k != y
    ensures Recs(s, after)[k] == Recs(s, before)[k]
  {
    hide View, Recs, SameOutside;
  }

  lemma TakeLeftEqual(s: Setting, before: seq<byte>, after: seq<byte>, m: Marks)
    requires Reached(s, before, m) && m.i < m.lp
    requires s.ord ==> s.cmp(Recs(s, before)[m.i], s.Pivot()) == 0
    requires ExchangedAt(s, before, after, m.i, m.lp - 1)
    ensures Reached(s, after, m.(lp := m.lp - 1))
  {
    hide TotalPreorder, Blocks, PermutedWithin, SameOutside, View, Recs, Exchanged, Rotated, Offset;
    var r := Recs(s, before);
    StillOutside(s.mem, before, after, s.base, s.es, s.n);
    ExchangedPermutes(s.Start(), r, m.i, m.lp - 1, s.lo, s.hi);
    if s.ord {
      LeftEqual(r, s.cmp, s.Pivot(), s.lo, m.i, m.lp, m.hp, m.j, s.hi);
    }
  }

  lemma TakeRightEqual(s: Setting, before: seq<byte>, after: seq<byte>, m: Marks)
    requires Reached(s, before, m) && m.hp < m.j
    requires s.ord ==> s.cmp(Recs(s, before)[m.j], s.Pivot()) == 0
    requires ExchangedAt(s, before, after, m.hp + 1, m.j)
    ensures Reached(s, after, m.(hp := m.hp + 1))
    ensures m.i < m.lp && Held(s, before, m.i) ==> Held(s, after, m.i)
  {
    hide TotalPreorder, Blocks, PermutedWithin, SameOutside, View, Recs, Exchanged, Rotated, Offset;
    var r := Recs(s, before);
    StillOutside(s.mem, before, after, s.base, s.es, s.n);
    ExchangedPermutes(s.Start(), r, m.hp + 1, m.j, s.lo, s.hi);
    if s.ord {
      RightEqual(r, s.cmp, s.Pivot(), s.lo, m.i, m.lp, m.hp, m.j, s.hi);
    }
    if m.i < m.lp {
      ExchangedElsewhere(s, before, after, m.hp + 1, m.j, m.i);
    }
  }

  lemma TakeRightBelow(s: Setting, before: seq<byte>, after: seq<byte>, m: Marks)
    requires Reached(s, before, m) && m.i == m.lp && m.hp < m.j
    requires s.ord ==> s.cmp(Recs(s, before)[m.j], s.Pivot()) < 0
    requires RotatedAt(s, before, after, m.i, m.hp + 1, m.j)
    ensures Reached(s, after, Marks(m.lp + 1, m.lp + 1, m.hp + 1, m.j))
  {
    hide TotalPreorder, Blocks, PermutedWithin, SameOutside, View, Recs, Exchanged, Rotated, Offset;
    var r := Recs(s, before);
    StillOutside(s.mem, before, after, s.base, s.es, s.n);
    RotatedPermutes(s.Start(), r, m.i, m.hp + 1, m.j, s.lo, s.hi);
    if s.ord {
      ShiftUp(r, s.cmp, s.Pivot(), s.lo, m.lp, m.hp, m.j, s.hi);
    }
  }

  lemma TakeBoth(s: Setting, before: seq<byte>, after: seq<byte>, m: Marks)
    requires Reached(s, before, m) && m.i < m.lp && m.hp < m.j && Held(s, before, m.i)
    requires s.ord ==> s.cmp(Recs(s, before)[m.j], s.Pivot()) < 0
    requires ExchangedAt(s, before, after, m.i, m.j)
    ensures Reached(s, after, m.(i := m.i + 1, j := m.j - 1))
  {
    hide TotalPreorder, Blocks, PermutedWithin, SameOutside, View, Recs, Exchanged, Rotated, Offset;
    var r := Recs(s, before);
    StillOutside(s.mem, before, after, s.base, s.es, s.n);
    ExchangedPermutes(s.Start(), r, m.i, m.j, s.lo, s.hi);
    if s.ord {
      Swap(r, s.cmp, s.Pivot(), s.lo, m.i, m.lp, m.hp, m.j, s.hi);
    }
  }

  lemma TakeLeftAbove(s: Setting, before: seq<byte>, after: seq<byte>, m: Marks)
    requires Reached(s, before, m) && m.i < m.lp && m.hp == m.j && Held(s, before, m.i)
    requires RotatedAt(s, before, after, m.j, m.lp - 1, m.i)
    ensures Reached(s, after, Marks(m.i, m.lp - 1, m.hp - 1, m.hp - 1))
  {
    hide TotalPreorder, Blocks, PermutedWithin, SameOutside, View, Recs, Exchanged, Rotated, Offset;
    var r := Recs(s, before);
    StillOutside(s.mem, before, after, s.base, s.es, s.n);
    RotatedPermutes(s.Start(), r, m.j, m.lp - 1, m.i, s.lo, s.hi);
    if s.ord {
      ShiftDown(r, s.cmp, s.Pivot(), s.lo, m.i, m.lp, m.hp, s.hi);
    }
  }

  /** Before the pass only the middle record is classified: it is the block of equal records. */
  lemma PassStarts(s: Setting)
    requires s.Valid() && s.lo + 2 <= s.hi
    ensures var mid := s.lo + (s.hi - s.lo) / 2;
            && Reached(s, s.mem, Marks(s.lo, mid, mid, s.hi - 1))
            && At(s, mid) == At(s, s.lo) + Offset((s.hi - s.lo) / 2, s.es)
    ensures At(s, s.hi) == At(s, s.lo) + Offset(s.hi - s.lo, s.es) && At(s, s.hi - 1) == At(s, s.hi) - s.es
    ensures s.es >= 1
  {
    hide TotalPreorder, Blocks, View, Offset;
    Span(s.lo, s.hi, s.es);
    Span(s.lo, s.lo + (s.hi - s.lo) / 2, s.es);
    Next(s.hi, s.es);
    if s.ord {
      Start(s.cmp, s.pool, s.Start(), s.lo, s.hi);
    }
  }

  /** The part of a pass that begins at the label loop: it works down from j until a record below
      the pivot has changed places with the one held at i, or until j has come down to hp. */
  method ScanRight(fc: Comparison, es: nat, arr: array<byte>, i0: nat, lp0: nat, hp0: nat, j0: nat,
                   ghost s: Setting, ghost m0: Marks)
    returns (i: nat, lp: nat, hp: nat, j: nat, swapped: bool, ghost m: Marks)
    requires Follows(s, fc.qscmp) && s.es == es && Reached(s, arr[..], m0) && (m0.i < m0.lp ==> Held(s, arr[..], m0.i))
    requires i0 == At(s, m0.i) && lp0 == At(s, m0.lp) && hp0 == At(s, m0.hp) && j0 == At(s, m0.j)
    requires m0.i <= m0.lp && m0.hp <= m0.j
    modifies arr, fc
    ensures Reached(s, arr[..], m) && m.i <= m.lp && m.hp <= m.j
    ensures i == At(s, m.i) && lp == At(s, m.lp) && hp == At(s, m.hp) && j == At(s, m.j)
    ensures fc.made >= old(fc.made)
    ensures swapped ==> m0.i < m0.lp && fc.made + 1 + (m.lp - m.i) + (m.j - m.hp) == old(fc.made) + (m0.lp - m0.i) + (m0.j - m0.hp)
    ensures !swapped ==> m.hp == m.j && (m.i < m.lp ==> Held(s, arr[..], m.i))
    ensures !swapped ==> (m.i < m.lp <==> m0.i < m0.lp) && fc.made + (m.lp - m.i) == old(fc.made) + (m0.lp - m0.i) + (m0.j - m0.hp)
  {
    hide *;
    i, lp, hp, j, swapped, m := i0, lp0, hp0, j0, false, m0;
    while true
      invariant Reached(s, arr[..], m) && (m.i < m.lp ==> Held(s, arr[..], m.i))
      invariant i == At(s, m.i) && lp == At(s, m.lp) && hp == At(s, m.hp) && j == At(s, m.j)
      invariant m.i <= m.lp && m.hp <= m.j && (m.i < m.lp <==> m0.i < m0.lp)
      invariant fc.made >= old(fc.made)
      invariant fc.made + (m.lp - m.i) + (m.j - m.hp) == old(fc.made) + (m0.lp - m0.i) + (m0.j - m0.hp)
      decreases m.j - m.hp
    {
      Pointers(s, arr[..], m);
      if j > hp {
        ghost var before := arr[..];
        var c := Compare(fc, es, arr, hp, j, s, m.hp, m.j);
        JudgeRight(s, before, m, c);
        if c == 0 {
          hp := hp + es;
          Exchange(es, arr, hp, j, s, m.hp + 1, m.j);
          TakeRightEqual(s, before, arr[..], m);
          m := m.(hp := m.hp + 1);
          continue;
        }
        if c > 0 {
          if i == lp {
            hp := hp + es;
            Rotate(es, arr, i, hp, j, s, m.i, m.hp + 1, m.j);
            TakeRightBelow(s, before, arr[..], m);
            lp := lp + es;
            i := lp;
            m := Marks(m.lp + 1, m.lp + 1, m.hp + 1, m.j);
            continue;
          }
          Exchange(es, arr, i, j, s, m.i, m.j);
          TakeBoth(s, before, arr[..], m);
          j := j - es;
          i := i + es;
          m := m.(i := m.i + 1, j := m.j - 1);
          swapped := true;
          return;
        }
        j := j - es;
        m := m.(j := m.j - 1);
        continue;
      }
      return;
    }
  }

  /** One partition pass over the bytes a to l, which are records lo to hi, around the middle
      record.  It returns the bounds lp and hp of the block of records equal to that one, and
      the marks of the end of the pass. */
  method Partition(fc: Comparison, es: nat, arr: array<byte>, a: nat, l: nat, ghost s: Setting)
    returns (lp: nat, hp: nat, ghost m: Marks)
    requires s.Valid() && s.lo + 2 <= s.hi && Follows(s, fc.qscmp) && s.es == es && s.mem == arr[..]
    requires a == At(s, s.lo) && l == At(s, s.hi)
    modifies arr, fc
    ensures Reached(s, arr[..], m) && m.i == m.lp && m.hp == m.j
    ensures lp == At(s, m.lp) && hp == At(s, m.hp)
    ensures fc.made == old(fc.made) + (s.hi - s.lo - 1)
  {
    hide *;
    PassStarts(s);
    m := Marks(s.lo, s.lo + (s.hi - s.lo) / 2, s.lo + (s.hi - s.lo) / 2, s.hi - 1);
    var half := HalfWay(es, l - a, s.hi - s.lo);
    hp, lp := a + half, a + half;
    var i, j := a, l - es;
    while true
      invariant Reached(s, arr[..], m)
      invariant i == At(s, m.i) && lp == At(s, m.lp) && hp == At(s, m.hp) && j == At(s, m.j)
      invariant m.i <= m.lp && m.hp <= m.j
      invariant fc.made + (m.lp - m.i) + (m.j - m.hp) == old(fc.made) + (s.hi - s.lo - 1)
      decreases (m.lp - m.i) + (m.j - m.hp)
    {
      Pointers(s, arr[..], m);
      if i < lp {
        ghost var before := arr[..];
        var c := Compare(fc, es, arr, i, lp, s, m.i, m.lp);
        JudgeLeft(s, before, m, c);
        if c == 0 {
          lp := lp - es;
          Exchange(es, arr, i, lp, s, m.i, m.lp - 1);
          TakeLeftEqual(s, before, arr[..], m);
          m := m.(lp := m.lp - 1);
          continue;
        }
        if c < 0 {
          i := i + es;
          m := m.(i := m.i + 1);
          continue;
        }
      }
      var swapped;
      i, lp, hp, j, swapped, m := ScanRight(fc, es, arr, i, lp, hp, j, s, m);
      if swapped {
        continue;
      }
      Pointers(s, arr[..], m);
      if i == lp {
        return;
      }
      ghost var before := arr[..];
      lp := lp - es;
      Rotate(es, arr, j, lp, i, s, m.j, m.lp - 1, m.i);
      TakeLeftAbove(s, before, arr[..], m);
      hp := hp - es;
      j := hp;
      m := Marks(m.i, m.lp - 1, m.hp - 1, m.hp - 1);
    }
  }

  /** What a pass has done when its pointers have met: with a total preorder, the records below the one
      that was in the middle, those equal to it, and those above it. */
  lemma PassEnds(s: Setting, now: seq<byte>, m: Marks)
    requires Reached(s, now, m) && m.i == m.lp && m.hp == m.j && s.ord
    ensures var r, was := View(now, s.base, s.es, s.n), View(s.mem, s.base, s.es, s.n);
            var pivot := was[s.lo + (s.hi - s.lo) / 2];
            && multiset(r) == multiset(was)
            && (forall k :: s.lo <= k < m.lp ==> s.cmp(r[k], pivot) < 0)
            && (forall k :: m.lp <= k <= m.hp ==> s.cmp(r[k], pivot) == 0)
            && (forall k :: m.hp < k < s.hi ==> s.cmp(r[k], pivot) > 0)
            && (forall k :: 0 <= k < s.n && (k < s.lo || s.hi <= k) ==> r[k] == was[k])
  {
    hide TotalPreorder, View, Among, SameOutside;
  }

  // ---------- from partition passes to a sorted array ----------

  ghost predicate Sorted(r: seq<Record>, cmp: Comparator, lo: nat, hi: nat)
    requires hi <= |r|
  {
    forall x, y :: lo <= x < y < hi ==> cmp(r[x], r[y]) <= 0
  }

  /** Every two of the records from are to end are in order, unless both lie in [lo, hi). */
  ghost predicate SortedBut(r: seq<Record>, cmp: Comparator, start: nat, lo: nat, hi: nat, end: nat)
    requires end <= |r|
  {
    forall x, y :: start <= x < y < end && !(lo <= x && y < hi) ==> cmp(r[x], r[y]) <= 0
  }

  /** The same, unless both lie in [lo, p) or both in [q, hi). */
  ghost predicate SortedButSides(r: seq<Record>, cmp: Comparator, start: nat, lo: nat, p: nat, q: nat, hi: nat, end: nat)
    requires end <= |r|
  {
    forall x, y :: start <= x < y < end && !(lo <= x && y < p) && !(q <= x && y < hi) ==> cmp(r[x], r[y]) <= 0
  }

  /** Records from different blocks, and records equal to the pivot, are in order. */
  lemma BlocksOrdered(r: seq<Record>, cmp: Comparator, pool: seq<Record>, pivot: Record,
                      lo: nat, p: nat, q: nat, hi: nat, x: nat, y: nat)
    requires TotalPreorder(cmp, pool) && lo <= p <= q < hi <= |r| && Blocks(r, cmp, pivot, lo, p, p, q, q, hi)
    requires lo <= x < y < hi && !(y < p) && !(q < x)
    requires pivot in pool && r[x] in pool && r[y] in pool
    ensures cmp(r[x], r[y]) <= 0
  {
    assert cmp(r[x], pivot) <= 0;
    assert cmp(r[y], pivot) >= 0;
    assert cmp(pivot, r[y]) <= 0;
  }

  /** A partition pass leaves nothing but the two sides to sort. */
  lemma PartitionSettles(r: seq<Record>, r': seq<Record>, cmp: Comparator, pool: seq<Record>, pivot: Record,
                         start: nat, lo: nat, p: nat, q: nat, hi: nat, end: nat)
    requires TotalPreorder(cmp, pool) && start <= lo <= p <= q < hi <= end <= |r|
    requires SortedBut(r, cmp, start, lo, hi, end) && PermutedWithin(r, r', lo, hi)
    requires Blocks(r', cmp, pivot, lo, p, p, q, q, hi)
    requires pivot in pool && Among(r', pool)
    ensures SortedButSides(r', cmp, start, lo, p, q + 1, hi, end)
  {
    hide TotalPreorder, Blocks;
    forall x, y | start <= x < y < end && !(lo <= x && y < p) && !(q < x && y < hi)
      ensures cmp(r'[x], r'[y]) <= 0
    {
      if lo <= x && y < hi {
        BlocksOrdered(r', cmp, pool, pivot, lo, p, q, hi, x, y);
      } else {
        StillOrdered(r, r', cmp, lo, hi, start, end, x, y);
      }
    }
  }

  /** A pair with at most one record in [lo, hi) stays in order when those are rearranged. */
  lemma StillOrdered(r: seq<Record>, r': seq<Record>, cmp: Comparator, lo: nat, hi: nat, start: nat, end: nat, x: nat, y: nat)
    requires start <= lo <= hi <= end <= |r| && PermutedWithin(r, r', lo, hi)
    requires start <= x < y < end && !(lo <= x && y < hi)
    requires forall x', y' :: (start <= x' < y' < end && (x' == x || lo <= x' < hi) && (y' == y || lo <= y' < hi)
                               && !(lo <= x' && y' < hi)) ==> cmp(r[x'], r[y']) <= 0
    ensures cmp(r'[x], r'[y]) <= 0
  {
    if lo <= x < hi {
      var x' := PermutedFrom(r, r', lo, hi, x);
      assert cmp(r[x'], r[y]) <= 0;
    } else if lo <= y < hi {
      var y' := PermutedFrom(r, r', lo, hi, y);
      assert cmp(r[x], r[y']) <= 0;
    }
  }

  lemma LeftSettled(r: seq<Record>, r': seq<Record>, cmp: Comparator,
                    start: nat, lo: nat, p: nat, q: nat, hi: nat, end: nat)
    requires start <= lo <= p <= q <= hi <= end <= |r| && SortedButSides(r, cmp, start, lo, p, q, hi, end)
    requires PermutedWithin(r, r', lo, p) && Sorted(r', cmp, lo, p)
    ensures SortedBut(r', cmp, start, q, hi, end)
  {
    forall x, y | start <= x < y < end && !(q <= x && y < hi)
      ensures cmp(r'[x], r'[y]) <= 0
    {
      if !(lo <= x && y < p) {
        StillOrdered(r, r', cmp, lo, p, start, end, x, y);
      }
    }
  }

  lemma RightSettled(r: seq<Record>, r': seq<Record>, cmp: Comparator,
                     start: nat, lo: nat, p: nat, q: nat, hi: nat, end: nat)
    requires start <= lo <= p <= q <= hi <= end <= |r| && SortedButSides(r, cmp, start, lo, p, q, hi, end)
    requires PermutedWithin(r, r', q, hi) && Sorted(r', cmp, q, hi)
    ensures SortedBut(r', cmp, start, lo, p, end)
  {
    forall x, y | start <= x < y < end && !(lo <= x && y < p)
      ensures cmp(r'[x], r'[y]) <= 0
    {
      if !(q <= x && y < hi) {
        StillOrdered(r, r', cmp, q, hi, start, end, x, y);
      }
    }
  }

  /** The whole part of the binary logarithm. */
  ghost function Log2(n: nat): nat
    requires n >= 1
  {
    if n == 1 then 0 else 1 + Log2(n / 2)
  }

  lemma {:induction false} Log2Monotone(m: nat, n: nat)
    requires 1 <= m <= n
    ensures Log2(m) <= Log2(n)
  {
    if m > 1 {
      Log2Monotone(m / 2, n / 2);
    }
  }

  ghost function Pow2(k: nat): nat {
    if k == 0 then 1 else 2 * Pow2(k - 1)
  }

  /** The logarithm is the greatest power that does not go beyond the number. */
  lemma {:induction false} Log2Is(n: nat)
    requires n >= 1
    ensures Pow2(0) == 1 && Pow2(Log2(n) + 1) == 2 * Pow2(Log2(n))
    ensures Pow2(Log2(n)) <= n < 2 * Pow2(Log2(n))
  {
    if n > 1 {
      Log2Is(n / 2);
    }
  }

  /** A side of at most half the records has a smaller logarithm. */
  lemma {:induction false} DepthOfSide(side: nat, n: nat)
    requires 2 * side + 1 <= n
    ensures Log2(side + 1) + 1 <= Log2(n + 1)
  {
    Log2Monotone(side + 1, (n + 1) / 2);
  }

  /** The number of pairs among n records. */
  ghost function Pairs(n: nat): nat {
    if n == 0 then 0 else n - 1 + Pairs(n - 1)
  }

  lemma {:induction false} PairsClosed(n: nat)
    ensures 2 * Pairs(n) == n * (n - 1)
  {
    if n > 0 {
      PairsClosed(n - 1);
      assert n * (n - 1) == (n - 1) * (n - 2) + 2 * (n - 1);
    }
  }

  /** Pairs within either side, and pairs with the pivot, are all different pairs. */
  lemma {:induction false} PairsSplit(p: nat, q: nat, n: nat)
    requires p + q + 1 <= n
    ensures Pairs(p) + Pairs(q) + n - 1 <= Pairs(n)
  {
    if p + q + 1 < n {
      PairsSplit(p, q, n - 1);
    } else if q > 0 {
      PairsSplit(p, q - 1, n - 1);
    }
  }

  /** The memory now holds the records of s rearranged between lo and hi, and as far as the
      comparator is a total preorder all of them are in order but those of [lo, hi). */
  ghost predicate Partly(s: Setting, now: seq<byte>, lo: nat, hi: nat) {
    && s.Valid() && s.lo <= lo <= hi <= s.hi
    && SameOutside(s.mem, now, s.base, s.es, s.n)
    && PermutedWithin(s.Start(), Recs(s, now), s.lo, s.hi)
    && (s.ord ==> SortedBut(Recs(s, now), s.cmp, s.lo, lo, hi, s.hi))
  }

  /** The same, with two sides of [lo, hi) left to sort. */
  ghost predicate PartlySides(s: Setting, now: seq<byte>, lo: nat, p: nat, q: nat, hi: nat) {
    && s.Valid() && s.lo <= lo <= p <= q <= hi <= s.hi
    && SameOutside(s.mem, now, s.base, s.es, s.n)
    && PermutedWithin(s.Start(), Recs(s, now), s.lo, s.hi)
    && (s.ord ==> SortedButSides(Recs(s, now), s.cmp, s.lo, lo, p, q, hi, s.hi))
  }

  /** The memory now holds the records lo to hi of s sorted, and everything else as before. */
  ghost predicate Done(s: Setting, now: seq<byte>) {
    && s.Valid()
    && SameOutside(s.mem, now, s.base, s.es, s.n)
    && PermutedWithin(s.Start(), Recs(s, now), s.lo, s.hi)
    && (s.ord ==> Sorted(Recs(s, now), s.cmp, s.lo, s.hi))
  }

  /** The setting for records lo to hi of the memory now. */
  ghost function Part(s: Setting, now: seq<byte>, lo: nat, hi: nat): Setting {
    s.(mem := now, lo := lo, hi := hi)
  }

  lemma AfterPartition(s: Setting, before: seq<byte>, after: seq<byte>, lo: nat, hi: nat, m: Marks)
    requires Partly(s, before, lo, hi)
    requires Reached(Part(s, before, lo, hi), after, m) && m.i == m.lp && m.hp == m.j
    ensures PartlySides(s, after, lo, m.lp, m.hp + 1, hi)
  {
    hide TotalPreorder, Blocks, PermutedWithin, SameOutside, View, SortedBut, SortedButSides, Offset;
    var t := Part(s, before, lo, hi);
    StillOutside(s.mem, before, after, s.base, s.es, s.n);
    PermutedWider(s.Start(), Recs(s, before), Recs(s, after), s.lo, lo, hi, s.hi);
    if s.ord {
      InPool(t, after);
      PartitionSettles(Recs(s, before), Recs(s, after), s.cmp, s.pool, t.Pivot(), s.lo, lo, m.lp, m.hp, hi, s.hi);
    }
  }

  lemma AfterLeft(s: Setting, before: seq<byte>, after: seq<byte>, lo: nat, p: nat, q: nat, hi: nat)
    requires PartlySides(s, before, lo, p, q, hi) && Done(Part(s, before, lo, p), after)
    ensures Partly(s, after, q, hi)
  {
    hide TotalPreorder, Blocks, PermutedWithin, SameOutside, View, SortedBut, SortedButSides, Sorted, Offset;
    StillOutside(s.mem, before, after, s.base, s.es, s.n);
    PermutedWider(s.Start(), Recs(s, before), Recs(s, after), s.lo, lo, p, s.hi);
    if s.ord {
      LeftSettled(Recs(s, before), Recs(s, after), s.cmp, s.lo, lo, p, q, hi, s.hi);
    }
  }

  lemma AfterRight(s: Setting, before: seq<byte>, after: seq<byte>, lo: nat, p: nat, q: nat, hi: nat)
    requires PartlySides(s, before, lo, p, q, hi) && Done(Part(s, before, q, hi), after)
    ensures Partly(s, after, lo, p)
  {
    hide TotalPreorder, Blocks, PermutedWithin, SameOutside, View, SortedBut, SortedButSides, Sorted, Offset;
    StillOutside(s.mem, before, after, s.base, s.es, s.n);
    PermutedWider(s.Start(), Recs(s, before), Recs(s, after), s.lo, q, hi, s.hi);
    if s.ord {
      RightSettled(Recs(s, before), Recs(s, after), s.cmp, s.lo, lo, p, q, hi, s.hi);
    }
  }

  lemma PartlyDone(s: Setting, now: seq<byte>, lo: nat, hi: nat)
    requires Partly(s, now, lo, hi) && hi <= lo + 1
    ensures Done(s, now)
  {
    hide TotalPreorder, PermutedWithin, SameOutside, View;
  }

  lemma Zero(es: nat)
    ensures Offset(0, es) == 0
  {
  }

  /** How many records lie between two pointers, as far as the source tells from their distance. */
  lemma Distances(s: Setting, lo: nat, p: nat, q: nat, hi: nat)
    requires s.es >= 1 && lo <= p <= q <= hi
    ensures At(s, hi) - At(s, lo) <= s.es <==> hi <= lo + 1
    ensures At(s, p) - At(s, lo) >= At(s, hi) - At(s, q) <==> p - lo >= hi - q
    ensures At(s, q + 1) == At(s, q) + s.es
  {
    hide Offset;
    Zero(s.es);
    Next(q, s.es);
    Span(lo, hi, s.es);
    Span(lo, p, s.es);
    Span(q, hi, s.es);
    Order(p - lo, hi - q, s.es);
    Order(1, hi - lo, s.es);
    Next(0, s.es);
  }

  lemma QsStarts(s: Setting)
    requires s.Valid()
    ensures Partly(s, s.mem, s.lo, s.hi) && s.lo <= s.hi && Log2(s.hi - s.lo + 1) + 1 >= 1
  {
  }

  lemma PartlyPart(s: Setting, now: seq<byte>, lo: nat, hi: nat)
    requires Partly(s, now, lo, hi)
    ensures var t := Part(s, now, lo, hi);
            && t.Valid() && t.cmp == s.cmp && t.es == s.es && t.mem == now && t.lo == lo && t.hi == hi
            && (forall k :: At(t, k) == At(s, k))
    ensures s.es >= 1
  {
    hide TotalPreorder, Among, View, PermutedWithin, SortedBut, Offset;
    InPool(s, now);
  }

  lemma FollowsPart(s: Setting, qscmp: Answers, now: seq<byte>, lo: nat, hi: nat)
    requires Follows(s, qscmp)
    ensures Follows(Part(s, now, lo, hi), qscmp)
  {
    hide Agrees;
  }

  lemma SidesPart(s: Setting, now: seq<byte>, lo: nat, p: nat, q: nat, hi: nat)
    requires PartlySides(s, now, lo, p, q, hi)
    ensures var t := Part(s, now, lo, p);
            && t.Valid() && t.cmp == s.cmp && t.es == s.es && t.mem == now && t.lo == lo && t.hi == p
            && (forall k :: At(t, k) == At(s, k))
    ensures var t := Part(s, now, q, hi);
            && t.Valid() && t.cmp == s.cmp && t.es == s.es && t.mem == now && t.lo == q && t.hi == hi
            && (forall k :: At(t, k) == At(s, k))
  {
    hide TotalPreorder, Among, View, PermutedWithin, SortedButSides, Offset;
    InPool(s, now);
  }

  lemma AtOrder(s: Setting, x: nat, y: nat)
    requires s.es >= 1 && x <= y
    ensures At(s, x) <= At(s, y)
  {
    Order(y, x, s.es);
  }

  /** The recursive sort of the bytes a0 to l0.  Each trip sorts one side by a call and goes on
      with the other.  A call takes at least one off room, so that no more than room + 1 calls are
      active at once; depth is how many are, this one included. */
  method Qs1(fc: Comparison, es: nat, arr: array<byte>, a0: nat, l0: nat, ghost s: Setting, ghost room: nat)
    returns (ghost depth: nat)
    requires s.Valid() && Follows(s, fc.qscmp) && s.es == es && s.mem == arr[..]
    requires a0 == At(s, s.lo) && l0 == At(s, s.hi) && room == Log2(s.hi - s.lo + 1)
    modifies arr, fc
    ensures Done(s, arr[..])
    ensures depth <= room + 1
    ensures fc.made <= old(fc.made) + Pairs(s.hi - s.lo)
    decreases room
  {
    hide *;
    ghost var lo: nat, hi: nat := s.lo, s.hi;
    QsStarts(s);
    depth := 1;
    var a, l := a0, l0;
    while true
      invariant Partly(s, arr[..], lo, hi) && s.lo <= lo <= hi <= s.hi
      invariant a == At(s, lo) && l == At(s, hi)
      invariant depth <= room + 1
      invariant fc.made + Pairs(hi - lo) <= old(fc.made) + Pairs(s.hi - s.lo)
      decreases hi - lo
    {
      ghost var before := arr[..];
      PartlyPart(s, before, lo, hi);
      Distances(s, lo, hi, hi, hi);
      AtOrder(s, lo, hi);
      if l - a <= es {
        PartlyDone(s, before, lo, hi);
        return;
      }
      ghost var m;
      var lp, hp;
      FollowsPart(s, fc.qscmp, before, lo, hi);
      lp, hp, m := Partition(fc, es, arr, a, l, Part(s, before, lo, hi));
      Pointers(Part(s, before, lo, hi), arr[..], m);
      AfterPartition(s, before, arr[..], lo, hi, m);
      ghost var p, q := m.lp, m.hp + 1;
      Distances(s, lo, p, m.hp, hi);
      PairsSplit(p - lo, hi - q, hi - lo);
      ghost var d, mid := 0, arr[..];
      if lp - a >= l - hp {
        SidesPart(s, mid, lo, p, q, hi);
        FollowsPart(s, fc.qscmp, mid, q, hi);
        DepthOfSide(hi - q, hi - lo);
        Log2Monotone(hi - lo + 1, s.hi - s.lo + 1);
        d := Qs1(fc, es, arr, hp + es, l, Part(s, mid, q, hi), Log2(hi - q + 1));
        AfterRight(s, mid, arr[..], lo, p, q, hi);
        l := lp;
        hi := p;
      } else {
        SidesPart(s, mid, lo, p, q, hi);
        FollowsPart(s, fc.qscmp, mid, lo, p);
        DepthOfSide(p - lo, hi - lo);
        Log2Monotone(hi - lo + 1, s.hi - s.lo + 1);
        d := Qs1(fc, es, arr, a, lp, Part(s, mid, lo, p), Log2(p - lo + 1));
        AfterLeft(s, mid, arr[..], lo, p, q, hi);
        a := hp + es;
        lo := q;
      }
      depth := if depth < 1 + d then 1 + d else depth;
    }
  }

  /** The setting of a whole sort. */
  ghost function Whole(fc: Answers, order: Comparator, es: nat, mem: seq<byte>, a: nat, n: nat): Setting
    requires a + Offset(n, es) <= |mem|
  {
    var pool := View(mem, a, es, n);
    Setting(order, pool, es, mem, a, n, 0, n, TotalPreorder(order, pool) && Agrees(fc, order, pool))
  }

  lemma WholeValid(fc: Answers, order: Comparator, es: nat, mem: seq<byte>, a: nat, n: nat)
    requires es >= 1 && a + Offset(n, es) <= |mem|
    ensures var s := Whole(fc, order, es, mem, a, n); s.Valid() && Follows(s, fc) && At(s, 0) == a
  {
    hide TotalPreorder, Agrees, View;
  }

  lemma WholeDone(s: Setting, now: seq<byte>)
    requires Done(s, now) && s.lo == 0 && s.hi == s.n && At(s, s.n) <= |now|
    ensures SameOutside(s.mem, now, s.base, s.es, s.n) && multiset(Recs(s, now)) == multiset(s.Start())
    ensures s.ord ==> Sorted(Recs(s, now), s.cmp, 0, s.n)
  {
    hide TotalPreorder, Among, View, SameOutside, Sorted;
  }

  /** Sorts the n records of es bytes that start at a.  Whatever the calls of the comparison function
      answer, the records are rearranged and nothing else is touched, at most Log2(n + 1) + 1 calls
      of Qs1 are active at once, and no more pairs are compared than there are.  When, on the
      records of the array, they answer by a total preorder, the records end up in its order. */
  method Qsort(arr: array<byte>, a: nat, n: nat, es: nat, fc: Comparison, ghost order: Comparator)
    returns (ghost depth: nat)
    requires es >= 1 && a + Offset(n, es) <= arr.Length  // Offset(n, es) is n * es
    modifies arr, fc
    ensures Offset(n, es) == n * es
    ensures forall k {:trigger arr[k]} :: 0 <= k < a || a + n * es <= k < arr.Length ==> arr[k] == old(arr[k])
    ensures multiset(View(arr[..], a, es, n)) == multiset(old(View(arr[..], a, es, n)))
    ensures TotalPreorder(order, old(View(arr[..], a, es, n))) && Agrees(fc.qscmp, order, old(View(arr[..], a, es, n))) ==>
              forall x, y :: 0 <= x < y < n ==> order(View(arr[..], a, es, n)[x], View(arr[..], a, es, n)[y]) <= 0
    ensures depth <= Log2(n + 1) + 1
    ensures 2 * (fc.made - old(fc.made)) <= n * (n - 1)
  {
    hide TotalPreorder, Agrees, Among, View, SameOutside, Sorted, Done, Log2, Pairs, Offset, Follows;
    OffsetIsProduct(n, es);
    PairsClosed(n);
    ghost var s := Whole(fc.qscmp, order, es, arr[..], a, n);
    WholeValid(fc.qscmp, order, es, arr[..], a, n);
    depth := Qs1(fc, es, arr, a, a + n * es, s, Log2(n + 1));
    SameLength(s, arr[..]);
    WholeDone(s, arr[..]);
    Spread(s, arr[..]);
  }

  lemma Spread(s: Setting, now: seq<byte>)
    requires Done(s, now) && s.lo == 0 && s.hi == s.n && |now| == |s.mem| && At(s, s.n) <= |now|
    ensures forall k {:trigger now[k]} :: 0 <= k < s.base || s.base + Offset(s.n, s.es) <= k < |now| ==> now[k] == s.mem[k]
    ensures s.ord ==> forall x, y :: 0 <= x < y < s.n ==> s.cmp(Recs(s, now)[x], Recs(s, now)[y]) <= 0
  {
    hide TotalPreorder, Among, View, PermutedWithin;
  }

  lemma SameLength(s: Setting, now: seq<byte>)
    requires Done(s, now)
    ensures |now| == |s.mem| && At(s, s.n) <= |now|
  {
    hide TotalPreorder, Among, View, PermutedWithin, Sorted;
  }
}
