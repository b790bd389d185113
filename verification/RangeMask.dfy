/** `RangeMask`: a set of numbers within a ground range, kept as a sorted map of intervals. */
module RangeMask {
  import opened Bits

  /** The interval from first up to, but not including, second. */
  datatype Range = Range(first: nat, second: nat)

  /** Sorted, non-empty, disjoint and non-touching. */
  ghost predicate Ordered(rs: seq<Range>) {
    && (forall j :: 0 <= j < |rs| ==> rs[j].first < rs[j].second)
    && (forall i, j :: 0 <= i < j < |rs| ==> rs[i].second < rs[j].first)
  }

  ghost predicate Within(rs: seq<Range>, all: Range) {
    forall j :: 0 <= j < |rs| ==> all.first <= rs[j].first && rs[j].second <= all.second
  }

  ghost predicate Has(rs: seq<Range>, x: int) {
    exists j :: 0 <= j < |rs| && rs[j].first <= x < rs[j].second
  }

  /** `upper_bound`: the first interval that starts above i. */
  function UpperBound(rs: seq<Range>, i: int): (k: nat)
    requires Ordered(rs)
    ensures k <= |rs|
    ensures forall j :: 0 <= j < k ==> rs[j].first <= i
    ensures forall j :: k <= j < |rs| ==> rs[j].first > i
  {
    if rs == [] || rs[0].first > i then 0 else 1 + UpperBound(rs[1..], i)
  }

  /** Only the interval before the upper bound can hold i. */
  lemma HasBefore(rs: seq<Range>, i: int)
    requires Ordered(rs)
    ensures var k := UpperBound(rs, i); Has(rs, i) <==> k > 0 && i < rs[k - 1].second
  {
    var k := UpperBound(rs, i);
    if j :| 0 <= j < |rs| && rs[j].first <= i < rs[j].second {
      assert j < k;
    }
  }

  lemma HasInterval(rs: seq<Range>, k: nat)
    requires k < |rs|
    ensures forall x :: rs[k].first <= x < rs[k].second ==> Has(rs, x)
  {
  }

  lemma HasConcat(a: seq<Range>, b: seq<Range>, x: int)
    ensures Has(a + b, x) <==> Has(a, x) || Has(b, x)
  {
    if j :| 0 <= j < |a| && a[j].first <= x < a[j].second {
      assert (a + b)[j] == a[j];
    }
    if j :| 0 <= j < |b| && b[j].first <= x < b[j].second {
      assert (a + b)[|a| + j] == b[j];
    }
  }

  lemma HasOne(r: Range, x: int)
    ensures Has([r], x) <==> r.first <= x < r.second
  {
    if r.first <= x < r.second {
      assert [r][0] == r;
    }
  }

  /** Replacing the intervals lo to hi by r. */
  function Replaced(rs: seq<Range>, lo: nat, hi: nat, r: Range): seq<Range>
    requires lo <= hi <= |rs|
  {
    rs[..lo] + [r] + rs[hi..]
  }

  lemma ReplacedHas(rs: seq<Range>, lo: nat, hi: nat, r: Range, x: int)
    requires lo <= hi <= |rs|
    ensures Has(Replaced(rs, lo, hi, r), x) <==> Has(rs[..lo], x) || r.first <= x < r.second || Has(rs[hi..], x)
    ensures Has(rs, x) <==> Has(rs[..lo], x) || Has(rs[lo..hi], x) || Has(rs[hi..], x)
  {
    HasConcat(rs[..lo] + [r], rs[hi..], x);
    HasConcat(rs[..lo], [r], x);
    HasOne(r, x);
    assert rs == rs[..lo] + rs[lo..hi] + rs[hi..];
    HasConcat(rs[..lo] + rs[lo..hi], rs[hi..], x);
    HasConcat(rs[..lo], rs[lo..hi], x);
  }

  /** Intervals replaced by one that covers them: its elements are added. */
  lemma ReplacedAdds(rs: seq<Range>, lo: nat, hi: nat, r: Range)
    requires lo <= hi <= |rs| && forall j :: lo <= j < hi ==> r.first <= rs[j].first && rs[j].second <= r.second
    ensures forall x :: Has(Replaced(rs, lo, hi, r), x) <==> Has(rs, x) || r.first <= x < r.second
  {
    forall x
      ensures Has(Replaced(rs, lo, hi, r), x) <==> Has(rs, x) || r.first <= x < r.second
    {
      ReplacedHas(rs, lo, hi, r, x);
      assert Has(rs[lo..hi], x) ==> r.first <= x < r.second;
    }
  }

  lemma OrderedConcat(a: seq<Range>, b: seq<Range>)
    requires Ordered(a) && Ordered(b) && (a != [] && b != [] ==> a[|a| - 1].second < b[0].first)
    ensures Ordered(a + b)
  {
    forall i, j | 0 <= i < |a| && 0 <= j < |b|
      ensures a[i].second < b[j].first
    {
      assert i == |a| - 1 || a[i].second < a[|a| - 1].first;
      assert j == 0 || b[0].second < b[j].first;
    }
  }

  lemma ReplacedOrdered(rs: seq<Range>, lo: nat, hi: nat, r: Range, all: Range)
    requires Ordered(rs) && Within(rs, all) && lo <= hi <= |rs|
    requires all.first <= r.first < r.second <= all.second
    requires lo > 0 ==> rs[lo - 1].second < r.first
    requires hi < |rs| ==> r.second < rs[hi].first
    ensures Ordered(Replaced(rs, lo, hi, r)) && Within(Replaced(rs, lo, hi, r), all)
  {
    var a, b := rs[..lo], rs[hi..];
    CutOrdered(rs, lo, a, rs[lo..]);
    CutOrdered(rs, hi, rs[..hi], b);
    CutWithin(rs, lo, a, rs[lo..], all);
    CutWithin(rs, hi, rs[..hi], b, all);
    assert Ordered([r]) && Within([r], all);
    hide Ordered; hide Within;
    WithinConcat(a, [r], all);
    WithinConcat(a + [r], b, all);
    OrderedConcat(a, [r]);
    OrderedConcat(a + [r], b);
  }

  lemma CutWithin(rs: seq<Range>, k: nat, a: seq<Range>, b: seq<Range>, all: Range)
    requires Within(rs, all) && k <= |rs| && a == rs[..k] && b == rs[k..]
    ensures Within(a, all) && Within(b, all)
  {
  }

  lemma WithinConcat(a: seq<Range>, b: seq<Range>, all: Range)
    requires Within(a, all) && Within(b, all)
    ensures Within(a + b, all)
  {
  }

  /** An ordered list is determined by its elements. */
  lemma {:induction false} OrderedUnique(a: seq<Range>, b: seq<Range>)
    requires Ordered(a) && Ordered(b) && forall x :: Has(a, x) <==> Has(b, x)
    ensures a == b
  {
    if a == [] {
      if b != [] {
        assert Has(b, b[0].first);
      }
    } else if b == [] {
      assert Has(a, a[0].first);
    } else {
      HeadsAgree(a, b);
      HeadsAgree(b, a);
      assert a == [a[0]] + a[1..] && b == [b[0]] + b[1..];
      forall x
        ensures Has(a[1..], x) <==> Has(b[1..], x)
      {
        HasConcat([a[0]], a[1..], x);
        HasConcat([b[0]], b[1..], x);
        HasOne(a[0], x);
        TailAbove(a, x);
        TailAbove(b, x);
      }
      OrderedUnique(a[1..], b[1..]);
    }
  }

  lemma TailAbove(a: seq<Range>, x: int)
    requires Ordered(a) && a != []
    ensures Has(a[1..], x) ==> x > a[0].second
  {
    if j :| 0 <= j < |a[1..]| && a[1..][j].first <= x < a[1..][j].second {
      assert a[1..][j] == a[j + 1];
    }
  }

  lemma HeadsAgree(a: seq<Range>, b: seq<Range>)
    requires Ordered(a) && Ordered(b) && a != [] && b != [] && forall x :: Has(a, x) ==> Has(b, x)
    requires forall x :: Has(b, x) ==> Has(a, x)
    ensures b[0].first <= a[0].first && (a[0].first == b[0].first ==> a[0].second <= b[0].second)
  {
    assert Has(a, a[0].first);
    assert Has(b, a[0].first);
    HasBefore(b, a[0].first);
    if a[0].first == b[0].first && b[0].second < a[0].second {
      assert a[0].first <= b[0].second < a[0].second;
      assert Has(a, b[0].second);
      HasBefore(b, b[0].second);
    }
  }

  class Mask {
    var all: Range
    var ranges: seq<Range>

    ghost predicate Valid()
      reads this
    {
      all.first <= all.second < WORD && Ordered(ranges) && Within(ranges, all)
    }

    constructor (ground: Range)
      requires ground.first <= ground.second < WORD
      ensures Valid() && all == ground && ranges == []
    {
      all, ranges := ground, [];
    }

    /** `unionWith` adds exactly the range's elements. */
    method UnionWith(m: Range)
      requires Valid() && (m.first < m.second ==> all.first <= m.first && m.second <= all.second)
      modifies this`ranges
      ensures Valid()
      ensures forall x :: Has(ranges, x) <==> old(Has(ranges, x)) || m.first <= x < m.second
    {
      var i := m.first;
      while i < m.second
        invariant Valid() && m.first <= i
        invariant forall x :: Has(ranges, x) <==> old(Has(ranges, x)) || (m.first <= x < i && x < m.second)
        decreases m.second - i
      {
        i := Absorb(m, i);
      }
    }

    /** One round: the elements from i up to the new i are there, and nothing outside the range is added.
        An interval above i never starts at i, so the source's test for that is always false. */
    method Absorb(m: Range, i0: nat) returns (i: nat)
      requires Valid() && all.first <= i0 < m.second <= all.second
      modifies this`ranges
      ensures Valid() && i > i0
      ensures forall x :: Has(ranges, x) <==> old(Has(ranges, x)) || (i0 <= x < i && x < m.second)
    {
      hide Has; hide Replaced; hide UpperBound;
      i := i0;
      var after := UpperBound(ranges, i);
      if after < |ranges| {
        HasInterval(ranges, after);
      }
      if after > 0 {
        HasInterval(ranges, after - 1);
      }
      if after == 0 || ranges[after - 1].second < i {
        if after == |ranges| || ranges[after].first > m.second {
          // nothing borders on it
          Replace(after, after, Range(i, m.second));
          i := m.second;
        } else {
          // joins the interval above
          var end := ranges[after].second;
          Replace(after, after + 1, Range(i, end));
          i := end;
        }
      } else if ranges[after - 1].second == i {
        var first := ranges[after - 1].first;
        if after == |ranges| || ranges[after].first > m.second {
          // joins the interval below
          Replace(after - 1, after, Range(first, m.second));
          i := m.second;
        } else {
          // closes the gap between two
          var end := ranges[after].second;
          Replace(after - 1, after + 1, Range(first, end));
          i := end;
        }
      } else {
        i := ranges[after - 1].second;
      }
    }

    /** Replaces neighbouring intervals by one that covers them. */
    method Replace(lo: nat, hi: nat, r: Range)
      requires Valid() && lo <= hi <= |ranges|
      requires all.first <= r.first < r.second <= all.second
      requires lo > 0 ==> ranges[lo - 1].second < r.first
      requires hi < |ranges| ==> r.second < ranges[hi].first
      requires forall j :: lo <= j < hi ==> r.first <= ranges[j].first && ranges[j].second <= r.second
      modifies this`ranges
      ensures Valid() && ranges == old(Replaced(ranges, lo, hi, r))
      ensures forall x :: Has(ranges, x) <==> old(Has(ranges, x)) || r.first <= x < r.second
    {
      ReplacedOrdered(ranges, lo, hi, r, all);
      ReplacedAdds(ranges, lo, hi, r);
      ranges := ranges[..lo] + [r] + ranges[hi..];
    }

    method Contains(i: nat) returns (b: bool)
      requires Valid()
      ensures b == Has(ranges, i)
    {
      HasBefore(ranges, i);
      var k := UpperBound(ranges, i);
      b := k != 0 && ranges[k - 1].second > i;
    }

    /** `unionWith` of a mask: the union of both the elements and the ground ranges. */
    method UnionWithMask(m: Mask)
      requires Valid() && m.Valid()
      modifies this
      ensures Valid() && all == old(Hull(all, m.all))
      ensures forall x :: Has(ranges, x) <==> old(Has(ranges, x)) || old(Has(m.ranges, x))
    {
      hide Has; hide Ordered;
      var rs := m.ranges;
      all := Hull(all, m.all);
      HasNothing(rs[..0]);
      for k := 0 to |rs|
        invariant Valid() && all == old(Hull(all, m.all)) && Within(rs, all)
        invariant forall x :: Has(ranges, x) <==> old(Has(ranges, x)) || Has(rs[..k], x)
      {
        HasNext(rs, k, rs[..k], rs[..k + 1]);
        UnionWith(rs[k]);
      }
      assert rs[..|rs|] == rs;
    }

    /** `inverted`: the complement within the ground range. */
    method Inverted() returns (rs: seq<Range>)
      requires Valid()
      ensures Ordered(rs) && Within(rs, all) && Complement(ranges, rs, all)
    {
      hide Has;
      rs := [];
      var last := all.first;
      ghost var seen := ranges[..0];
      HasNothing(seen);
      HasNothing(rs);
      for k := 0 to |ranges|
        invariant all.first <= last && (k == 0 ==> last == all.first) && (k > 0 ==> last == ranges[k - 1].second)
        invariant Ordered(rs) && Within(rs, Range(all.first, last)) && (rs != [] ==> rs[|rs| - 1].second < last)
        invariant seen == ranges[..k] && forall x :: Has(rs, x) <==> all.first <= x < last && !Has(seen, x)
        invariant forall x :: Has(seen, x) ==> x < last
      {
        ghost var next := ranges[..k + 1];
        HasNext(ranges, k, seen, next);
        rs := Gap(rs, last, ranges[k].first);
        last := ranges[k].second;
        seen := next;
      }
      assert seen == ranges;
      assert forall x :: Has(rs, x) <==> all.first <= x < last && !Has(ranges, x);
      assert forall x :: Has(ranges, x) ==> x < last;
      var q := Gap(rs, last, all.second);
      assert last <= all.second;
      forall x
        ensures Has(q, x) <==> Inside(all, x) && !Has(ranges, x)
      {
        assert Has(q, x) <==> Has(rs, x) || last <= x < all.second;
        assert Has(rs, x) <==> all.first <= x < last && !Has(ranges, x);
        assert Has(ranges, x) ==> x < last;
      }
      rs := q;
    }

    method Invert()
      requires Valid()
      modifies this`ranges
      ensures Valid() && Complement(old(ranges), ranges, all)
    {
      ranges := Inverted();
    }

    /** `operator-=`: invert, unite, invert. Subtracting a mask from itself through one object undoes
        nothing, since the subtrahend is inverted along with it. */
    method Subtract(m: Mask)
      requires Valid() && m.Valid()
      modifies this
      ensures Valid() && all == old(Hull(all, m.all))
      ensures m == this ==> ranges == old(ranges)
      ensures m != this ==> forall x :: Has(ranges, x) <==>
                Inside(all, x) && !old(Has(m.ranges, x)) && (old(Has(ranges, x)) || !Inside(old(all), x))
    {
      hide Has; hide Ordered;
      Invert();
      ghost var inverted := ranges;
      UnionWithMask(m);
      Invert();
      if m == this {
        assert all == old(all);
        ComplementInverse(old(ranges), inverted, ranges, all);
      } else {
        InsideOnly(old(ranges), old(all));
      }
    }

    /** `size`: the number of elements. */
    method Size() returns (c: nat)
      requires Valid()
      ensures c == |Elements(ranges)|
    {
      c := 0;
      for k := 0 to |ranges|
        invariant c == Total(ranges[..k])
      {
        TotalNext(ranges, k);
        c := c + (ranges[k].second - ranges[k].first);
      }
      assert ranges[..|ranges|] == ranges;
      TotalIsCardinality(ranges);
    }

    /** `next`: the least element from t + 1 on, or the end of the ground range. The increment wraps. */
    method Next(t: nat) returns (r: nat)
      requires Valid() && t < WORD
      ensures Has(ranges, r) || r == all.second
      ensures Has(ranges, r) ==> r >= (t + 1) % WORD
      ensures forall x :: Has(ranges, x) && x >= (t + 1) % WORD ==> r <= x
    {
      var u := (t + 1) % WORD;
      var k := UpperBound(ranges, u);
      HasBefore(ranges, u);
      InsideOnly(ranges, all);
      if k != 0 && ranges[k - 1].first <= u && ranges[k - 1].second > u {
        return u;
      }
      forall x | Has(ranges, x) && x >= u
        ensures k < |ranges| && ranges[k].first <= x
      {
        HasBefore(ranges, x);
      }
      if k == |ranges| {
        r := all.second;
      } else {
        r := ranges[k].first;
        HasInterval(ranges, k);
      }
    }

    /** The least element above t, as documented, is what `next` returns unless t + 1 wraps around on a
        mask that is not empty. */
    method NextAbove(t: nat) returns (r: nat)
      requires Valid() && t < WORD
      ensures LeastAbove(ranges, all, t, r) <==> t + 1 < WORD || ranges == []
    {
      r := Next(t);
      InsideOnly(ranges, all);
      if ranges != [] {
        HasInterval(ranges, 0);
        assert Has(ranges, ranges[0].first);
      }
    }

    /** `lowest`: the intervals holding the n smallest elements. The sum of an interval's start and the count
        still wanted wraps; it does so exactly when the count is too far above the size. */
    method Lowest(items: nat) returns (rs: seq<Range>)
      requires Valid() && items < WORD
      ensures IsLowest(rs, ranges, items) <==> NoWrap(ranges, items)
    {
      hide Has; hide Ordered; hide IsLowest;
      rs := [];
      var left := items;
      ghost var cut := false;
      var k := 0;
      while k < |ranges| && left != 0
        invariant 0 <= k <= |ranges|
        invariant cut ==> left == 0 && (IsLowest(rs, ranges, items) <==> NoWrap(ranges, items))
        invariant !cut ==> rs == ranges[..k] && left == items - Total(ranges[..k]) && 0 <= left < WORD
        invariant !cut && k > 0 ==> ranges[k - 1].second + left < WORD
        decreases |ranges| - k
      {
        TotalNext(ranges, k);
        OrderedAt(ranges, k);
        var r := ranges[k];
        var end := Min((r.first + left) % WORD, r.second);
        ghost var before := left;
        rs := rs + [Range(r.first, end)];
        left := (left - (end - r.first)) % WORD;
        Wrapped(r.first, before, r.second);
        if end != r.second {
          cut := true;
          LowestCut(ranges, items, k, before, end);
        } else {
          assert rs == ranges[..k + 1];
        }
        k := k + 1;
      }
      if !cut {
        LowestWhole(ranges, items, k);
      }
    }

    /** Iteration from `begin()` enumerates the elements in order. */
    method Enumerate() returns (es: seq<nat>)
      requires Valid()
      ensures forall i, j :: 0 <= i < j < |es| ==> es[i] < es[j]
      ensures forall x: nat :: x in es <==> Has(ranges, x)
    {
      hide Ordered;
      InsideOnly(ranges, all);
      es := [];
      var v := First();
      while v != all.second
        invariant Has(ranges, v) || v == all.second
        invariant forall i, j :: 0 <= i < j < |es| ==> es[i] < es[j]
        invariant forall i :: 0 <= i < |es| ==> es[i] < v
        invariant forall x: nat :: x in es <==> Has(ranges, x) && x < v
        decreases all.second - v
      {
        es := es + [v];
        var w := Next(v);
        v := w;
      }
    }

    /** Where `begin()` stands: the least element, or the end of the ground range. */
    method First() returns (v: nat)
      requires Valid()
      ensures Has(ranges, v) || v == all.second
      ensures forall x :: Has(ranges, x) ==> v <= x
    {
      if ranges == [] {
        v := all.second;
      } else {
        v := ranges[0].first;
        HasInterval(ranges, 0);
        forall x | Has(ranges, x)
          ensures v <= x
        {
          HasBefore(ranges, x);
        }
      }
    }

    /** `firstOut`: the least number from the start of the ground range that is not an element. */
    method FirstOut() returns (r: nat)
      requires Valid()
      ensures all.first <= r <= all.second && !Has(ranges, r)
      ensures forall x :: all.first <= x < r ==> Has(ranges, x)
    {
      HasBefore(ranges, all.first);
      if ranges == [] || ranges[0].first != all.first {
        r := all.first;
      } else {
        r := ranges[0].second;
        HasInterval(ranges, 0);
        HasBefore(ranges, r);
      }
    }

    method Full() returns (b: bool)
      requires Valid()
      ensures b <==> forall x :: Inside(all, x) ==> Has(ranges, x)
    {
      b := all.first == all.second || (|ranges| == 1 && ranges[0] == all);
      if b {
        if all.first != all.second {
          HasInterval(ranges, 0);
        }
      } else if forall x :: Inside(all, x) ==> Has(ranges, x) {
        forall x
          ensures Has(ranges, x) <==> Has([all], x)
        {
          HasOne(all, x);
          InsideOnly(ranges, all);
        }
        OrderedUnique(ranges, [all]);
      }
    }
  }

  function Hull(a: Range, b: Range): Range {
    Range(if a.first < b.first then a.first else b.first, if a.second > b.second then a.second else b.second)
  }

  predicate Inside(all: Range, x: int) {
    all.first <= x < all.second
  }

  ghost predicate Complement(a: seq<Range>, b: seq<Range>, all: Range) {
    forall x :: Has(b, x) <==> Inside(all, x) && !Has(a, x)
  }

  lemma InsideOnly(rs: seq<Range>, all: Range)
    requires Within(rs, all)
    ensures forall x :: Has(rs, x) ==> Inside(all, x)
  {
  }

  /** Inverting twice restores the very same intervals. */
  lemma ComplementInverse(a: seq<Range>, b: seq<Range>, c: seq<Range>, all: Range)
    requires Ordered(a) && Ordered(c) && Within(a, all) && Complement(a, b, all) && Complement(b, c, all)
    ensures a == c
  {
    InsideOnly(a, all);
    forall x
      ensures Has(a, x) <==> Has(c, x)
    {
      assert Has(c, x) <==> Inside(all, x) && !Has(b, x);
    }
    OrderedUnique(a, c);
  }

  lemma HasNothing(rs: seq<Range>)
    requires rs == []
    ensures forall x :: !Has(rs, x)
  {
  }

  lemma HasNext(rs: seq<Range>, k: nat, before: seq<Range>, upTo: seq<Range>)
    requires k < |rs| && before == rs[..k] && upTo == rs[..k + 1]
    ensures forall x :: Has(upTo, x) <==> Has(before, x) || rs[k].first <= x < rs[k].second
  {
    assert upTo == before + [rs[k]];
    forall x
      ensures Has(upTo, x) <==> Has(before, x) || rs[k].first <= x < rs[k].second
    {
      HasConcat(before, [rs[k]], x);
      HasOne(rs[k], x);
    }
  }

  /** Adds the interval between two others, if there is one. */
  method Gap(rs: seq<Range>, from: nat, to: nat) returns (r: seq<Range>)
    requires Ordered(rs) && from <= to && (rs != [] ==> rs[|rs| - 1].second < from)
    ensures Ordered(r) && (r != [] ==> r[|r| - 1].second <= to)
    ensures forall j :: 0 <= j < |r| ==> r[j] == Range(from, to) || (j < |rs| && r[j] == rs[j])
    ensures forall x :: Has(r, x) <==> Has(rs, x) || from <= x < to
  {
    r := rs;
    if to != from {
      OrderedConcat(rs, [Range(from, to)]);
      r := rs + [Range(from, to)];
      forall x
        ensures Has(r, x) <==> Has(rs, x) || from <= x < to
      {
        HasConcat(rs, [Range(from, to)], x);
        HasOne(Range(from, to), x);
      }
    }
  }

  // Counting

  ghost function Interval(r: Range): set<int> {
    set x: int | r.first <= x < r.second && Inside(r, x)
  }

  ghost function Elements(rs: seq<Range>): set<int> {
    if rs == [] then {} else Interval(rs[0]) + Elements(rs[1..])
  }

  ghost function Total(rs: seq<Range>): int {
    if rs == [] then 0 else rs[0].second - rs[0].first + Total(rs[1..])
  }

  lemma {:induction false} ElementsHas(rs: seq<Range>, x: int)
    ensures x in Elements(rs) <==> Has(rs, x)
  {
    if rs != [] {
      ElementsHas(rs[1..], x);
      assert rs == [rs[0]] + rs[1..];
      HasConcat([rs[0]], rs[1..], x);
      HasOne(rs[0], x);
    }
  }

  lemma {:induction false} IntervalSize(r: Range)
    requires r.first <= r.second
    ensures |Interval(r)| == r.second - r.first
    decreases r.second
  {
    if r.first < r.second {
      var s := Range(r.first, r.second - 1);
      IntervalSize(s);
      assert Interval(r) == Interval(s) + {r.second - 1};
    } else {
      assert Interval(r) == {};
    }
  }

  lemma {:induction false} TotalIsCardinality(rs: seq<Range>)
    requires Ordered(rs)
    ensures |Elements(rs)| == Total(rs)
  {
    if rs != [] {
      TotalIsCardinality(rs[1..]);
      IntervalSize(rs[0]);
      forall x | x in Interval(rs[0]) && x in Elements(rs[1..])
        ensures false
      {
        ElementsHas(rs[1..], x);
        TailAbove(rs, x);
      }
      assert Interval(rs[0]) !! Elements(rs[1..]);
    }
  }

  lemma {:induction false} TotalNext(rs: seq<Range>, k: nat)
    requires k < |rs|
    ensures Total(rs[..k + 1]) == Total(rs[..k]) + rs[k].second - rs[k].first
  {
    if k == 0 {
      assert rs[..1] == [rs[0]] && rs[..1][1..] == [];
    } else {
      TotalNext(rs[1..], k - 1);
      assert rs[..k + 1][1..] == rs[1..][..k] && rs[..k][1..] == rs[1..][..k - 1];
    }
  }

  function Min(a: nat, b: nat): nat {
    if a < b then a else b
  }

  ghost predicate LeastAbove(rs: seq<Range>, all: Range, t: nat, r: nat) {
    && (Has(rs, r) || r == all.second)
    && (Has(rs, r) ==> r > t)
    && (forall x :: Has(rs, x) && x > t ==> r <= x)
  }

  /** low holds the n smallest elements of rs, or all of them. */
  ghost predicate IsLowest(low: seq<Range>, rs: seq<Range>, n: nat) {
    DownClosed(low, rs) && |Elements(low)| == Min(n, |Elements(rs)|)
  }

  /** low is part of rs, and with an element has all the smaller ones. */
  ghost predicate DownClosed(low: seq<Range>, rs: seq<Range>) {
    && (forall x :: Has(low, x) ==> Has(rs, x))
    && (forall x, y :: Has(low, x) && Has(rs, y) && y < x ==> Has(low, y))
  }

  ghost predicate NoWrap(rs: seq<Range>, n: nat) {
    rs == [] || n - Total(rs) + rs[|rs| - 1].second < WORD
  }

  lemma OrderedAt(rs: seq<Range>, k: nat)
    requires Ordered(rs) && k < |rs|
    ensures rs[k].first < rs[k].second
  {
  }

  /** How the wrapping arithmetic of one round comes out. */
  lemma Wrapped(first: nat, left: nat, second: nat)
    requires first < second < WORD && 0 < left < WORD
    ensures var end := Min((first + left) % WORD, second);
            && (first + left < WORD && first + left < second ==> end == first + left)
            && (first + left < WORD && first + left >= second ==> end == second)
            && (first + left >= WORD ==> end == first + left - WORD < first)
            && (end != second ==> (left - (end - first)) % WORD == 0)
  {
    if first + left >= WORD {
      assert (first + left) % WORD == first + left - WORD;
    }
  }

  lemma {:induction false} TotalConcat(a: seq<Range>, b: seq<Range>)
    ensures Total(a + b) == Total(a) + Total(b)
  {
    if a == [] {
      assert a + b == b;
    } else {
      assert (a + b)[1..] == a[1..] + b;
      TotalConcat(a[1..], b);
    }
  }

  lemma {:induction false} TotalAtLeast(rs: seq<Range>)
    requires Ordered(rs)
    ensures Total(rs) >= |rs| && (rs != [] ==> rs[0].first + Total(rs) <= rs[|rs| - 1].second)
  {
    if rs != [] {
      TotalAtLeast(rs[1..]);
    }
  }

  /** The sizes of a list cut at k. */
  lemma Counts(rs: seq<Range>, k: nat, a: seq<Range>, b: seq<Range>)
    requires Ordered(rs) && k <= |rs| && a == rs[..k] && b == rs[k..]
    ensures |Elements(a)| == Total(a) && |Elements(rs)| == Total(rs) == Total(a) + Total(b) && Total(b) >= |b|
    ensures k < |rs| ==> rs[k].first + Total(b) <= rs[|rs| - 1].second
    ensures k < |rs| ==> Total(b) >= rs[k].second - rs[k].first
  {
    hide Has; hide Elements; hide Total;
    assert rs == a + b;
    CutOrdered(rs, k, a, b);
    hide Ordered;
    TotalConcat(a, b);
    TotalAtLeast(b);
    if k < |rs| {
      FirstPart(b);
    }
    TotalIsCardinality(a);
    TotalIsCardinality(rs);
  }

  lemma CutOrdered(rs: seq<Range>, k: nat, a: seq<Range>, b: seq<Range>)
    requires Ordered(rs) && k <= |rs| && a == rs[..k] && b == rs[k..]
    ensures Ordered(a) && Ordered(b)
  {
  }

  lemma FirstPart(b: seq<Range>)
    requires Ordered(b) && b != []
    ensures Total(b) >= b[0].second - b[0].first
  {
    CutOrdered(b, 1, b[..1], b[1..]);
    hide Ordered;
    TotalAtLeast(b[1..]);
  }

  /** A prefix and the start of the next interval are closed downwards. */
  lemma LowClosed(rs: seq<Range>, k: nat, low: seq<Range>)
    requires Ordered(rs) && k < |rs| && |low| == k + 1
    requires forall j :: 0 <= j < k ==> low[j] == rs[j]
    requires low[k].first == rs[k].first && low[k].second <= rs[k].second
    ensures DownClosed(low, rs)
  {
    forall x | Has(low, x)
      ensures Has(rs, x)
    {
      var i :| 0 <= i < |low| && low[i].first <= x < low[i].second;
      assert rs[i].first <= x < rs[i].second;
    }
    forall x, y | Has(low, x) && Has(rs, y) && y < x
      ensures Has(low, y)
    {
      var i :| 0 <= i < |low| && low[i].first <= x < low[i].second;
      var j :| 0 <= j < |rs| && rs[j].first <= y < rs[j].second;
      assert j <= i;
      assert low[j].first <= y < low[j].second;
    }
  }

  lemma LowCount(rs: seq<Range>, k: nat, e: nat, a: seq<Range>, low: seq<Range>)
    requires Ordered(rs) && k < |rs| && rs[k].first < e <= rs[k].second && a == rs[..k] && low == a + [Range(rs[k].first, e)]
    ensures |Elements(low)| == Total(a) + e - rs[k].first
  {
    var r := Range(rs[k].first, e);
    assert Ordered(a) && Ordered([r]);
    OrderedConcat(a, [r]);
    TotalConcat(a, [r]);
    assert [r][1..] == [];
    assert Total([r]) == r.second - r.first + Total([]);
    TotalIsCardinality(low);
  }

  lemma LowestCut(rs: seq<Range>, items: nat, k: nat, left: nat, end: nat)
    requires Ordered(rs) && k < |rs| && rs[|rs| - 1].second < WORD && rs[k].second < WORD
    requires left == items - Total(rs[..k]) && 0 < left < WORD
    requires end == Min((rs[k].first + left) % WORD, rs[k].second) && end != rs[k].second
    ensures IsLowest(rs[..k] + [Range(rs[k].first, end)], rs, items) <==> NoWrap(rs, items)
  {
    hide Has; hide Total; hide Elements; hide DownClosed;
    OrderedAt(rs, k);
    Wrapped(rs[k].first, left, rs[k].second);
    var a, low := rs[..k], rs[..k] + [Range(rs[k].first, end)];
    Counts(rs, k, a, rs[k..]);
    if rs[k].first + left < WORD {
      LowClosed(rs, k, low);
      LowCount(rs, k, end, a, low);
    } else {
      NothingAdded(rs, k, end, a, low);
    }
  }

  /** An interval that ends before it starts adds nothing. */
  lemma NothingAdded(rs: seq<Range>, k: nat, end: nat, a: seq<Range>, low: seq<Range>)
    requires k < |rs| && end < rs[k].first && a == rs[..k] && low == a + [Range(rs[k].first, end)]
    ensures Elements(low) == Elements(a)
  {
    hide Has; hide Elements;
    forall x
      ensures x in Elements(low) <==> x in Elements(a)
    {
      ElementsHas(low, x);
      ElementsHas(a, x);
      HasConcat(a, [Range(rs[k].first, end)], x);
      HasOne(Range(rs[k].first, end), x);
    }
  }

  lemma LowestWhole(rs: seq<Range>, items: nat, k: nat)
    requires Ordered(rs) && k <= |rs| && items >= Total(rs[..k]) && (k < |rs| ==> items == Total(rs[..k]))
    requires rs != [] ==> rs[|rs| - 1].second < WORD
    requires k > 0 ==> rs[k - 1].second + items - Total(rs[..k]) < WORD
    ensures IsLowest(rs[..k], rs, items) && NoWrap(rs, items)
  {
    hide Has; hide Total; hide Elements; hide DownClosed;
    Counts(rs, k, rs[..k], rs[k..]);
    PrefixClosed(rs, k, rs[..k]);
    if k == |rs| {
      assert rs[..k] == rs;
    }
  }

  lemma PrefixClosed(rs: seq<Range>, k: nat, a: seq<Range>)
    requires Ordered(rs) && k <= |rs| && a == rs[..k]
    ensures DownClosed(a, rs)
  {
    if k > 0 {
      LowClosed(rs, k - 1, a);
    }
  }

  /** `operator-=` is set difference exactly when the subtrahend covers whatever ground it adds. */
  lemma DifferenceIff(a: seq<Range>, ground: Range, b: seq<Range>, hull: Range, c: seq<Range>)
    requires Within(a, ground) && ground.first >= hull.first && ground.second <= hull.second
    requires forall x :: Has(c, x) <==> Inside(hull, x) && !Has(b, x) && (Has(a, x) || !Inside(ground, x))
    ensures (forall x :: Has(c, x) <==> Has(a, x) && !Has(b, x)) <==>
            (forall x :: Inside(hull, x) && !Inside(ground, x) ==> Has(b, x))
  {
    InsideOnly(a, ground);
    if forall x :: Has(c, x) <==> Has(a, x) && !Has(b, x) {
      forall x | Inside(hull, x) && !Inside(ground, x)
        ensures Has(b, x)
      {
        assert Has(c, x) <==> Has(a, x) && !Has(b, x);
      }
    }
  }

  // Where the documented behaviour fails

  method Single(ground: Range, r: Range) returns (m: Mask)
    requires ground.first <= r.first < r.second <= ground.second < WORD
    ensures fresh(m) && m.Valid() && m.all == ground && m.ranges == [r]
  {
    m := new Mask(ground);
    m.UnionWith(r);
    forall x
      ensures Has(m.ranges, x) <==> Has([r], x)
    {
      HasOne(r, x);
    }
    OrderedUnique(m.ranges, [r]);
  }

  /** The successor of the largest number wraps: `next` goes back to the start. */
  method NextWraps() returns (r: nat)
    ensures r == 0 && !LeastAbove([Range(0, 1)], Range(0, 1), WORD - 1, r)
  {
    var m := Single(Range(0, 1), Range(0, 1));
    HasOne(Range(0, 1), 0);
    r := m.Next(WORD - 1);
  }

  /** Asked for more than there are, `lowest` can miss some: 5 + (2^32 - 1) wraps. */
  method LowestWraps() returns (rs: seq<Range>)
    ensures !IsLowest(rs, [Range(5, 8)], WORD - 1)
  {
    var m := Single(Range(0, 10), Range(5, 8));
    assert [Range(5, 8)][1..] == [];
    rs := m.Lowest(WORD - 1);
  }

  /** Ground that only the subtrahend has appears in the difference. */
  method DifferenceGrows() returns (rs: seq<Range>)
    ensures Has(rs, 3) && !Has([Range(0, 1)], 3)
  {
    var a := Single(Range(0, 2), Range(0, 1));
    var b := Single(Range(0, 4), Range(0, 1));
    HasOne(Range(0, 1), 3);
    a.Subtract(b);
    rs := a.ranges;
  }

  /** A mask subtracted from itself keeps its elements. */
  method DifferenceWithItself() returns (rs: seq<Range>)
    ensures rs == [Range(0, 1)]
  {
    var a := Single(Range(0, 2), Range(0, 1));
    a.Subtract(a);
    rs := a.ranges;
  }
}
