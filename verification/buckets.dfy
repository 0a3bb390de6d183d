/**
  The histogram buckets around a scrape timeout.  Seconds are reals; slices are
  arrays with spare capacity, so that an append may or may not overwrite in place.
 */
module Buckets {
  import opened Wrappers

  ghost predicate StrictlyIncreasing(s: seq<real>) {
    forall i, j :: 0 <= i < j < |s| ==> s[i] < s[j]
  }

  /** The default buckets: not empty, positive, strictly increasing. */
  ghost predicate Sane(base: seq<real>) {
    |base| > 0 && base[0] > 0.0 && StrictlyIncreasing(base)
  }

  /** The position of the first bucket above `t`, or the last position when there is none. */
  function FirstAbove(base: seq<real>, t: real): (i: nat)
    requires |base| > 0
    ensures i < |base|
    ensures forall j :: 0 <= j < i ==> base[j] <= t
    ensures base[i] > t || i == |base| - 1
  {
    if |base| == 1 || base[0] > t then 0 else 1 + FirstAbove(base[1..], t)
  }

  /** Whether the first bucket above `t` or the last one not above it is closer than the smallest bucket. */
  predicate Crowded(base: seq<real>, t: real)
    requires |base| > 0
  {
    var i := FirstAbove(base, t);
    base[i] - t < base[0] || (i > 0 && t - base[i - 1] < base[0])
  }

  function Insert(base: seq<real>, i: nat, t: real): seq<real>
    requires i <= |base|
  {
    base[..i] + [t] + base[i..]
  }

  function BucketsFor(base: seq<real>, t: real): seq<real>
    requires |base| > 0
  {
    var max := base[|base| - 1];
    if t > max then base + [max + (t - max) / 2.0, t, t * 1.5, t * 2.0]
    else if t == max || Crowded(base, t) then base
    else Insert(base, FirstAbove(base, t), t)
  }

  // ----- Slices -----

  /** The first `len` elements of an array; the rest is capacity. */
  datatype Slice = Slice(data: array<real>, len: nat) {
    ghost predicate Valid() {
      len <= data.Length
    }

    ghost function View(): seq<real>
      requires Valid()
      reads data
    {
      data[..len]
    }
  }

  /** Appends in place when the values fit, overwriting what lies behind; otherwise moves to a larger array. */
  method Append(s: Slice, values: seq<real>, spare: nat) returns (r: Slice)
    requires s.Valid()
    modifies s.data
    ensures r.Valid() && r.View() == old(s.View()) + values
    ensures s.len + |values| <= s.data.Length ==>
              r == Slice(s.data, s.len + |values|) && s.data[r.len..] == old(s.data[s.len + |values|..])
    ensures s.len + |values| > s.data.Length ==> fresh(r.data) && unchanged(s.data)
  {
    var n := s.len + |values|;
    if n <= s.data.Length {
      forall k | s.len <= k < n {
        s.data[k] := values[k - s.len];
      }
      r := Slice(s.data, n);
      assert s.data[s.len..n] == values;
      assert s.data[..n] == s.data[..s.len] + s.data[s.len..n];
    } else {
      var all := s.data[..s.len] + values;
      var data := new real[n + spare](i => if 0 <= i < |all| then all[i] else 0.0);
      r := Slice(data, n);
      assert data[..n] == all;
    }
  }

  const SECOND := 1_000_000_000.0

  /** `t` seconds are that many nanoseconds. */
  ghost predicate Seconds(t: real, nanoseconds: int) {
    t * 1_000_000_000.0 == nanoseconds as real
  }

  /** The search loop: it stops at the first bucket above `t`, or runs off with the last one. */
  method Search(buckets: Slice, t: real) returns (i: nat, bucket: real)
    requires buckets.Valid() && buckets.len > 0
    ensures i == FirstAbove(buckets.View(), t) && bucket == buckets.View()[i]
  {
    ghost var all := buckets.View();
    i, bucket := 0, buckets.data[0];
    while bucket <= t && i < buckets.len - 1
      invariant 0 <= i < |all| && bucket == all[i]
      invariant FirstAbove(all, t) == i + FirstAbove(all[i..], t)
      decreases buckets.len - i
    {
      i := i + 1;
      bucket := buckets.data[i];
      assert all[i - 1..][1..] == all[i..];
    }
  }

  /**
    Inserts by two appends.  The first overwrites the bucket at `i` in place, so
    the rest is copied away before and appended again after.
   */
  method InsertAt(buckets: Slice, i: nat, t: real, spare: nat) returns (r: Slice)
    requires buckets.Valid() && i < buckets.len
    modifies buckets.data
    ensures r.Valid() && r.View() == Insert(old(buckets.View()), i, t)
    ensures r.data == buckets.data || fresh(r.data)
  {
    ghost var all := buckets.View();
    var oldRest := buckets.data[i..buckets.len];
    assert oldRest == all[i..];
    var head := Slice(buckets.data, i);
    assert head.View() == all[..i];
    r := Append(head, [t], spare);
    r := Append(r, oldRest, spare);
  }

  lemma BucketCases(base: seq<real>, t: real)
    requires |base| > 0
    ensures var max, r := base[|base| - 1], BucketsFor(base, t);
            && (t > max ==> r == base + [max + (t - max) / 2.0, t, t * 1.5, t * 2.0])
            && (t == max || (t < max && Crowded(base, t)) ==> r == base)
            && (t < max && !Crowded(base, t) ==> r == Insert(base, FirstAbove(base, t), t))
    ensures var i := FirstAbove(base, t);
            Crowded(base, t) <==> base[i] - t < base[0] || (i > 0 && t - base[i - 1] < base[0])
  {
  }

  /** Below the largest bucket: inserts `t` unless a bucket is close. */
  method AddBelow(copy: Slice, t: real, spare: nat) returns (buckets: Slice)
    requires copy.Valid() && copy.len > 0 && t < copy.data[copy.len - 1]
    modifies copy.data
    ensures buckets.Valid() && buckets.View() == BucketsFor(old(copy.View()), t)
    ensures buckets.data == copy.data || fresh(buckets.data)
  {
    buckets := copy;
    ghost var all := copy.View();
    BucketCases(all, t);
    var i, bucket := Search(buckets, t);
    assert i > 0 ==> buckets.data[i - 1] == all[i - 1];
    if bucket - t < buckets.data[0] || (i > 0 && t - buckets.data[i - 1] < buckets.data[0]) {
      return;
    }
    buckets := InsertAt(buckets, i, t, spare);
  }

  /** Adds the buckets around `t` to a copy of the defaults. */
  method AddAround(copy: Slice, t: real, spare: nat) returns (buckets: Slice)
    requires copy.Valid() && copy.len > 0
    modifies copy.data
    ensures buckets.Valid() && buckets.View() == BucketsFor(old(copy.View()), t)
    ensures buckets.data == copy.data || fresh(buckets.data)
  {
    buckets := copy;
    BucketCases(copy.View(), t);
    var maxBucket := buckets.data[buckets.len - 1];
    if t > maxBucket {
      var halfway := maxBucket + (t - maxBucket) / 2.0;
      buckets := Append(buckets, [halfway, t, t * 1.5, t * 2.0], spare);
    } else if t < maxBucket {
      buckets := AddBelow(buckets, t, spare);
    }
  }

  // ----- What the buckets are good for -----

  lemma AboveIsExact(base: seq<real>, t: real)
    requires |base| > 0 && t < base[|base| - 1]
    ensures base[FirstAbove(base, t)] > t
  {
  }

  lemma InsertIncreasing(base: seq<real>, i: nat, t: real)
    requires StrictlyIncreasing(base) && i <= |base|
    requires i > 0 ==> base[i - 1] < t
    requires i < |base| ==> t < base[i]
    ensures StrictlyIncreasing(Insert(base, i, t))
  {
    var r := Insert(base, i, t);
    forall j, k | 0 <= j < k < |r|
      ensures r[j] < r[k]
    {
      if k == i && j < i - 1 {
        assert base[j] < base[i - 1];
      } else if j == i && k > i + 1 {
        assert base[i] < base[k - 1];
      }
    }
  }

  lemma ExtendIncreasing(base: seq<real>, t: real)
    requires StrictlyIncreasing(base) && (|base| > 0 ==> base[|base| - 1] < t)
    ensures StrictlyIncreasing(base + [t])
  {
    assert Insert(base, |base|, t) == base + [t];
    InsertIncreasing(base, |base|, t);
  }

  lemma BeyondIncreasing(base: seq<real>, max: real, t: real)
    requires StrictlyIncreasing(base) && |base| > 0 && max == base[|base| - 1] && 0.0 < max < t
    ensures StrictlyIncreasing(base + [max + (t - max) / 2.0, t, t * 1.5, t * 2.0])
  {
    var half, more, most := max + (t - max) / 2.0, t * 1.5, t * 2.0;
    ExtendIncreasing(base, half);
    ExtendIncreasing(base + [half], t);
    ExtendIncreasing(base + [half] + [t], more);
    ExtendIncreasing(base + [half] + [t] + [more], most);
    assert base + [half, t, more, most] == base + [half] + [t] + [more] + [most];
  }

  /** The buckets are strictly increasing, whatever the timeout. */
  lemma StaysIncreasing(base: seq<real>, t: real)
    requires Sane(base)
    ensures StrictlyIncreasing(BucketsFor(base, t))
  {
    var max := base[|base| - 1];
    if t > max {
      assert max >= base[0];
      BeyondIncreasing(base, max, t);
    } else if t < max && !Crowded(base, t) {
      AboveIsExact(base, t);
      InsertIncreasing(base, FirstAbove(base, t), t);
    }
  }

  /** They start above zero, as the histogram needs, exactly when the timeout is positive. */
  lemma StartsAboveZero(base: seq<real>, t: real)
    requires Sane(base)
    ensures BucketsFor(base, t)[0] > 0.0 <==> t > 0.0
  {
    var max := base[|base| - 1];
    if t < max {
      AboveIsExact(base, t);
    }
  }

  lemma InsertContent(base: seq<real>, i: nat, t: real)
    requires i <= |base|
    ensures multiset(Insert(base, i, t)) == multiset(base) + multiset{t}
  {
    assert base == base[..i] + base[i..];
  }

  lemma FourContent(base: seq<real>, a: real, b: real, c: real, d: real)
    ensures multiset(base + [a, b, c, d]) == multiset(base) + multiset{a, b, c, d}
  {
  }

  /** The buckets are the default ones and nothing, the timeout, or four values around it. */
  lemma ContentIsExact(base: seq<real>, t: real)
    requires Sane(base)
    ensures var max := base[|base| - 1];
            multiset(BucketsFor(base, t)) ==
            multiset(base) + if t > max then multiset{max + (t - max) / 2.0, t, t * 1.5, t * 2.0}
                             else if t == max || Crowded(base, t) then multiset{}
                             else multiset{t}
  {
    var max := base[|base| - 1];
    FourContent(base, max + (t - max) / 2.0, t, t * 1.5, t * 2.0);
    InsertContent(base, FirstAbove(base, t), t);
  }

  /** A timeout in the crowd of the defaults: some default bucket is closer to it than the smallest one. */
  ghost predicate CloseTo(t: real, bucket: real, width: real) {
    -width < bucket - t < width
  }

  /** Crowded is what it says: it holds exactly when some default bucket is that close. */
  lemma CrowdedMeansClose(base: seq<real>, t: real)
    requires Sane(base) && t < base[|base| - 1]
    ensures Crowded(base, t) <==> exists j :: 0 <= j < |base| && CloseTo(t, base[j], base[0])
  {
    AboveIsExact(base, t);
    var i := FirstAbove(base, t);
    if base[i] - t < base[0] {
      assert CloseTo(t, base[i], base[0]);
    } else if i > 0 && t - base[i - 1] < base[0] {
      assert CloseTo(t, base[i - 1], base[0]);
    } else if j :| 0 <= j < |base| && CloseTo(t, base[j], base[0]) {
      assert j >= i ==> base[j] >= base[i];
      assert j < i ==> base[j] <= base[i - 1];
    }
  }

  /** Some bucket is the timeout, or closer to it than the smallest default; from the largest default on it is one. */
  lemma TimeoutIsCovered(base: seq<real>, t: real)
    requires Sane(base)
    ensures t in BucketsFor(base, t) || exists j :: 0 <= j < |base| && CloseTo(t, base[j], base[0])
    ensures t >= base[|base| - 1] ==> t in BucketsFor(base, t)
    ensures t > base[|base| - 1] ==> t * 2.0 in BucketsFor(base, t)
  {
    var max := base[|base| - 1];
    var r := BucketsFor(base, t);
    if t > max {
      assert r[|base| + 1] == t && r[|base| + 3] == t * 2.0;
    } else if t == max {
      assert r[|base| - 1] == t;
    } else {
      CrowdedMeansClose(base, t);
      if !Crowded(base, t) {
        assert r[FirstAbove(base, t)] == t;
      }
    }
  }

  /** A timeout that is inserted alone keeps its distance from both neighbours. */
  lemma InsertedKeepsDistance(base: seq<real>, t: real, k: nat)
    requires Sane(base) && t < base[|base| - 1] && !Crowded(base, t)
    requires k < |BucketsFor(base, t)| && BucketsFor(base, t)[k] == t
    ensures t !in base
    ensures k + 1 < |BucketsFor(base, t)| && BucketsFor(base, t)[k + 1] - t >= base[0]
    ensures k > 0 ==> t - BucketsFor(base, t)[k - 1] >= base[0]
  {
    AboveIsExact(base, t);
    StaysIncreasing(base, t);
    CrowdedMeansClose(base, t);
    var i, r := FirstAbove(base, t), BucketsFor(base, t);
    assert r[i] == t;
    assert k == i;
    assert forall j :: 0 <= j < |base| && base[j] == t ==> CloseTo(t, base[j], base[0]);
  }

  lemma SecondsAreExact(t: real, nanoseconds: int)
    requires Seconds(t, nanoseconds)
    ensures nanoseconds as real / SECOND == t
  {
  }

  /**
    Buckets around a timeout of `t` seconds: in order, with the timeout among them
    or a default one close to it, and with the timeout and its double when it is
    above all defaults; and all defaults are kept.
   */
  ghost predicate Surrounds(buckets: seq<real>, base: seq<real>, t: real)
    requires |base| > 0
  {
    && StrictlyIncreasing(buckets)
    && multiset(base) <= multiset(buckets)
    && (t in buckets || exists j :: 0 <= j < |base| && CloseTo(t, base[j], base[0]))
    && (t > base[|base| - 1] ==>
          t in buckets && t * 2.0 in buckets && t * 1.5 in buckets && (base[|base| - 1] + t) / 2.0 in buckets)
    && (t == base[|base| - 1] ==> buckets == base)
  }

  lemma BucketsSurround(base: seq<real>, t: real)
    requires Sane(base)
    ensures Surrounds(BucketsFor(base, t), base, t)
  {
    StaysIncreasing(base, t);
    TimeoutIsCovered(base, t);
    ContentIsExact(base, t);
    var max, r := base[|base| - 1], BucketsFor(base, t);
    if t > max {
      assert r[|base|] == (max + t) / 2.0 && r[|base| + 2] == t * 1.5;
    }
  }

  lemma SecondsSurround(base: seq<real>, timeout: int)
    requires Sane(base)
    ensures forall t :: Seconds(t, timeout) ==> Surrounds(BucketsFor(base, timeout as real / SECOND), base, t)
  {
    forall t | Seconds(t, timeout)
      ensures Surrounds(BucketsFor(base, timeout as real / SECOND), base, t)
    {
      SecondsAreExact(t, timeout);
      BucketsSurround(base, t);
    }
  }

  /**
    `base` is the default bucket array and `timeout` a duration in nanoseconds;
    `spare` is the capacity that growing a slice leaves unused, which the language
    does not fix.
   */
  method BucketsForScrapeDuration(base: array<real>, timeout: int, spare: nat) returns (buckets: Slice)
    requires base.Length > 0
    ensures base[..] == old(base[..])
    ensures fresh(buckets.data) && buckets.Valid()
    ensures buckets.View() == BucketsFor(base[..], timeout as real / SECOND)
    ensures Sane(base[..]) ==> forall t :: Seconds(t, timeout) ==> Surrounds(buckets.View(), base[..], t)
  {
    var empty := new real[0];
    buckets := Append(Slice(empty, 0), base[..], spare);
    assert buckets.View() == base[..];
    buckets := AddAround(buckets, timeout as real / SECOND, spare);
    if Sane(base[..]) {
      SecondsSurround(base[..], timeout);
    }
  }
}
