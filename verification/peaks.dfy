/**
 * Peak lists and the two algorithms `Scan` runs on them: the ion test of
 * `has_ion` and the abundance pruning of `filter_by_abundance`.
 */
module Peaks {
  import opened Base

  /**
   * One peak row as `addPeak` stores it: field 0 is the m/z, field 1 the
   * intensity, further fields (a charge, say) are carried along.
   */
  type Peak = seq<real>

  /** `xyarr.inject([]) {|arr, v| arr << v.to_f }`, with `to_f` given as `toF`. */
  function ToPeak(tokens: seq<string>, toF: string -> real): (p: Peak)
    ensures |p| == |tokens| && forall k | 0 <= k < |tokens| :: p[k] == toF(tokens[k])
  {
    seq(|tokens|, k requires 0 <= k < |tokens| => toF(tokens[k]))
  }

  /** Every peak has an m/z field. */
  predicate HasMz(ps: seq<Peak>) { forall k | 0 <= k < |ps| :: |ps[k]| >= 1 }

  /** Every peak has an m/z and an intensity field. */
  predicate HasIntensity(ps: seq<Peak>) { forall k | 0 <= k < |ps| :: |ps[k]| >= 2 }

  /** The strict tolerance test `(xy[0] - mz).abs < tol`. */
  predicate Near(p: Peak, mz: real, tol: real)
    requires |p| >= 1
  {
    Abs(p[0] - mz) < tol
  }

  /**
   * `@data.each {|xy| return true if (xy[0] - mz).abs < tol }; false`:
   * the peaks are tried in order and the first near one answers true.
   */
  function AnyNear(ps: seq<Peak>, mz: real, tol: real): (r: bool)
    requires HasMz(ps)
    ensures r <==> exists k | 0 <= k < |ps| :: Near(ps[k], mz, tol)
  {
    if ps == [] then false
    else Near(ps[0], mz, tol) || AnyNear(ps[1..], mz, tol)
  }

  /**
   * The boundary of `has_ion`: a peak exactly `tol` away on either side is
   * not near (the test is strict), while a peak at `mz` itself is near as
   * soon as `tol` is positive.
   */
  lemma AnyNearIsStrict(mz: real, tol: real)
    ensures !AnyNear([[mz + tol]], mz, tol) && !AnyNear([[mz - tol]], mz, tol)
    ensures tol > 0.0 ==> AnyNear([[mz]], mz, tol)
  {
    assert [[mz + tol]][0][0] - mz == tol;
    assert [[mz - tol]][0][0] - mz == -tol;
    assert [[mz]][0][0] - mz == 0.0;
  }

  // ---------------------------------------------------------------------
  // Sorting

  /** The two orders `filter_by_abundance` sorts by. */
  datatype Order =
    | ByIntensityDescending  // {|a,b| b[1] <=> a[1] }
    | ByMzAscending          // {|a,b| a[0] <=> b[0] }

  function Key(p: Peak, o: Order): real
    requires |p| >= 2
  {
    match o
    case ByIntensityDescending => -p[1]
    case ByMzAscending => p[0]
  }

  predicate SortedBy(ps: seq<Peak>, o: Order)
    requires HasIntensity(ps)
  {
    forall i, j | 0 <= i < j < |ps| :: Key(ps[i], o) <= Key(ps[j], o)
  }

  function Insert(p: Peak, ps: seq<Peak>, o: Order): (r: seq<Peak>)
    requires |p| >= 2 && HasIntensity(ps)
    ensures multiset(r) == multiset(ps) + multiset{p} && |r| == |ps| + 1
  {
    if ps == [] || Key(p, o) <= Key(ps[0], o) then [p] + ps
    else
      assert ps == [ps[0]] + ps[1..];
      [ps[0]] + Insert(p, ps[1..], o)
  }

  lemma {:induction false} InsertSorted(p: Peak, ps: seq<Peak>, o: Order)
    requires |p| >= 2 && HasIntensity(ps) && SortedBy(ps, o)
    ensures var r := Insert(p, ps, o);
      HasIntensity(r) && SortedBy(r, o) && (r[0] == p || r[0] == ps[0])
  {
    var r := Insert(p, ps, o);
    if ps != [] && Key(p, o) > Key(ps[0], o) {
      InsertSorted(p, ps[1..], o);
      var t := Insert(p, ps[1..], o);
      assert r == [ps[0]] + t;
      assert Key(ps[0], o) <= Key(t[0], o) by {
        if t[0] != p {
          assert Key(ps[0], o) <= Key(ps[1], o);
        }
      }
      SortedCons(ps[0], t, o);
    }
  }

  /** A peak that comes no later than the head of a sorted list extends it. */
  lemma SortedCons(x: Peak, t: seq<Peak>, o: Order)
    requires |x| >= 2 && HasIntensity(t) && SortedBy(t, o)
    requires t != [] ==> Key(x, o) <= Key(t[0], o)
    ensures HasIntensity([x] + t) && SortedBy([x] + t, o)
  {
    var r := [x] + t;
    forall k | 0 <= k < |r|
      ensures |r[k]| >= 2
    {
      if k > 0 {
        assert r[k] == t[k - 1];
      }
    }
    forall i, j | 0 <= i < j < |r|
      ensures Key(r[i], o) <= Key(r[j], o)
    {
      assert r[j] == t[j - 1];
      if i > 0 {
        assert r[i] == t[i - 1];
      } else if j > 1 {
        assert Key(t[0], o) <= Key(t[j - 1], o);
      }
    }
  }

  /**
   * Ruby's `sort` with one of the two comparators. Ruby's sort is not stable,
   * so only what every correct sort gives is relied on: a permutation that is
   * sorted by the key.
   */
  function SortBy(ps: seq<Peak>, o: Order): (r: seq<Peak>)
    requires HasIntensity(ps)
    ensures multiset(r) == multiset(ps) && |r| == |ps|
    ensures HasIntensity(r) && SortedBy(r, o)
  {
    if ps == [] then []
    else
      assert ps == [ps[0]] + ps[1..];
      InsertSorted(ps[0], SortBy(ps[1..], o), o);
      Insert(ps[0], SortBy(ps[1..], o), o)
  }

  // ---------------------------------------------------------------------
  // filter_by_abundance

  /** `return if (keepnum > @data.size || keepnum == 0)` */
  predicate KeepsAll(data: seq<Peak>, keepnum: nat) {
    keepnum > |data| || keepnum == 0
  }

  /** How many peaks `slice(0..keepnum)` keeps out of `n`: the range is inclusive. */
  function KeptCount(keepnum: nat, n: nat): nat {
    if keepnum + 1 <= n then keepnum + 1 else n
  }

  /**
   * The peak list `filter_by_abundance(keepnum)` leaves: unchanged when
   * `keepnum` is 0 or exceeds the peak count; otherwise the peaks sorted by
   * descending intensity, cut to `keepnum + 1`, then sorted by m/z.
   */
  function AbundanceFiltered(data: seq<Peak>, keepnum: nat): (r: seq<Peak>)
    requires KeepsAll(data, keepnum) || HasIntensity(data)
    ensures KeepsAll(data, keepnum) ==> r == data
  {
    if KeepsAll(data, keepnum) then data
    else
      var byIntensity := SortBy(data, ByIntensityDescending);
      SortBy(byIntensity[..KeptCount(keepnum, |data|)], ByMzAscending)
  }

  lemma MultisetSplit(s: seq<Peak>, m: nat)
    requires m <= |s|
    ensures multiset(s) == multiset(s[..m]) + multiset(s[m..])
  {
    assert s == s[..m] + s[m..];
  }

  /** The pruned list keeps every peak's m/z: it is the list itself or a sub-multiset with intensities. */
  lemma AbundanceFilterKeepsMz(data: seq<Peak>, keepnum: nat)
    requires HasMz(data) && (KeepsAll(data, keepnum) || HasIntensity(data))
    ensures HasMz(AbundanceFiltered(data, keepnum))
  {
    if !KeepsAll(data, keepnum) {
      AbundanceFilterKeepsMostIntense(data, keepnum);
    }
  }

  /**
   * When pruning happens, the result has `keepnum + 1` peaks (at most all of
   * them), is drawn from the original peaks, is sorted by ascending m/z, and
   * no dropped peak is more intense than any kept one.
   */
  lemma AbundanceFilterKeepsMostIntense(data: seq<Peak>, keepnum: nat)
    requires !KeepsAll(data, keepnum) && HasIntensity(data)
    ensures var r := AbundanceFiltered(data, keepnum);
      && |r| == KeptCount(keepnum, |data|)
      && multiset(r) <= multiset(data)
      && HasIntensity(r) && SortedBy(r, ByMzAscending)
      && forall x, y | x in r && y in multiset(data) - multiset(r) :: y[1] <= x[1]
  {
    var r := AbundanceFiltered(data, keepnum);
    var d := SortBy(data, ByIntensityDescending);
    var m := KeptCount(keepnum, |data|);
    MultisetSplit(d, m);
    assert multiset(r) == multiset(d[..m]);
    assert multiset(data) - multiset(r) == multiset(d[m..]);
    DescendingSplit(d, m);
    forall x, y | x in r && y in multiset(data) - multiset(r)
      ensures y[1] <= x[1]
    {
      assert x in multiset(r);
      assert x in d[..m];
      assert y in d[m..];
    }
  }

  /** In a list sorted by descending intensity, every peak before a cut is at least as intense as every peak after it. */
  lemma DescendingSplit(d: seq<Peak>, m: nat)
    requires HasIntensity(d) && SortedBy(d, ByIntensityDescending) && m <= |d|
    ensures forall x, y | x in d[..m] && y in d[m..] :: y[1] <= x[1]
  {
    forall x, y | x in d[..m] && y in d[m..]
      ensures y[1] <= x[1]
    {
      var i :| 0 <= i < m && d[..m][i] == x;
      var j :| 0 <= j < |d| - m && d[m..][j] == y;
      assert Key(d[i], ByIntensityDescending) <= Key(d[m + j], ByIntensityDescending);
    }
  }

  /**
   * `keepnum` equal to the peak count is not a no-op: every peak is kept,
   * but the list comes back sorted by m/z.
   */
  lemma AbundanceFilterAtSizeResorts(data: seq<Peak>)
    requires data != [] && HasIntensity(data)
    ensures var r := AbundanceFiltered(data, |data|);
      multiset(r) == multiset(data) && HasIntensity(r) && SortedBy(r, ByMzAscending)
  {
    var d := SortBy(data, ByIntensityDescending);
    assert d[..|data|] == d;
  }
}
