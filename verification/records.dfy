/**
 * What the loaders do with one well-formed MGF record: `BEGIN IONS`, header
 * lines, peak lines, `END IONS`. These lemmas are the reference reading of
 * `load_HCD_scans` and `load_ETD_scans` against which the line-by-line
 * definitions in loading.dfy are checked.
 */
module Records {
  import opened Base
  import opened Text
  import opened Peaks
  import opened Scans
  import opened Loading

  // ---------------------------------------------------------------------
  // Line shapes

  /** A marker or header line that triggers no other test of the loop bodies. */
  predicate OnlyBegin(line: string) {
    IsBeginLine(line) && !IsHeaderLine(line) && !IsPeakLine(line) && !IsEndLine(line)
    && Capture(EtdTitleLine, line).None?
  }

  predicate OnlyHeader(line: string) {
    IsHeaderLine(line) && !IsBeginLine(line) && !IsEndLine(line)
  }

  predicate OnlyEnd(line: string) {
    IsEndLine(line) && !IsBeginLine(line) && !IsHeaderLine(line) && !IsPeakLine(line)
    && Capture(EtdTitleLine, line).None?
  }

  predicate AllHeaders(hs: seq<string>) {
    forall k | 0 <= k < |hs| :: OnlyHeader(hs[k])
  }

  predicate AllPeaks(ps: seq<string>) {
    forall k | 0 <= k < |ps| :: IsPeakLine(ps[k])
  }

  /** A pattern with a character that does not occur in `s` occurs nowhere in it. */
  lemma NoOccurrence(s: string, pat: string, j: nat)
    requires j < |pat| && forall k | 0 <= k < |s| :: s[k] != pat[j]
    ensures forall i | 0 <= i <= |s| :: !OccursAt(s, pat, i)
  {
    forall i | 0 <= i <= |s|
      ensures !OccursAt(s, pat, i)
    {
      if i + |pat| <= |s| {
        assert s[i..i + |pat|][j] == s[i + j];
      }
    }
  }

  /** A peak line holds no letter and no '=', so it passes no other test of the loaders. */
  lemma PeakLineIsOnlyPeak(line: string)
    ensures IsPeakLine(line) ==> !IsBeginLine(line) && !IsHeaderLine(line) && !IsEndLine(line)
    ensures IsPeakLine(line) ==> Capture(EtdTitleLine, line).None?
  {
    if IsPeakLine(line) {
      forall k | 0 <= k < |line|
        ensures line[k] != 'B' && line[k] != 'E' && line[k] != 'T'
      {
      }
      NoOccurrence(line, "BEGIN IONS", 0);
      NoOccurrence(line, "END IONS", 0);
      NoOccurrence(line, "TITLE=Scan", 0);
      forall i | 0 <= i < |line|
        ensures !WordThenEquals(line, i)
      {
        if i + 1 < |line| {
          assert IsPeakChar(line[i + 1]);
        }
      }
    }
  }

  /** The markers as an MGF file writes them. */
  lemma MarkersAreOnlyMarkers()
    ensures OnlyBegin("BEGIN IONS\n") && OnlyEnd("END IONS\n")
  {
    var b, e := "BEGIN IONS\n", "END IONS\n";
    assert b[0..10] == "BEGIN IONS" && e[0..8] == "END IONS";
    assert OccursAt(b, "BEGIN IONS", 0) && OccursAt(e, "END IONS", 0);
    NoOccurrence(b, "TITLE=Scan", 0);
    NoOccurrence(e, "TITLE=Scan", 0);
    NoOccurrence(b, "END IONS", 2);
    NoOccurrence(e, "BEGIN IONS", 0);
    forall i | 0 <= i < |b| ensures !WordThenEquals(b, i) { }
    forall i | 0 <= i < |e| ensures !WordThenEquals(e, i) { }
  }

  // ---------------------------------------------------------------------
  // What a record carries

  /** The Hash the header lines build, one `params[key] = value` at a time from `m`. */
  function HeaderFold(m: Headers, hs: seq<string>): (r: Headers)
    requires forall k | 0 <= k < |hs| :: IsHeaderLine(hs[k])
    ensures forall key | key in m :: key in r
    decreases |hs|
  {
    if hs == [] then m
    else
      HeaderLineHasEquals(hs[0]);
      var kv := SplitHeader(hs[0]);
      HeaderFold(m[kv.0 := kv.1], hs[1..])
  }

  /** The key a header line sets. */
  function HeaderKey(line: string): string
    requires IsHeaderLine(line)
  {
    HeaderLineHasEquals(line);
    SplitHeader(line).0
  }

  /** The value a header line stores under its key. */
  function HeaderValue(line: string): string
    requires IsHeaderLine(line)
  {
    HeaderLineHasEquals(line);
    SplitHeader(line).1
  }

  /** Some line of `hs` sets `key`. */
  predicate SetsKey(hs: seq<string>, key: string)
    requires forall k | 0 <= k < |hs| :: IsHeaderLine(hs[k])
  {
    exists k | 0 <= k < |hs| :: HeaderKey(hs[k]) == key
  }

  /** No line after line `k` of `hs` sets the key line `k` sets. */
  predicate LastToSet(hs: seq<string>, k: nat)
    requires forall i | 0 <= i < |hs| :: IsHeaderLine(hs[i]) && k < |hs|
  {
    forall j | k < j < |hs| :: HeaderKey(hs[j]) != HeaderKey(hs[k])
  }

  lemma SetsKeyCons(hs: seq<string>, key: string)
    requires hs != [] && forall k | 0 <= k < |hs| :: IsHeaderLine(hs[k])
    ensures SetsKey(hs, key) <==> HeaderKey(hs[0]) == key || SetsKey(hs[1..], key)
  {
    var t := hs[1..];
    if SetsKey(t, key) {
      var k :| 0 <= k < |t| && HeaderKey(t[k]) == key;
      assert hs[k + 1] == t[k];
    }
    if HeaderKey(hs[0]) != key && !SetsKey(t, key) {
      forall k | 0 <= k < |hs|
        ensures HeaderKey(hs[k]) != key
      {
        if k > 0 {
          assert hs[k] == t[k - 1];
        }
      }
    }
  }

  lemma HeaderFoldCons(m: Headers, hs: seq<string>)
    requires hs != [] && forall k | 0 <= k < |hs| :: IsHeaderLine(hs[k])
    ensures HeaderFold(m, hs) == HeaderFold(m[HeaderKey(hs[0]) := HeaderValue(hs[0])], hs[1..])
  {
  }

  /** The folded Hash holds the keys it started with and exactly the keys the lines set. */
  lemma {:induction false} HeaderFoldKeys(m: Headers, hs: seq<string>)
    requires forall k | 0 <= k < |hs| :: IsHeaderLine(hs[k])
    ensures forall key :: key in HeaderFold(m, hs) <==> key in m || SetsKey(hs, key)
    decreases |hs|
  {
    if hs != [] {
      var m' := m[HeaderKey(hs[0]) := HeaderValue(hs[0])];
      HeaderFoldCons(m, hs);
      HeaderFoldKeys(m', hs[1..]);
      forall key
        ensures key in HeaderFold(m, hs) <==> key in m || SetsKey(hs, key)
      {
        SetsKeyCons(hs, key);
      }
    }
  }

  /** A key no line sets keeps the value it started with. */
  lemma {:induction false} HeaderFoldKeepsUnset(m: Headers, hs: seq<string>, key: string)
    requires forall k | 0 <= k < |hs| :: IsHeaderLine(hs[k])
    requires key in m && !SetsKey(hs, key)
    ensures key in HeaderFold(m, hs) && HeaderFold(m, hs)[key] == m[key]
    decreases |hs|
  {
    if hs != [] {
      var m' := m[HeaderKey(hs[0]) := HeaderValue(hs[0])];
      HeaderFoldCons(m, hs);
      SetsKeyCons(hs, key);
      HeaderFoldKeepsUnset(m', hs[1..], key);
    }
  }

  /** The last line to set a key decides its value: later `params[key] = value` win. */
  lemma {:induction false} HeaderFoldLastWins(m: Headers, hs: seq<string>, k: nat)
    requires forall i | 0 <= i < |hs| :: IsHeaderLine(hs[i])
    requires k < |hs| && LastToSet(hs, k)
    ensures HeaderKey(hs[k]) in HeaderFold(m, hs)
    ensures HeaderFold(m, hs)[HeaderKey(hs[k])] == HeaderValue(hs[k])
    decreases |hs|, 1
  {
    if k == 0 {
      HeaderFoldFirstWins(m, hs);
    } else {
      HeaderFoldLaterWins(m, hs, k);
    }
  }

  lemma {:induction false} HeaderFoldLaterWins(m: Headers, hs: seq<string>, k: nat)
    requires forall i | 0 <= i < |hs| :: IsHeaderLine(hs[i])
    requires 0 < k < |hs| && LastToSet(hs, k)
    ensures HeaderKey(hs[k]) in HeaderFold(m, hs)
    ensures HeaderFold(m, hs)[HeaderKey(hs[k])] == HeaderValue(hs[k])
    decreases |hs|, 0
  {
    var m' := m[HeaderKey(hs[0]) := HeaderValue(hs[0])];
    assert HeaderKey(hs[k]) in HeaderFold(m', hs[1..])
        && HeaderFold(m', hs[1..])[HeaderKey(hs[k])] == HeaderValue(hs[k]) by {
      LastToSetTail(hs, k);
      HeaderFoldLastWins(m', hs[1..], k - 1);
    }
    HeaderFoldCons(m, hs);
  }

  lemma HeaderFoldFirstWins(m: Headers, hs: seq<string>)
    requires hs != [] && forall i | 0 <= i < |hs| :: IsHeaderLine(hs[i])
    requires LastToSet(hs, 0)
    ensures HeaderKey(hs[0]) in HeaderFold(m, hs)
    ensures HeaderFold(m, hs)[HeaderKey(hs[0])] == HeaderValue(hs[0])
  {
    var key := HeaderKey(hs[0]);
    var m' := m[key := HeaderValue(hs[0])];
    HeaderFoldCons(m, hs);
    assert !SetsKey(hs[1..], key) by {
      var t := hs[1..];
      forall j | 0 <= j < |t|
        ensures HeaderKey(t[j]) != key
      {
        assert t[j] == hs[j + 1];
      }
    }
    HeaderFoldKeepsUnset(m', hs[1..], key);
  }

  lemma LastToSetTail(hs: seq<string>, k: nat)
    requires forall i | 0 <= i < |hs| :: IsHeaderLine(hs[i])
    requires 0 < k < |hs| && LastToSet(hs, k)
    ensures forall i | 0 <= i < |hs[1..]| :: IsHeaderLine(hs[1..][i])
    ensures hs[1..][k - 1] == hs[k] && LastToSet(hs[1..], k - 1)
  {
    var t := hs[1..];
    forall j | k - 1 < j < |t|
      ensures HeaderKey(t[j]) != HeaderKey(t[k - 1])
    {
      assert t[j] == hs[j + 1];
    }
  }

  /** The peaks the peak lines give, in order. */
  function PeaksOf(ps: seq<string>, toF: string -> real): (r: seq<Peak>)
    ensures |r| == |ps| && forall k | 0 <= k < |ps| :: r[k] == ToPeak(Words(ps[k]), toF)
  {
    seq(|ps|, k requires 0 <= k < |ps| => ToPeak(Words(ps[k]), toF))
  }

  lemma PeaksOfCons(ps: seq<string>, toF: string -> real)
    requires ps != []
    ensures PeaksOf(ps, toF) == [ToPeak(Words(ps[0]), toF)] + PeaksOf(ps[1..], toF)
  {
  }

  lemma SetHcdSame(ps: seq<PairV>, i: nat)
    requires i < |ps|
    ensures SetHcd(ps, i, ps[i].hcd) == ps
  {
  }

  lemma SetHcdTwice(ps: seq<PairV>, i: nat, a: ScanV, b: ScanV)
    requires i < |ps|
    ensures SetHcd(ps, i, a)[i].hcd == a && SetHcd(SetHcd(ps, i, a), i, b) == SetHcd(ps, i, b)
  {
  }

  lemma SetEtdSame(ps: seq<PairV>, i: nat)
    requires i < |ps|
    ensures SetEtd(ps, i, ps[i].etd) == ps
  {
  }

  lemma SetEtdTwice(ps: seq<PairV>, i: nat, a: ScanV, b: ScanV)
    requires i < |ps|
    ensures SetEtd(ps, i, a)[i].etd == a && SetEtd(SetEtd(ps, i, a), i, b) == SetEtd(ps, i, b)
  {
  }

  /** Appending the first peak, then the rest, appends them all. */
  lemma PeaksAppended(d: seq<Peak>, ps: seq<string>, toF: string -> real)
    requires ps != []
    ensures (d + [ToPeak(Words(ps[0]), toF)]) + PeaksOf(ps[1..], toF) == d + PeaksOf(ps, toF)
  {
    PeaksOfCons(ps, toF);
  }

  // =====================================================================
  // load_HCD_scans

  lemma HcdBeginStep(st: HcdState, line: string, keepnum: nat, toF: string -> real)
    requires OnlyBegin(line)
    ensures HcdStep(st, line, keepnum, toF) == Some(HcdBegin(st))
  {
  }

  lemma HcdHeaderStep(st: HcdState, line: string, keepnum: nat, toF: string -> real)
    requires OnlyHeader(line)
    ensures HcdStep(st, line, keepnum, toF) == HcdHeader(st, line)
  {
    PeakLineIsOnlyPeak(line);
  }

  lemma HcdPeakStep(st: HcdState, line: string, keepnum: nat, toF: string -> real)
    requires IsPeakLine(line)
    ensures HcdStep(st, line, keepnum, toF) == HcdPeak(st, line, toF)
  {
    PeakLineIsOnlyPeak(line);
  }

  lemma HcdEndStep(st: HcdState, line: string, keepnum: nat, toF: string -> real)
    requires OnlyEnd(line)
    ensures HcdStep(st, line, keepnum, toF) == HcdEnd(st, keepnum)
  {
  }

  /** The loader's loop, one line at a time. */
  lemma HcdRunCons(st: HcdState, line: string, rest: seq<string>, keepnum: nat, toF: string -> real)
    ensures HcdRun(st, [line] + rest, keepnum, toF) ==
      match HcdStep(st, line, keepnum, toF)
      case None => None
      case Some(s) => HcdRun(s, rest, keepnum, toF)
  {
    assert ([line] + rest)[0] == line && ([line] + rest)[1..] == rest;
  }

  lemma {:induction false} HcdRunConcat(st: HcdState, a: seq<string>, b: seq<string>, keepnum: nat, toF: string -> real)
    ensures HcdRun(st, a + b, keepnum, toF) ==
      match HcdRun(st, a, keepnum, toF)
      case None => None
      case Some(s) => HcdRun(s, b, keepnum, toF)
    decreases |a|
  {
    if a == [] {
      assert a + b == b;
    } else {
      assert (a + b)[1..] == a[1..] + b;
      match HcdStep(st, a[0], keepnum, toF)
      case None =>
      case Some(s) => HcdRunConcat(s, a[1..], b, keepnum, toF);
    }
  }

  /** Header lines only fill the loader's Hash while it is not yet installed on a scan. */
  lemma {:induction false} HcdHeadersRun(st: HcdState, hs: seq<string>, keepnum: nat, toF: string -> real)
    requires st.params.Some? && !st.installed && AllHeaders(hs)
    ensures HcdRun(st, hs, keepnum, toF) == Some(st.(params := Some(HeaderFold(st.params.value, hs))))
    decreases |hs|
  {
    if hs != [] {
      var h := hs[0];
      HcdHeaderStep(st, h, keepnum, toF);
      HeaderLineHasEquals(h);
      var kv := SplitHeader(h);
      var s1 := st.(params := Some(st.params.value[kv.0 := kv.1]));
      assert HcdHeader(st, h) == Some(s1);
      HcdHeadersRun(s1, hs[1..], keepnum, toF);
    }
  }

  /** Peak lines append their peaks, in order, to the last pair's HCD scan. */
  lemma {:induction false} HcdPeaksRun(st: HcdState, ps: seq<string>, keepnum: nat, toF: string -> real)
    requires st.pairs != [] && AllPeaks(ps)
    ensures var n := |st.pairs|; var h := st.pairs[n - 1].hcd;
      HcdRun(st, ps, keepnum, toF) == Some(st.(pairs := SetHcd(st.pairs, n - 1, h.(data := h.data + PeaksOf(ps, toF)))))
    decreases |ps|
  {
    var n := |st.pairs|;
    var h := st.pairs[n - 1].hcd;
    if ps == [] {
      assert h.(data := h.data + PeaksOf(ps, toF)) == h;
      SetHcdSame(st.pairs, n - 1);
    } else {
      var p := ps[0];
      var h1 := h.(data := h.data + [ToPeak(Words(p), toF)]);
      var s1 := st.(pairs := SetHcd(st.pairs, n - 1, h1));
      var h2 := h1.(data := h1.data + PeaksOf(ps[1..], toF));
      assert HcdRun(st, ps, keepnum, toF) == HcdRun(s1, ps[1..], keepnum, toF) by {
        HeadTail(ps);
        HcdRunCons(st, p, ps[1..], keepnum, toF);
        HcdPeakStep(st, p, keepnum, toF);
      }
      SetHcdTwice(st.pairs, n - 1, h1, h2);
      assert HcdRun(s1, ps[1..], keepnum, toF) == Some(s1.(pairs := SetHcd(s1.pairs, n - 1, h2))) by {
        HcdPeaksRun(s1, ps[1..], keepnum, toF);
      }
      assert h2 == h.(data := h.data + PeaksOf(ps, toF)) by {
        PeaksAppended(h.data, ps, toF);
      }
    }
  }

  /** The HCD scan a record describes, after `END IONS` installed its headers and pruned its peaks. */
  function HcdRecordScan(hs: seq<string>, ps: seq<string>, keepnum: nat, toF: string -> real): (s: ScanV)
    requires AllHeaders(hs) && AbundanceFilterDefined(PeaksOf(ps, toF), keepnum)
    ensures s.params.Some? && s.data != []
  {
    ScanV(Some(HeaderFold(map[], hs)), AbundanceFiltered(PeaksOf(ps, toF), keepnum))
  }

  /**
   * Loading one record appends exactly one pair: its HCD scan holds the
   * record's headers and its pruned peaks, its ETD scan is empty, and the
   * loader's Hash stays installed on that scan. When the pruning would
   * raise, the loader raises.
   */
  lemma HcdRecordLoads(st: HcdState, begin: string, hs: seq<string>, ps: seq<string>, end: string,
                       keepnum: nat, toF: string -> real)
    requires OnlyBegin(begin) && AllHeaders(hs) && AllPeaks(ps) && OnlyEnd(end)
    ensures var r := HcdRun(st, [begin] + hs + ps + [end], keepnum, toF);
      && (AbundanceFilterDefined(PeaksOf(ps, toF), keepnum) ==>
            r == Some(HcdState(st.pairs + [PairV(HcdRecordScan(hs, ps, keepnum, toF), EmptyScan)],
                               Some(HeaderFold(map[], hs)), true)))
      && (!AbundanceFilterDefined(PeaksOf(ps, toF), keepnum) ==> r.None?)
  {
    var body := hs + (ps + [end]);
    var s0 := HcdBegin(st);
    var peaks := PeaksOf(ps, toF);
    var s2 := HcdState(st.pairs + [PairV(ScanV(None, peaks), EmptyScan)], Some(HeaderFold(map[], hs)), false);
    var r := HcdRun(st, [begin] + hs + ps + [end], keepnum, toF);
    assert r == HcdEnd(s2, keepnum) by {
      assert [begin] + hs + ps + [end] == [begin] + body by {
        ConcatAssoc([begin] + hs, ps, [end]);
        ConcatAssoc([begin], hs, ps + [end]);
      }
      assert HcdRun(st, [begin] + body, keepnum, toF) == HcdRun(s0, body, keepnum, toF) by {
        HcdRunCons(st, begin, body, keepnum, toF);
        HcdBeginStep(st, begin, keepnum, toF);
      }
      assert HcdRun(s0, body, keepnum, toF) == HcdEnd(s2, keepnum) by {
        HcdBodyRun(s0, hs, ps, end, keepnum, toF);
        assert s0.pairs[|st.pairs| := PairV(ScanV(None, peaks), EmptyScan)] == s2.pairs;
      }
    }
    HcdRecordEnds(st.pairs, hs, ps, keepnum, toF);
  }

  /** `END IONS` of a record: the pair the record started gets its headers and its pruned peaks. */
  lemma HcdRecordEnds(pairs: seq<PairV>, hs: seq<string>, ps: seq<string>, keepnum: nat, toF: string -> real)
    requires AllHeaders(hs)
    ensures var peaks := PeaksOf(ps, toF);
      var r := HcdEnd(HcdState(pairs + [PairV(ScanV(None, peaks), EmptyScan)], Some(HeaderFold(map[], hs)), false), keepnum);
      && (AbundanceFilterDefined(peaks, keepnum) ==>
            r == Some(HcdState(pairs + [PairV(HcdRecordScan(hs, ps, keepnum, toF), EmptyScan)],
                               Some(HeaderFold(map[], hs)), true)))
      && (!AbundanceFilterDefined(peaks, keepnum) ==> r.None?)
  {
    var n := |pairs|;
    var peaks := PeaksOf(ps, toF);
    var bag := HeaderFold(map[], hs);
    var started := pairs + [PairV(ScanV(None, peaks), EmptyScan)];
    assert |started| == n + 1 && started[n].hcd.data == peaks;
    if AbundanceFilterDefined(peaks, keepnum) {
      var h := HcdRecordScan(hs, ps, keepnum, toF);
      assert h == ScanV(Some(bag), AbundanceFiltered(peaks, keepnum));
      assert SetHcd(started, n, h) == pairs + [PairV(h, EmptyScan)] by {
        assert started[n].(hcd := h) == PairV(h, EmptyScan);
      }
    }
  }

  /** After `BEGIN IONS`: the headers, the peaks and `END IONS` of a record. */
  lemma HcdBodyRun(s0: HcdState, hs: seq<string>, ps: seq<string>, end: string, keepnum: nat, toF: string -> real)
    requires s0.pairs != [] && s0.pairs[|s0.pairs| - 1] == EmptyPair && s0.params == Some(map[]) && !s0.installed
    requires AllHeaders(hs) && AllPeaks(ps) && OnlyEnd(end)
    ensures var n := |s0.pairs| - 1;
      var s2 := HcdState(s0.pairs[n := PairV(ScanV(None, PeaksOf(ps, toF)), EmptyScan)], Some(HeaderFold(map[], hs)), false);
      HcdRun(s0, hs + (ps + [end]), keepnum, toF) == HcdEnd(s2, keepnum)
  {
    var n := |s0.pairs| - 1;
    var s1 := s0.(params := Some(HeaderFold(map[], hs)));
    var peaks := PeaksOf(ps, toF);
    var s2 := HcdState(s0.pairs[n := PairV(ScanV(None, peaks), EmptyScan)], Some(HeaderFold(map[], hs)), false);
    assert HcdRun(s0, hs + (ps + [end]), keepnum, toF) == HcdRun(s1, ps + [end], keepnum, toF) by {
      HcdHeadersRun(s0, hs, keepnum, toF);
      HcdRunConcat(s0, hs, ps + [end], keepnum, toF);
    }
    assert HcdRun(s1, ps + [end], keepnum, toF) == HcdRun(s2, [end], keepnum, toF) by {
      HcdPeaksRun(s1, ps, keepnum, toF);
      assert s1.pairs[n].hcd.(data := s1.pairs[n].hcd.data + peaks) == ScanV(None, peaks);
      assert HcdRun(s1, ps, keepnum, toF) == Some(s2);
      HcdRunConcat(s1, ps, [end], keepnum, toF);
    }
    assert HcdRun(s2, [end], keepnum, toF) == HcdEnd(s2, keepnum) by {
      HcdEndStep(s2, end, keepnum, toF);
    }
  }

  // =====================================================================
  // load_ETD_scans

  lemma EtdBeginStep(st: EtdState, line: string, index: map<int, int>, toF: string -> real)
    requires OnlyBegin(line)
    ensures EtdStep(st, line, index, toF) == Some(EtdBegin(st))
  {
  }

  /** The TITLE line first picks the pair, then is stored in the Hash like any header. */
  lemma EtdTitleStep(st: EtdState, line: string, n: nat, index: map<int, int>, toF: string -> real)
    requires OnlyHeader(line) && Capture(EtdTitleLine, line) == Some(n)
    ensures EtdStep(st, line, index, toF) ==
      match EtdTitle(st, n, index)
      case None => None
      case Some(s) => EtdHeader(s, line)
  {
    PeakLineIsOnlyPeak(line);
  }

  lemma EtdHeaderStep(st: EtdState, line: string, index: map<int, int>, toF: string -> real)
    requires OnlyHeader(line) && Capture(EtdTitleLine, line).None?
    ensures EtdStep(st, line, index, toF) == EtdHeader(st, line)
  {
    PeakLineIsOnlyPeak(line);
  }

  lemma EtdPeakStep(st: EtdState, line: string, index: map<int, int>, toF: string -> real)
    requires IsPeakLine(line)
    ensures EtdStep(st, line, index, toF) == EtdPeak(st, line, toF)
  {
    PeakLineIsOnlyPeak(line);
  }

  lemma EtdEndStep(st: EtdState, line: string, index: map<int, int>, toF: string -> real)
    requires OnlyEnd(line)
    ensures EtdStep(st, line, index, toF) == EtdEnd(st)
  {
  }

  lemma {:induction false} EtdRunConcat(st: EtdState, a: seq<string>, b: seq<string>, index: map<int, int>, toF: string -> real)
    ensures EtdRun(st, a + b, index, toF) ==
      match EtdRun(st, a, index, toF)
      case None => None
      case Some(s) => EtdRun(s, b, index, toF)
    decreases |a|
  {
    if a == [] {
      assert a + b == b;
    } else {
      assert (a + b)[1..] == a[1..] + b;
      match EtdStep(st, a[0], index, toF)
      case None =>
      case Some(s) => EtdRunConcat(s, a[1..], b, index, toF);
    }
  }

  /** Headers that name no ETD scan. */
  predicate PlainHeaders(hs: seq<string>) {
    AllHeaders(hs) && forall k | 0 <= k < |hs| :: Capture(EtdTitleLine, hs[k]).None?
  }

  /** While the loader's Hash is on no scan, header lines only fill it. */
  lemma {:induction false} EtdHeadersRun(st: EtdState, hs: seq<string>, index: map<int, int>, toF: string -> real)
    requires st.params.Some? && st.shared == {} && PlainHeaders(hs)
    ensures EtdRun(st, hs, index, toF) == Some(st.(params := Some(HeaderFold(st.params.value, hs))))
    decreases |hs|
  {
    if hs != [] {
      var h := hs[0];
      EtdHeaderStep(st, h, index, toF);
      HeaderLineHasEquals(h);
      var kv := SplitHeader(h);
      var bag := st.params.value[kv.0 := kv.1];
      var s1 := st.(params := Some(bag));
      assert ShareBag(st.pairs, {}, bag) == st.pairs;
      assert EtdHeader(st, h) == Some(s1);
      EtdHeadersRun(s1, hs[1..], index, toF);
    }
  }

  /** Peak lines append their peaks, in order, to the ETD scan of the pair the loader points at. */
  lemma {:induction false} EtdPeaksRun(st: EtdState, ps: seq<string>, index: map<int, int>, toF: string -> real)
    requires st.cursor.Some? && st.cursor.value < |st.pairs| && AllPeaks(ps)
    ensures var c := st.cursor.value; var e := st.pairs[c].etd;
      EtdRun(st, ps, index, toF) == Some(st.(pairs := SetEtd(st.pairs, c, e.(data := e.data + PeaksOf(ps, toF)))))
    decreases |ps|
  {
    var c := st.cursor.value;
    var e := st.pairs[c].etd;
    if ps == [] {
      assert e.(data := e.data + PeaksOf(ps, toF)) == e;
      SetEtdSame(st.pairs, c);
    } else {
      var p := ps[0];
      var e1 := e.(data := e.data + [ToPeak(Words(p), toF)]);
      var s1 := st.(pairs := SetEtd(st.pairs, c, e1));
      var e2 := e1.(data := e1.data + PeaksOf(ps[1..], toF));
      assert EtdRun(st, ps, index, toF) == EtdRun(s1, ps[1..], index, toF) by {
        HeadTail(ps);
        EtdRunCons(st, p, ps[1..], index, toF);
        EtdPeakStep(st, p, index, toF);
      }
      SetEtdTwice(st.pairs, c, e1, e2);
      assert EtdRun(s1, ps[1..], index, toF) == Some(s1.(pairs := SetEtd(s1.pairs, c, e2))) by {
        EtdPeaksRun(s1, ps[1..], index, toF);
      }
      assert e2 == e.(data := e.data + PeaksOf(ps, toF)) by {
        PeaksAppended(e.data, ps, toF);
      }
    }
  }

  /**
   * Loading one ETD record whose TITLE line names ETD scan `n` touches only
   * the pair at `index[n - 1]` (the HCD scan one below): its ETD scan gets
   * the record's headers, TITLE line included, and the record's peaks after
   * any it had. A missing index entry makes the loader raise.
   */
  lemma EtdRecordLoads(st: EtdState, begin: string, title: string, hs: seq<string>, ps: seq<string>, end: string,
                       n: nat, index: map<int, int>, toF: string -> real)
    requires OnlyBegin(begin) && OnlyHeader(title) && Capture(EtdTitleLine, title) == Some(n)
    requires PlainHeaders(hs) && AllPeaks(ps) && OnlyEnd(end)
    requires n - 1 in index ==> 0 <= index[n - 1] < |st.pairs|
    ensures var r := EtdRun(st, [begin, title] + hs + ps + [end], index, toF);
      && (n - 1 in index ==>
            var c := index[n - 1];
            var bag := HeaderFold(map[], [title] + hs);
            r == Some(EtdState(SetEtd(st.pairs, c, ScanV(Some(bag), st.pairs[c].etd.data + PeaksOf(ps, toF))),
                               Some(bag), Some(c), {c})))
      && (n - 1 !in index ==> r.None?)
  {
    if n - 1 !in index {
      var body := hs + (ps + [end]);
      var s0 := EtdBegin(st);
      RecordLines(begin, title, hs, ps, end);
      assert EtdRun(st, [begin] + ([title] + body), index, toF) == EtdRun(s0, [title] + body, index, toF) by {
        EtdRunCons(st, begin, [title] + body, index, toF);
        EtdBeginStep(st, begin, index, toF);
      }
      assert EtdRun(s0, [title] + body, index, toF).None? by {
        EtdRunCons(s0, title, body, index, toF);
        EtdTitleStep(s0, title, n, index, toF);
      }
    } else {
      EtdRecordLoadsFound(st, begin, title, hs, ps, end, n, index, toF);
    }
  }

  /** `EtdRecordLoads` when the index knows the HCD scan. */
  lemma EtdRecordLoadsFound(st: EtdState, begin: string, title: string, hs: seq<string>, ps: seq<string>, end: string,
                            n: nat, index: map<int, int>, toF: string -> real)
    requires OnlyBegin(begin) && OnlyHeader(title) && Capture(EtdTitleLine, title) == Some(n)
    requires PlainHeaders(hs) && AllPeaks(ps) && OnlyEnd(end)
    requires n - 1 in index && 0 <= index[n - 1] < |st.pairs|
    ensures var c := index[n - 1];
      var bag := HeaderFold(map[], [title] + hs);
      EtdRun(st, [begin, title] + hs + ps + [end], index, toF)
        == Some(EtdState(SetEtd(st.pairs, c, ScanV(Some(bag), st.pairs[c].etd.data + PeaksOf(ps, toF))),
                         Some(bag), Some(c), {c}))
  {
    var body := hs + (ps + [end]);
    RecordLines(begin, title, hs, ps, end);
    var m := HeaderFold(map[], [title]);
    EtdOpenRun(st, begin, title, body, n, index, toF);
    HeaderFoldTitle(title, hs);
    EtdBodyRun(EtdState(st.pairs, Some(m), Some(index[n - 1]), {}), hs, ps, end, index, toF);
  }

  lemma RecordLines(begin: string, title: string, hs: seq<string>, ps: seq<string>, end: string)
    ensures [begin, title] + hs + ps + [end] == [begin] + ([title] + (hs + (ps + [end])))
  {
  }

  lemma HeaderFoldTitle(title: string, hs: seq<string>)
    requires OnlyHeader(title) && AllHeaders(hs)
    ensures HeaderFold(HeaderFold(map[], [title]), hs) == HeaderFold(map[], [title] + hs)
  {
    HeaderLineHasEquals(title);
    assert [title][1..] == [] && ([title] + hs)[0] == title && ([title] + hs)[1..] == hs;
  }

  /** `BEGIN IONS` and the TITLE line of a record whose HCD scan the index knows. */
  lemma EtdOpenRun(st: EtdState, begin: string, title: string, body: seq<string>,
                   n: nat, index: map<int, int>, toF: string -> real)
    requires OnlyBegin(begin) && OnlyHeader(title) && Capture(EtdTitleLine, title) == Some(n)
    requires n - 1 in index && 0 <= index[n - 1] < |st.pairs|
    ensures EtdRun(st, [begin] + ([title] + body), index, toF)
      == EtdRun(EtdState(st.pairs, Some(HeaderFold(map[], [title])), Some(index[n - 1]), {}), body, index, toF)
  {
    var s0 := EtdBegin(st);
    EtdBeginStep(st, begin, index, toF);
    EtdRunCons(st, begin, [title] + body, index, toF);
    EtdTitleOpens(s0, title, n, index, toF);
    EtdRunCons(s0, title, body, index, toF);
  }

  /** A TITLE line right after `BEGIN IONS` points the loader at the pair and starts a fresh Hash with it. */
  lemma EtdTitleOpens(s0: EtdState, title: string, n: nat, index: map<int, int>, toF: string -> real)
    requires s0.params == Some(map[]) && s0.shared == {}
    requires OnlyHeader(title) && Capture(EtdTitleLine, title) == Some(n)
    requires n - 1 in index && 0 <= index[n - 1] < |s0.pairs|
    ensures EtdStep(s0, title, index, toF)
      == Some(EtdState(s0.pairs, Some(HeaderFold(map[], [title])), Some(index[n - 1]), {}))
  {
    var t := s0.(cursor := Some(index[n - 1]));
    assert EtdTitle(s0, n, index) == Some(t);
    EtdTitleStep(s0, title, n, index, toF);
    FreshHashHeader(t, title);
  }

  /** A header line on a fresh Hash that is on no scan yet only starts the Hash. */
  lemma FreshHashHeader(t: EtdState, title: string)
    requires t.params == Some(map[]) && t.shared == {} && OnlyHeader(title)
    ensures EtdHeader(t, title) == Some(t.(params := Some(HeaderFold(map[], [title]))))
  {
    HeaderLineHasEquals(title);
    var kv := SplitHeader(title);
    assert HeaderFold(map[], [title]) == map[][kv.0 := kv.1] by {
      assert [title][1..] == [];
    }
    assert ShareBag(t.pairs, {}, map[][kv.0 := kv.1]) == t.pairs;
  }

  /** The loader's loop, one line at a time. */
  lemma EtdRunCons(st: EtdState, line: string, rest: seq<string>, index: map<int, int>, toF: string -> real)
    ensures EtdRun(st, [line] + rest, index, toF) ==
      match EtdStep(st, line, index, toF)
      case None => None
      case Some(s) => EtdRun(s, rest, index, toF)
  {
    assert ([line] + rest)[0] == line && ([line] + rest)[1..] == rest;
  }

  /** After the TITLE line: the other headers, the peaks and `END IONS` of a record. */
  lemma EtdBodyRun(s1: EtdState, hs: seq<string>, ps: seq<string>, end: string, index: map<int, int>, toF: string -> real)
    requires s1.params.Some? && s1.shared == {} && s1.cursor.Some? && s1.cursor.value < |s1.pairs|
    requires PlainHeaders(hs) && AllPeaks(ps) && OnlyEnd(end)
    ensures var c := s1.cursor.value;
      var bag := HeaderFold(s1.params.value, hs);
      EtdRun(s1, hs + (ps + [end]), index, toF)
        == Some(EtdState(SetEtd(s1.pairs, c, ScanV(Some(bag), s1.pairs[c].etd.data + PeaksOf(ps, toF))),
                         Some(bag), Some(c), {c}))
  {
    var c := s1.cursor.value;
    var bag := HeaderFold(s1.params.value, hs);
    var s2 := s1.(params := Some(bag));
    var e := s1.pairs[c].etd;
    var s3 := s2.(pairs := SetEtd(s1.pairs, c, e.(data := e.data + PeaksOf(ps, toF))));
    var r := EtdState(SetEtd(s1.pairs, c, ScanV(Some(bag), e.data + PeaksOf(ps, toF))), Some(bag), Some(c), {c});
    assert EtdRun(s1, hs + (ps + [end]), index, toF) == EtdRun(s2, ps + [end], index, toF) by {
      EtdHeadersRun(s1, hs, index, toF);
      EtdRunConcat(s1, hs, ps + [end], index, toF);
    }
    assert EtdRun(s2, ps + [end], index, toF) == EtdRun(s3, [end], index, toF) by {
      EtdPeaksRun(s2, ps, index, toF);
      EtdRunConcat(s2, ps, [end], index, toF);
    }
    assert EtdRun(s3, [end], index, toF) == EtdEnd(s3) by {
      EtdEndStep(s3, end, index, toF);
    }
    assert EtdEnd(s3) == Some(r) by {
      assert s3.pairs[c].etd.(params := Some(bag)) == ScanV(Some(bag), e.data + PeaksOf(ps, toF));
      assert SetEtd(s3.pairs, c, ScanV(Some(bag), e.data + PeaksOf(ps, toF)))
        == SetEtd(s1.pairs, c, ScanV(Some(bag), e.data + PeaksOf(ps, toF)));
      assert {} + {c} == {c};
    }
  }

  /**
   * "The HCD scan is always one less than the ETD": with the index the
   * constructor builds, an ETD record naming scan `n` lands on the last
   * pair whose HCD scan number is `n - 1`.
   */
  lemma EtdRecordFindsHcdPartner(ps: seq<PairV>, n: nat)
    requires HcdNumbered(ps)
    ensures var index := PositionIndex(ScanNumbers(ps));
      && (n - 1 in index <==> exists i | 0 <= i < |ps| :: ps[i].hcd.ScanNumber() == n - 1)
      && (n - 1 in index ==>
            && 0 <= index[n - 1] < |ps|
            && ps[index[n - 1]].hcd.ScanNumber() == n - 1
            && forall j | index[n - 1] < j < |ps| :: ps[j].hcd.ScanNumber() != n - 1)
  {
    var ns := ScanNumbers(ps);
    var index := PositionIndex(ns);
    if n - 1 in index {
      assert ns[index[n - 1]] == n - 1;
    }
    if exists i | 0 <= i < |ps| :: ps[i].hcd.ScanNumber() == n - 1 {
      var i :| 0 <= i < |ps| && ps[i].hcd.ScanNumber() == n - 1;
      assert ns[i] == n - 1;
    }
  }
}
