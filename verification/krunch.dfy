/**
 * `KatiKrunch`: the working collection of scan pairs, its scan-number
 * index, the two loaders, the sanity pass and `filter_for`, on the heap.
 * Each method is proved to do to `pairs` (the scan pairs as values) what
 * the matching definition in loading.dfy says.
 */
module Krunch {
  import opened Base
  import opened Text
  import opened Peaks
  import opened Scans
  import opened Loading

  /** Every scan of the pairs, and every header bag installed on one, is in `objs`. */
  ghost predicate InFrame(sps: seq<ScanPair>, objs: set<object>)
    reads objs
  {
    forall i | 0 <= i < |sps| ::
      && sps[i].hcdScan in objs && sps[i].etdScan in objs
      && (sps[i].hcdScan.params != null ==> sps[i].hcdScan.params in objs)
      && (sps[i].etdScan.params != null ==> sps[i].etdScan.params in objs)
  }

  /** No scan object belongs to two pairs, or to both sides of one pair. */
  ghost predicate Distinct(sps: seq<ScanPair>) {
    && (forall i, j {:trigger sps[i].hcdScan, sps[j].hcdScan} | 0 <= i < j < |sps| :: sps[i].hcdScan != sps[j].hcdScan)
    && (forall i, j {:trigger sps[i].etdScan, sps[j].etdScan} | 0 <= i < j < |sps| :: sps[i].etdScan != sps[j].etdScan)
    && (forall i, j {:trigger sps[i].hcdScan, sps[j].etdScan} | 0 <= i < |sps| && 0 <= j < |sps| :: sps[i].hcdScan != sps[j].etdScan)
  }

  class KatiKrunch {
    var scanpairs: seq<ScanPair>
    var index: map<int, int>
    /** `scanpairs` as values. */
    ghost var pairs: seq<PairV>
    ghost var Repr: set<object>

    ghost predicate Valid()
      reads this, Repr
    {
      && this !in Repr
      && InFrame(scanpairs, Repr)
      && Distinct(scanpairs)
      && Coupled()
    }

    /** `pairs` is `scanpairs` as values. */
    ghost predicate Coupled()
      reads this, Repr
      requires InFrame(scanpairs, Repr)
    {
      && |pairs| == |scanpairs|
      && forall i {:trigger scanpairs[i].Value()} | 0 <= i < |scanpairs| :: scanpairs[i].Value() == pairs[i]
    }

    // -------------------------------------------------------------------
    // load_HCD_scans

    /** What `load_HCD_scans` has built so far, with its local `params`. */
    ghost function HcdView(params: Bag?): HcdState
      reads this, Repr, params
      requires Valid()
    {
      var n := |scanpairs|;
      HcdState(pairs, if params == null then None else Some(params.entries),
               params != null && n > 0 && scanpairs[n - 1].hcdScan.params == params)
    }

    /** The loader's Hash is shared with no scan but, possibly, the last pair's HCD scan. */
    ghost predicate HcdLocal(params: Bag?)
      reads this, Repr
      requires Valid()
    {
      params != null ==>
        && params in Repr
        && (forall j | 0 <= j < |scanpairs| - 1 :: scanpairs[j].hcdScan.params != params)
        && (forall j | 0 <= j < |scanpairs| :: scanpairs[j].etdScan.params != params)
    }

    /** `BEGIN IONS`: `params = {}` and `@scanpairs.push(ScanPair.new)`. */
    method HcdBeginLine() returns (params': Bag)
      requires Valid()
      modifies this
      ensures Valid() && old(Repr) <= Repr && fresh(Repr - old(Repr)) && index == old(index)
      ensures HcdLocal(params')
      ensures HcdView(params') == HcdBegin(old(HcdView(null)))
    {
      params' := new Bag();
      var sp := new ScanPair();
      scanpairs := scanpairs + [sp];
      pairs := pairs + [EmptyPair];
      Repr := Repr + {params', sp.hcdScan, sp.etdScan};
      PairAppended((sp, params'));
    }

    /** A fresh pair and a fresh Hash were added at the end: the invariants hold, and only the new Hash is the loader's. */
    twostate lemma PairAppended(new arg: (ScanPair, Bag))
      requires old(Valid()) && fresh(arg.0.hcdScan) && fresh(arg.0.etdScan) && fresh(arg.1)
      requires arg.1.entries == map[]
      requires arg.0.hcdScan.params == null && arg.0.hcdScan.data == []
      requires arg.0.etdScan.params == null && arg.0.etdScan.data == []
      requires arg.0.hcdScan != arg.0.etdScan
      requires scanpairs == old(scanpairs) + [arg.0] && pairs == old(pairs) + [EmptyPair]
      requires Repr == old(Repr) + {arg.1, arg.0.hcdScan, arg.0.etdScan}
      requires unchanged(old(Repr))
      ensures Valid() && HcdLocal(arg.1)
      ensures HcdView(arg.1) == HcdBegin(old(HcdView(null)))
    {
      var n := |scanpairs|;
      forall j | 0 <= j < n - 1
        ensures scanpairs[j].Value() == pairs[j]
      {
        assert old(scanpairs[j].Value()) == old(pairs[j]);
      }
    }

    /** A `key=value` line: `params[key] = value`. */
    method HcdHeaderLine(params: Bag, line: string)
      requires Valid() && HcdLocal(params) && IsHeaderLine(line)
      modifies this, params
      ensures Valid() && HcdLocal(params)
      ensures scanpairs == old(scanpairs) && Repr == old(Repr) && index == old(index)
      ensures HcdHeader(old(HcdView(params)), line) == Some(HcdView(params))
    {
      HeaderLineHasEquals(line);
      ghost var st := HcdView(params);
      var kv := SplitHeader(line);
      params.entries := params.entries[kv.0 := kv.1];
      pairs := HcdHeader(st, line).value.pairs;
      HcdHeaderFrame((params, line, st));
    }

    /** After `params[key] = value`, only a scan holding `params` (the last HCD scan, if any) shows the change. */
    twostate lemma HcdHeaderFrame(arg: (Bag, string, HcdState))
      requires old(Valid()) && old(HcdLocal(arg.0)) && arg.2 == old(HcdView(arg.0))
      requires IsHeaderLine(arg.1) && '=' in arg.1
      requires scanpairs == old(scanpairs) && Repr == old(Repr) && unchanged(old(Repr) - {arg.0})
      requires arg.0.entries == old(arg.0.entries)[SplitHeader(arg.1).0 := SplitHeader(arg.1).1]
      requires pairs == HcdHeader(arg.2, arg.1).value.pairs
      ensures Valid() && HcdLocal(arg.0)
      ensures HcdHeader(arg.2, arg.1) == Some(HcdView(arg.0))
    {
      forall j | 0 <= j < |scanpairs|
        ensures scanpairs[j].Value() == pairs[j]
      {
        assert old(scanpairs[j].Value()) == old(pairs[j]);
      }
    }

    /** A peak line: `@scanpairs[-1].hcdScan.addPeak(line.split)`. */
    method HcdPeakLine(params: Bag?, line: string, toF: string -> real)
      requires Valid() && HcdLocal(params) && |scanpairs| > 0
      modifies this, scanpairs[|scanpairs| - 1].hcdScan
      ensures Valid() && HcdLocal(params)
      ensures scanpairs == old(scanpairs) && Repr == old(Repr) && index == old(index)
      ensures HcdPeak(old(HcdView(params)), line, toF) == Some(HcdView(params))
    {
      ghost var st := HcdView(params);
      var n := |scanpairs|;
      var s := scanpairs[n - 1].hcdScan;
      assert scanpairs[n - 1].Value() == st.pairs[n - 1];
      ghost var h' := st.pairs[n - 1].hcd.(data := s.data + [ToPeak(Words(line), toF)]);
      s.AddPeak(Words(line), toF);
      assert s.Value() == h';
      pairs := SetHcd(pairs, n - 1, h');
      LastHcdChanged(params);
    }

    /**
     * `END IONS`: `@scanpairs[-1].hcdScan.params = params`, then
     * `@scanpairs[-1].hcdScan.filter_by_abundance(keepnum)`.
     */
    method HcdEndLine(params: Bag?, keepnum: nat)
      requires Valid() && HcdLocal(params) && HcdEnd(HcdView(params), keepnum).Some?
      modifies this, scanpairs[|scanpairs| - 1].hcdScan
      ensures Valid() && HcdLocal(params)
      ensures scanpairs == old(scanpairs) && Repr == old(Repr) && index == old(index)
      ensures HcdEnd(old(HcdView(params)), keepnum) == Some(HcdView(params))
    {
      ghost var st := HcdView(params);
      var n := |scanpairs|;
      var s := scanpairs[n - 1].hcdScan;
      assert scanpairs[n - 1].Value() == st.pairs[n - 1];
      ghost var h' := ScanV(st.params, AbundanceFiltered(s.data, keepnum));
      s.params := params;
      s.FilterByAbundance(keepnum);
      assert s.Value() == h';
      pairs := SetHcd(pairs, n - 1, h');
      LastHcdChanged(params);
    }

    /**
     * Only the last pair's HCD scan changed, and at most by taking on the
     * loader's Hash `bag`: the invariants still hold, and the loader's view
     * changed only in its pairs and in whether `bag` is installed.
     */
    twostate lemma LastHcdChanged(bag: Bag?)
      requires old(Valid()) && old(HcdLocal(bag)) && |scanpairs| > 0
      requires scanpairs == old(scanpairs) && Repr == old(Repr)
      requires var s := scanpairs[|scanpairs| - 1].hcdScan;
        unchanged(old(Repr) - {s}) && (s.params == old(s.params) || s.params == bag)
      requires var n := |scanpairs|;
        pairs == old(pairs)[n - 1 := old(pairs[n - 1]).(hcd := scanpairs[n - 1].hcdScan.Value())]
      ensures Valid() && HcdLocal(bag)
      ensures HcdView(bag) == old(HcdView(bag)).(pairs := pairs, installed := bag != null && scanpairs[|scanpairs| - 1].hcdScan.params == bag)
    {
      var n := |scanpairs|;
      assert old(scanpairs[n - 1].Value()) == old(pairs[n - 1]);
      forall j | 0 <= j < n - 1
        ensures scanpairs[j].Value() == pairs[j]
      {
        assert old(scanpairs[j].Value()) == old(pairs[j]);
      }
    }

    /** Only the scans of pair `m` changed, so every other pair keeps its value. */
    twostate lemma OthersUnchanged(m: nat)
      requires old(Valid()) && m < |scanpairs| && scanpairs == old(scanpairs) && pairs == old(pairs)
      requires unchanged(old(Repr) - {scanpairs[m].hcdScan, scanpairs[m].etdScan})
      ensures forall j | 0 <= j < |scanpairs| && j != m :: scanpairs[j].Value() == pairs[j]
    {
      forall j | 0 <= j < |scanpairs| && j != m
        ensures scanpairs[j].Value() == pairs[j]
      {
        assert old(scanpairs[j].Value()) == old(pairs[j]);
      }
    }

    /** One line of `load_HCD_scans`. */
    method HcdLine(params: Bag?, line: string, keepnum: nat, toF: string -> real) returns (params': Bag?)
      requires Valid() && HcdLocal(params) && HcdStep(HcdView(params), line, keepnum, toF).Some?
      modifies this, Repr
      ensures Valid() && old(Repr) <= Repr && fresh(Repr - old(Repr)) && index == old(index)
      ensures HcdLocal(params')
      ensures HcdStep(old(HcdView(params)), line, keepnum, toF) == Some(HcdView(params'))
    {
      params' := params;
      if IsBeginLine(line) {
        params' := HcdBeginLine();
      }
      if IsHeaderLine(line) {
        if params' == null {
          assert false;
        }
        HcdHeaderLine(params', line);
      }
      if IsPeakLine(line) {
        if |scanpairs| == 0 {
          assert false;
        }
        HcdPeakLine(params', line, toF);
      }
      if IsEndLine(line) {
        HcdEndLine(params', keepnum);
      }
    }

    /**
     * `load_HCD_scans`, given the file's lines: the pairs afterwards are what
     * `HcdRun` says, starting from the current pairs and a nil `params`.
     */
    method LoadHcdScans(lines: seq<string>, keepnum: nat, toF: string -> real)
      requires Valid() && HcdRun(HcdState(pairs, None, false), lines, keepnum, toF).Some?
      modifies this, Repr
      ensures Valid() && old(Repr) <= Repr && fresh(Repr - old(Repr)) && index == old(index)
      ensures pairs == HcdRun(HcdState(old(pairs), None, false), lines, keepnum, toF).value.pairs
    {
      ghost var goal := HcdRun(HcdState(pairs, None, false), lines, keepnum, toF);
      var params: Bag? := null;
      var i := 0;
      while i < |lines|
        invariant 0 <= i <= |lines|
        invariant Valid() && old(Repr) <= Repr && fresh(Repr - old(Repr)) && index == old(index)
        invariant HcdLocal(params)
        invariant HcdRun(HcdView(params), lines[i..], keepnum, toF) == goal
      {
        assert lines[i..][1..] == lines[i + 1..];
        params := HcdLine(params, lines[i], keepnum, toF);
        i := i + 1;
      }
    }

    // -------------------------------------------------------------------
    // load_ETD_scans

    /**
     * What `load_ETD_scans` has built so far: its local `params`, the
     * position `pair` stands at, and the positions whose ETD scan holds
     * `params` itself.
     */
    ghost function EtdView(params: Bag?, cursor: Option<nat>, shared: set<nat>): EtdState
      reads this, Repr, params
      requires Valid()
    {
      EtdState(pairs, if params == null then None else Some(params.entries), cursor, shared)
    }

    /**
     * `pair` is the pair at `cursor` (nil when there is none), and `shared`
     * lists exactly the ETD scans holding the loader's Hash, which no HCD scan holds.
     */
    ghost predicate EtdLocal(params: Bag?, pair: ScanPair?, cursor: Option<nat>, shared: set<nat>)
      reads this, Repr
      requires Valid()
    {
      && (cursor.None? ==> pair == null)
      && (cursor.Some? ==> cursor.value < |scanpairs| && pair == scanpairs[cursor.value])
      && (forall j | j in shared :: j < |scanpairs|)
      && (params == null ==> shared == {})
      && (params != null ==>
           && params in Repr
           && (forall j | 0 <= j < |scanpairs| :: scanpairs[j].hcdScan.params != params)
           && (forall j | 0 <= j < |scanpairs| :: j in shared <==> scanpairs[j].etdScan.params == params))
    }

    /** `BEGIN IONS`: `params = {}`, a Hash no scan holds yet. */
    method EtdBeginLine(params: Bag?, ghost pair: ScanPair?, ghost cursor: Option<nat>, ghost shared: set<nat>)
      returns (params': Bag)
      requires Valid() && EtdLocal(params, pair, cursor, shared)
      modifies this
      ensures Valid() && old(Repr) <= Repr && fresh(Repr - old(Repr))
      ensures scanpairs == old(scanpairs) && index == old(index)
      ensures EtdLocal(params', pair, cursor, {})
      ensures EtdView(params', cursor, {}) == EtdBegin(old(EtdView(params, cursor, shared)))
    {
      params' := new Bag();
      Repr := Repr + {params'};
    }

    /**
     * `pair = @scanpairs[@index[hcdScanNum]]`: Ruby indexing, so a negative
     * position counts from the end and one past the end gives nil. A scan
     * number missing from the index raises.
     */
    method EtdTitleSelect(params: Bag?, ghost pair: ScanPair?, ghost cursor: Option<nat>, ghost shared: set<nat>, etdScanNum: nat)
      returns (pair': ScanPair?, ghost cursor': Option<nat>)
      requires Valid() && EtdLocal(params, pair, cursor, shared) && etdScanNum - 1 in index
      ensures EtdLocal(params, pair', cursor', shared)
      ensures EtdTitle(EtdView(params, cursor, shared), etdScanNum, index) == Some(EtdView(params, cursor', shared))
    {
      var hcdScanNum := etdScanNum - 1;
      var k := index[hcdScanNum];
      var m := |scanpairs|;
      if 0 <= k < m {
        pair' := scanpairs[k];
      } else if k < 0 && -k <= m {
        pair' := scanpairs[m + k];
      } else {
        pair' := null;
      }
      cursor' := RubyIndex(k, m);
    }

    /** A `key=value` line: `params[key] = value`, seen by every ETD scan holding `params`. */
    method EtdHeaderLine(params: Bag, ghost pair: ScanPair?, ghost cursor: Option<nat>, ghost shared: set<nat>, line: string)
      requires Valid() && EtdLocal(params, pair, cursor, shared) && IsHeaderLine(line)
      modifies this, params
      ensures Valid() && EtdLocal(params, pair, cursor, shared)
      ensures scanpairs == old(scanpairs) && Repr == old(Repr) && index == old(index)
      ensures EtdHeader(old(EtdView(params, cursor, shared)), line) == Some(EtdView(params, cursor, shared))
    {
      HeaderLineHasEquals(line);
      var kv := SplitHeader(line);
      params.entries := params.entries[kv.0 := kv.1];
      pairs := ShareBag(pairs, shared, params.entries);
      forall j | 0 <= j < |scanpairs|
        ensures scanpairs[j].Value() == pairs[j]
      {
        assert old(scanpairs[j].Value()) == old(pairs[j]);
      }
    }

    /** A peak line: `pair.etdScan.addPeak(line.split)`. */
    method EtdPeakLine(params: Bag?, pair: ScanPair, ghost cursor: Option<nat>, ghost shared: set<nat>,
                       line: string, toF: string -> real)
      requires Valid() && EtdLocal(params, pair, cursor, shared)
      modifies this, pair.etdScan
      ensures Valid() && EtdLocal(params, pair, cursor, shared)
      ensures scanpairs == old(scanpairs) && Repr == old(Repr) && index == old(index)
      ensures EtdPeak(old(EtdView(params, cursor, shared)), line, toF) == Some(EtdView(params, cursor, shared))
    {
      ghost var c := cursor.value;
      assert pair.Value() == pairs[c];
      pair.etdScan.AddPeak(Words(line), toF);
      OthersUnchanged(c);
      ghost var e := pairs[c].etd;
      pairs := SetEtd(pairs, c, e.(data := e.data + [ToPeak(Words(line), toF)]));
    }

    /** `END IONS`: `pair.etdScan.params = params`; that scan now holds the loader's Hash. */
    method EtdEndLine(params: Bag?, pair: ScanPair, ghost cursor: Option<nat>, ghost shared: set<nat>)
      returns (ghost shared': set<nat>)
      requires Valid() && EtdLocal(params, pair, cursor, shared)
      modifies this, pair.etdScan
      ensures Valid() && EtdLocal(params, pair, cursor, shared')
      ensures scanpairs == old(scanpairs) && Repr == old(Repr) && index == old(index)
      ensures EtdEnd(old(EtdView(params, cursor, shared))) == Some(EtdView(params, cursor, shared'))
    {
      ghost var c := cursor.value;
      assert pair.Value() == pairs[c];
      pair.etdScan.params := params;
      OthersUnchanged(c);
      pairs := SetEtd(pairs, c, pair.etdScan.Value());
      shared' := if params != null then shared + {c} else shared;
    }

    /** The `BEGIN IONS` and TITLE tests of one line of `load_ETD_scans`. */
    method EtdOpenLine(params: Bag?, pair: ScanPair?, ghost cursor: Option<nat>, ghost shared: set<nat>, line: string)
      returns (params': Bag?, pair': ScanPair?, ghost cursor': Option<nat>, ghost shared': set<nat>)
      requires Valid() && EtdLocal(params, pair, cursor, shared)
      requires EtdOpen(EtdView(params, cursor, shared), line, index).Some?
      modifies this
      ensures Valid() && old(Repr) <= Repr && fresh(Repr - old(Repr))
      ensures scanpairs == old(scanpairs) && index == old(index)
      ensures EtdLocal(params', pair', cursor', shared')
      ensures EtdOpen(old(EtdView(params, cursor, shared)), line, index) == Some(EtdView(params', cursor', shared'))
    {
      params', pair', cursor', shared' := params, pair, cursor, shared;
      if IsBeginLine(line) {
        params' := EtdBeginLine(params, pair, cursor, shared);
        shared' := {};
      }
      match Capture(EtdTitleLine, line) {
        case Some(n) =>
          if n - 1 !in index {
            assert false;
          }
          pair', cursor' := EtdTitleSelect(params', pair', cursor', shared', n);
        case None =>
      }
    }

    /** The header, peak and `END IONS` tests of one line of `load_ETD_scans`. */
    method EtdFillLine(params: Bag?, pair: ScanPair?, ghost cursor: Option<nat>, ghost shared: set<nat>,
                       line: string, toF: string -> real)
      returns (ghost shared': set<nat>)
      requires Valid() && EtdLocal(params, pair, cursor, shared)
      requires EtdFill(EtdView(params, cursor, shared), line, toF).Some?
      modifies this, params, if pair == null then {} else {pair.etdScan}
      ensures Valid() && Repr == old(Repr) && scanpairs == old(scanpairs) && index == old(index)
      ensures EtdLocal(params, pair, cursor, shared')
      ensures EtdFill(old(EtdView(params, cursor, shared)), line, toF) == Some(EtdView(params, cursor, shared'))
    {
      shared' := shared;
      if IsHeaderLine(line) {
        if params == null {
          assert false;
        }
        EtdHeaderLine(params, pair, cursor, shared, line);
      }
      if IsPeakLine(line) {
        if pair == null {
          assert false;
        }
        EtdPeakLine(params, pair, cursor, shared, line, toF);
      }
      if IsEndLine(line) {
        if pair == null {
          assert false;
        }
        shared' := EtdEndLine(params, pair, cursor, shared);
      }
    }

    /** One line of `load_ETD_scans`. */
    method EtdLine(params: Bag?, pair: ScanPair?, ghost cursor: Option<nat>, ghost shared: set<nat>,
                   line: string, toF: string -> real)
      returns (params': Bag?, pair': ScanPair?, ghost cursor': Option<nat>, ghost shared': set<nat>)
      requires Valid() && EtdLocal(params, pair, cursor, shared)
      requires EtdStep(EtdView(params, cursor, shared), line, index, toF).Some?
      modifies this, Repr
      ensures Valid() && old(Repr) <= Repr && fresh(Repr - old(Repr)) && index == old(index)
      ensures EtdLocal(params', pair', cursor', shared')
      ensures EtdStep(old(EtdView(params, cursor, shared)), line, index, toF) == Some(EtdView(params', cursor', shared'))
    {
      params', pair', cursor', shared' := EtdOpenLine(params, pair, cursor, shared, line);
      shared' := EtdFillLine(params', pair', cursor', shared', line, toF);
    }

    /**
     * `load_ETD_scans`, given the file's lines: the pairs afterwards are what
     * `EtdRun` says, starting from the current pairs with `params` and `pair` nil.
     */
    method LoadEtdScans(lines: seq<string>, toF: string -> real)
      requires Valid() && EtdRun(EtdState(pairs, None, None, {}), lines, index, toF).Some?
      modifies this, Repr
      ensures Valid() && old(Repr) <= Repr && fresh(Repr - old(Repr)) && index == old(index)
      ensures pairs == EtdRun(EtdState(old(pairs), None, None, {}), lines, index, toF).value.pairs
    {
      ghost var goal := EtdRun(EtdState(pairs, None, None, {}), lines, index, toF);
      var params: Bag? := null;
      var pair: ScanPair? := null;
      ghost var cursor: Option<nat> := None;
      ghost var shared: set<nat> := {};
      var i := 0;
      while i < |lines|
        invariant 0 <= i <= |lines|
        invariant Valid() && old(Repr) <= Repr && fresh(Repr - old(Repr)) && index == old(index)
        invariant EtdLocal(params, pair, cursor, shared)
        invariant EtdRun(EtdView(params, cursor, shared), lines[i..], index, toF) == goal
      {
        assert lines[i..][1..] == lines[i + 1..];
        params, pair, cursor, shared := EtdLine(params, pair, cursor, shared, lines[i], toF);
        i := i + 1;
      }
    }

    // -------------------------------------------------------------------
    // The scan-number index

    /**
     * `@scanpairs.each_with_index {|sp, ind| @index[sp.hcdScan.scanNumber] = ind }`:
     * a later pair with the same scan number overwrites an earlier one.
     */
    method BuildIndex()
      requires Valid() && HcdNumbered(pairs)
      modifies this`index
      ensures Valid()
      ensures index == old(index) + PositionIndex(ScanNumbers(pairs))
    {
      ghost var ns := ScanNumbers(pairs);
      for i := 0 to |scanpairs|
        invariant Valid()
        invariant index == old(index) + PositionIndex(ns[..i])
      {
        assert scanpairs[i].Value() == pairs[i];
        var n := scanpairs[i].hcdScan.Value().ScanNumber();
        assert n == ns[i];
        PositionIndexStep(ns, i);
        MergeUpdate(old(index), PositionIndex(ns[..i]), n, i);
        index := index[n := i];
      }
      assert ns[..|scanpairs|] == ns;
    }

    /** Updating a merged map updates its right-hand side. */
    static lemma MergeUpdate(a: map<int, int>, b: map<int, int>, key: int, value: int)
      ensures (a + b)[key := value] == a + b[key := value]
    {
    }

    // -------------------------------------------------------------------
    // delete_if

    /** Pairs picked from `scanpairs` at strictly increasing positions keep the frame, stay distinct and keep their values. */
    lemma SelectionValid(kept: seq<ScanPair>, keptV: seq<PairV>, pos: seq<nat>)
      requires Valid() && |pos| == |kept| == |keptV|
      requires forall k | 0 <= k < |pos| :: pos[k] < |scanpairs| && kept[k] == scanpairs[pos[k]] && keptV[k] == pairs[pos[k]]
      requires forall k, l | 0 <= k < l < |pos| :: pos[k] < pos[l]
      ensures InFrame(kept, Repr) && Distinct(kept)
      ensures forall k | 0 <= k < |kept| :: kept[k].Value() == keptV[k]
    {
      forall k, l | 0 <= k < |kept| && 0 <= l < |kept|
        ensures kept[k].hcdScan != kept[l].etdScan
      {
        assert scanpairs[pos[k]].hcdScan != scanpairs[pos[l]].etdScan;
      }
      forall k, l | 0 <= k < l < |kept|
        ensures kept[k].hcdScan != kept[l].hcdScan && kept[k].etdScan != kept[l].etdScan
      {
        assert scanpairs[pos[k]].hcdScan != scanpairs[pos[l]].hcdScan;
        assert scanpairs[pos[k]].etdScan != scanpairs[pos[l]].etdScan;
      }
      forall k | 0 <= k < |kept|
        ensures kept[k].Value() == keptV[k]
      {
        assert scanpairs[pos[k]].Value() == pairs[pos[k]];
      }
    }

    /**
     * The pairs the `delete_if` block answers false for, in their order,
     * with their positions.
     */
    method KeptScanPairs(rule: Rule) returns (kept: seq<ScanPair>, ghost keptV: seq<PairV>, ghost pos: seq<nat>)
      requires InFrame(scanpairs, Repr) && Coupled() && AllDefined(rule, pairs)
      ensures keptV == Kept(pairs, rule) && |kept| == |keptV| == |pos|
      ensures forall k | 0 <= k < |pos| :: pos[k] < |scanpairs| && kept[k] == scanpairs[pos[k]] && keptV[k] == pairs[pos[k]]
      ensures forall k, l | 0 <= k < l < |pos| :: pos[k] < pos[l]
    {
      kept, keptV, pos := [], [], [];
      for i := 0 to |scanpairs|
        invariant SelectedUpTo(scanpairs, pairs, rule, i, kept, keptV, pos)
      {
        var sp := scanpairs[i];
        assert sp.Value() == pairs[i];
        var keep := !Drops(rule, sp.Value());
        SelectionStep(scanpairs, pairs, rule, i, kept, keptV, pos, keep);
        if keep {
          kept, keptV, pos := kept + [sp], keptV + [pairs[i]], pos + [i];
        }
      }
      assert pairs[..|scanpairs|] == pairs;
    }

    /** The loop invariant of `KeptScanPairs` after `i` pairs. */
    static ghost predicate SelectedUpTo(sps: seq<ScanPair>, ps: seq<PairV>, rule: Rule, i: nat,
                                        kept: seq<ScanPair>, keptV: seq<PairV>, pos: seq<nat>)
    {
      && i <= |ps| == |sps| && AllDefined(rule, ps)
      && |kept| == |keptV| == |pos|
      && keptV == Kept(ps[..i], rule)
      && (forall k | 0 <= k < |pos| :: pos[k] < i && kept[k] == sps[pos[k]] && keptV[k] == ps[pos[k]])
      && (forall k, l | 0 <= k < l < |pos| :: pos[k] < pos[l])
    }

    /** One more pair considered: it joins the selection exactly when the rule keeps it. */
    static lemma SelectionStep(sps: seq<ScanPair>, ps: seq<PairV>, rule: Rule, i: nat,
                               kept: seq<ScanPair>, keptV: seq<PairV>, pos: seq<nat>, keep: bool)
      requires SelectedUpTo(sps, ps, rule, i, kept, keptV, pos) && i < |ps|
      requires keep == !Drops(rule, ps[i])
      ensures keep ==> SelectedUpTo(sps, ps, rule, i + 1, kept + [sps[i]], keptV + [ps[i]], pos + [i])
      ensures !keep ==> SelectedUpTo(sps, ps, rule, i + 1, kept, keptV, pos)
    {
      KeptPrefixStep(ps, i, rule);
    }

    /**
     * `@scanpairs.delete_if {|sp| ... }`: the pairs the block answers false
     * for stay, in their order; the scans themselves are not touched.
     */
    method DeleteIf(rule: Rule)
      requires Valid() && AllDefined(rule, pairs)
      modifies this`scanpairs, this`pairs
      ensures Valid()
      ensures pairs == Kept(old(pairs), rule)
    {
      var kept;
      ghost var keptV, pos;
      kept, keptV, pos := KeptScanPairs(rule);
      SelectionValid(kept, keptV, pos);
      scanpairs := kept;
      pairs := keptV;
      assert InFrame(scanpairs, Repr) && Distinct(scanpairs);
    }

    /**
     * `filter_for(mz, tol)`: drop every pair whose HCD scan has no peak within
     * `tol` of `mz`. The pairs left stay ready for the next call.
     */
    method FilterFor(mz: real, tol: real)
      requires Valid() && AllDefined(IonFilter(mz, tol), pairs)
      modifies this`scanpairs, this`pairs
      ensures Valid()
      ensures pairs == Kept(old(pairs), IonFilter(mz, tol))
      ensures IonReady(pairs)
    {
      ghost var ps := pairs;
      DeleteIf(IonFilter(mz, tol));
      KeptAreKept(ps, IonFilter(mz, tol));
    }

    // -------------------------------------------------------------------
    // KatiKrunch.new

    /**
     * `KatiKrunch.new(hcd, etd, keepnum)`, given the two files' lines: the
     * pairs and the index are what `Construct` says.
     */
    constructor (hcdLines: seq<string>, etdLines: seq<string>, keepnum: nat, toF: string -> real)
      requires Construct(hcdLines, etdLines, keepnum, toF).Some?
      ensures Valid() && fresh(Repr)
      ensures pairs == Construct(hcdLines, etdLines, keepnum, toF).value.pairs
      ensures index == Construct(hcdLines, etdLines, keepnum, toF).value.index
      ensures IonReady(pairs)
    {
      index := map[];
      scanpairs := [];
      pairs := [];
      Repr := {};
      new;
      ConstructSteps(hcdLines, etdLines, keepnum, toF);
      LoadAndIndex(hcdLines, keepnum, toF);
      LoadEtdScans(etdLines, toF);
      DeleteIf(SanityCheck(toF));
      ConstructIonReady(hcdLines, etdLines, keepnum, toF);
    }

    /** The first two steps of the constructor: `load_HCD_scans`, then the index. */
    method LoadAndIndex(hcdLines: seq<string>, keepnum: nat, toF: string -> real)
      requires Valid() && pairs == [] && index == map[]
      requires HcdRun(NoHcdYet, hcdLines, keepnum, toF).Some?
      requires HcdNumbered(HcdRun(NoHcdYet, hcdLines, keepnum, toF).value.pairs)
      modifies this, Repr
      ensures Valid() && old(Repr) <= Repr && fresh(Repr - old(Repr))
      ensures var h := HcdRun(NoHcdYet, hcdLines, keepnum, toF).value;
        pairs == h.pairs && index == PositionIndex(ScanNumbers(h.pairs))
    {
      ghost var h := HcdRun(NoHcdYet, hcdLines, keepnum, toF).value;
      assert HcdState(pairs, None, false) == NoHcdYet;
      LoadHcdScans(hcdLines, keepnum, toF);
      assert pairs == h.pairs && index == map[];
      BuildIndex();
      assert map[] + PositionIndex(ScanNumbers(h.pairs)) == PositionIndex(ScanNumbers(h.pairs));
    }
  }
}
