/**
 * What `KatiKrunch` does to its scan pairs, stated on values: one step per
 * input line for each loader, the scan-number index, and the two
 * `delete_if` passes. The class in krunch.dfy is proved to follow these
 * definitions; the lemmas here say what they mean.
 *
 * A loader crash (a Ruby method called on nil) is a `None` result.
 */
module Loading {
  import opened Base
  import opened Text
  import opened Peaks
  import opened Scans

  const EmptyScan := ScanV(None, [])
  const EmptyPair := PairV(EmptyScan, EmptyScan)

  function SetHcd(ps: seq<PairV>, i: nat, h: ScanV): seq<PairV>
    requires i < |ps|
  {
    ps[i := ps[i].(hcd := h)]
  }

  function SetEtd(ps: seq<PairV>, i: nat, e: ScanV): seq<PairV>
    requires i < |ps|
  {
    ps[i := ps[i].(etd := e)]
  }

  /** `filter_by_abundance` raises on a nil peak list, and its sort on a peak without intensity. */
  predicate AbundanceFilterDefined(data: seq<Peak>, keepnum: nat) {
    data != [] && (KeepsAll(data, keepnum) || HasIntensity(data))
  }

  // =====================================================================
  // load_HCD_scans

  /**
   * The HCD loader's state: the pairs, its local `params` Hash, and whether
   * that Hash is already installed on the last pair's HCD scan (after which
   * a header line changes that scan's headers too, as they share the Hash).
   */
  datatype HcdState = HcdState(pairs: seq<PairV>, params: Option<Headers>, installed: bool)

  /** `BEGIN IONS`: a fresh Hash and a fresh pair at the end. */
  function HcdBegin(st: HcdState): HcdState {
    HcdState(st.pairs + [EmptyPair], Some(map[]), false)
  }

  /** A `key=value` line: `params[key] = value` (a nil `params` raises). */
  function HcdHeader(st: HcdState, line: string): Option<HcdState>
    requires IsHeaderLine(line)
  {
    HeaderLineHasEquals(line);
    if st.params.None? then None
    else
      var kv := SplitHeader(line);
      var bag := st.params.value[kv.0 := kv.1];
      var n := |st.pairs|;
      var ps := if st.installed && n > 0
        then SetHcd(st.pairs, n - 1, st.pairs[n - 1].hcd.(params := Some(bag)))
        else st.pairs;
      Some(HcdState(ps, Some(bag), st.installed))
  }

  /** A peak line: `@scanpairs[-1].hcdScan.addPeak(line.split)` (no pair yet raises). */
  function HcdPeak(st: HcdState, line: string, toF: string -> real): Option<HcdState> {
    var n := |st.pairs|;
    if n == 0 then None
    else
      var h := st.pairs[n - 1].hcd;
      Some(st.(pairs := SetHcd(st.pairs, n - 1, h.(data := h.data + [ToPeak(Words(line), toF)]))))
  }

  /** `END IONS`: the Hash is installed on the last HCD scan, which is then pruned. */
  function HcdEnd(st: HcdState, keepnum: nat): Option<HcdState> {
    var n := |st.pairs|;
    if n == 0 then None
    else
      var h := st.pairs[n - 1].hcd;
      if !AbundanceFilterDefined(h.data, keepnum) then None
      else
        var h' := ScanV(st.params, AbundanceFiltered(h.data, keepnum));
        Some(HcdState(SetHcd(st.pairs, n - 1, h'), st.params, st.params.Some?))
  }

  function HcdBeginIf(st: HcdState, line: string): HcdState {
    if IsBeginLine(line) then HcdBegin(st) else st
  }

  function HcdHeaderIf(st: HcdState, line: string): Option<HcdState> {
    if IsHeaderLine(line) then HcdHeader(st, line) else Some(st)
  }

  function HcdPeakIf(st: HcdState, line: string, toF: string -> real): Option<HcdState> {
    if IsPeakLine(line) then HcdPeak(st, line, toF) else Some(st)
  }

  function HcdEndIf(st: HcdState, line: string, keepnum: nat): Option<HcdState> {
    if IsEndLine(line) then HcdEnd(st, keepnum) else Some(st)
  }

  /** One line: the four tests of the loop body, in order; a line may pass several. */
  function HcdStep(st: HcdState, line: string, keepnum: nat, toF: string -> real): Option<HcdState> {
    match HcdHeaderIf(HcdBeginIf(st, line), line)
    case None => None
    case Some(s2) =>
      match HcdPeakIf(s2, line, toF)
      case None => None
      case Some(s3) => HcdEndIf(s3, line, keepnum)
  }

  function HcdRun(st: HcdState, lines: seq<string>, keepnum: nat, toF: string -> real): Option<HcdState>
    decreases |lines|
  {
    if lines == [] then Some(st)
    else match HcdStep(st, lines[0], keepnum, toF)
      case None => None
      case Some(s) => HcdRun(s, lines[1..], keepnum, toF)
  }

  function BeginCount(lines: seq<string>): nat {
    if lines == [] then 0 else (if IsBeginLine(lines[0]) then 1 else 0) + BeginCount(lines[1..])
  }

  lemma HcdStepShape(st: HcdState, line: string, keepnum: nat, toF: string -> real)
    requires HcdStep(st, line, keepnum, toF).Some?
    ensures var s := HcdStep(st, line, keepnum, toF).value;
      && |s.pairs| == |st.pairs| + (if IsBeginLine(line) then 1 else 0)
      && (forall i | 0 <= i < |s.pairs| - 1 :: s.pairs[i] == st.pairs[i])
      && (forall i | 0 <= i < |s.pairs| :: s.pairs[i].etd == (if i < |st.pairs| then st.pairs[i].etd else EmptyScan))
  {
    var s1 := HcdBeginIf(st, line);
    var s2 := HcdHeaderIf(s1, line).value;
    var s3 := HcdPeakIf(s2, line, toF).value;
    var s4 := HcdEndIf(s3, line, keepnum).value;
    assert HcdStep(st, line, keepnum, toF) == Some(s4);
    HeaderIfTouchesLastHcd(s1, line);
    PeakIfTouchesLastHcd(s2, line, toF);
    EndIfTouchesLastHcd(s3, line, keepnum);
    LastHcdOnlyTrans(s1.pairs, s2.pairs, s3.pairs);
    LastHcdOnlyTrans(s1.pairs, s3.pairs, s4.pairs);
  }

  lemma HeaderIfTouchesLastHcd(st: HcdState, line: string)
    requires HcdHeaderIf(st, line).Some?
    ensures LastHcdOnly(st.pairs, HcdHeaderIf(st, line).value.pairs)
  {
  }

  lemma PeakIfTouchesLastHcd(st: HcdState, line: string, toF: string -> real)
    requires HcdPeakIf(st, line, toF).Some?
    ensures LastHcdOnly(st.pairs, HcdPeakIf(st, line, toF).value.pairs)
  {
  }

  lemma EndIfTouchesLastHcd(st: HcdState, line: string, keepnum: nat)
    requires HcdEndIf(st, line, keepnum).Some?
    ensures LastHcdOnly(st.pairs, HcdEndIf(st, line, keepnum).value.pairs)
  {
  }

  lemma LastHcdOnlyTrans(a: seq<PairV>, b: seq<PairV>, c: seq<PairV>)
    requires LastHcdOnly(a, b) && LastHcdOnly(b, c)
    ensures LastHcdOnly(a, c)
  {
  }

  /** `b` differs from `a` at most in the HCD scan of its last pair. */
  ghost predicate LastHcdOnly(a: seq<PairV>, b: seq<PairV>) {
    && |b| == |a|
    && (forall i | 0 <= i < |b| - 1 :: b[i] == a[i])
    && (forall i | 0 <= i < |b| :: b[i].etd == a[i].etd)
  }

  /**
   * HCD loading adds one pair per `BEGIN IONS` line, leaves every pair but
   * the last it started with untouched, and never touches an ETD scan.
   */
  lemma {:induction false} HcdRunShape(st: HcdState, lines: seq<string>, keepnum: nat, toF: string -> real)
    requires HcdRun(st, lines, keepnum, toF).Some?
    ensures var r := HcdRun(st, lines, keepnum, toF).value;
      && |r.pairs| == |st.pairs| + BeginCount(lines)
      && (forall i | 0 <= i < |st.pairs| - 1 :: r.pairs[i] == st.pairs[i])
      && (forall i | 0 <= i < |r.pairs| :: r.pairs[i].etd == (if i < |st.pairs| then st.pairs[i].etd else EmptyScan))
    decreases |lines|
  {
    if lines != [] {
      var s := HcdStep(st, lines[0], keepnum, toF).value;
      HcdStepShape(st, lines[0], keepnum, toF);
      HcdRunShape(s, lines[1..], keepnum, toF);
    }
  }

  // =====================================================================
  // load_ETD_scans

  /**
   * The ETD loader's state: the pairs, its local `params` Hash, the pair
   * `pair` points at (a position), and the positions whose ETD scan holds
   * the current Hash (installed there by `END IONS`, so shared with it).
   */
  datatype EtdState = EtdState(pairs: seq<PairV>, params: Option<Headers>, cursor: Option<nat>, shared: set<nat>)

  /** `BEGIN IONS`: `params = {}`. */
  function EtdBegin(st: EtdState): EtdState {
    st.(params := Some(map[]), shared := {})
  }

  /** `a[k]` on a Ruby Array of length `n`: a negative `k` counts from the end; out of range is nil. */
  function RubyIndex(k: int, n: nat): (r: Option<nat>)
    ensures r.Some? ==> r.value < n
    ensures 0 <= k < n ==> r == Some(k)
    ensures k >= n ==> r.None?
    ensures k < 0 ==> (r.Some? <==> -k <= n) && (r.Some? ==> r.value - k == n)
  {
    if 0 <= k < n then Some(k)
    else if k < 0 && -k <= n then Some(n + k)
    else None
  }

  /**
   * `TITLE=Scan N `: `pair = @scanpairs[@index[N - 1]]`. A missing entry
   * raises (an Array cannot be indexed by nil); a position past the end
   * selects nil.
   */
  function EtdTitle(st: EtdState, n: nat, index: map<int, int>): Option<EtdState> {
    var hcdScanNum := n - 1;
    if hcdScanNum !in index then None
    else Some(st.(cursor := RubyIndex(index[hcdScanNum], |st.pairs|)))
  }

  /** The current Hash, changed, as every ETD scan that shares it sees it. */
  function ShareBag(ps: seq<PairV>, shared: set<nat>, bag: Headers): (r: seq<PairV>)
    ensures |r| == |ps|
    ensures forall i | 0 <= i < |ps| :: r[i] == if i in shared then ps[i].(etd := ps[i].etd.(params := Some(bag))) else ps[i]
  {
    seq(|ps|, i requires 0 <= i < |ps| => if i in shared then ps[i].(etd := ps[i].etd.(params := Some(bag))) else ps[i])
  }

  /** A `key=value` line: `params[key] = value` (a nil `params` raises). */
  function EtdHeader(st: EtdState, line: string): Option<EtdState>
    requires IsHeaderLine(line)
  {
    HeaderLineHasEquals(line);
    if st.params.None? then None
    else
      var kv := SplitHeader(line);
      var bag := st.params.value[kv.0 := kv.1];
      Some(st.(pairs := ShareBag(st.pairs, st.shared, bag), params := Some(bag)))
  }

  /** A peak line: `pair.etdScan.addPeak(line.split)` (a nil `pair` raises). */
  function EtdPeak(st: EtdState, line: string, toF: string -> real): Option<EtdState> {
    if st.cursor.None? || st.cursor.value >= |st.pairs| then None
    else
      var c := st.cursor.value;
      var e := st.pairs[c].etd;
      Some(st.(pairs := SetEtd(st.pairs, c, e.(data := e.data + [ToPeak(Words(line), toF)]))))
  }

  /** `END IONS`: `pair.etdScan.params = params` (a nil `pair` raises). */
  function EtdEnd(st: EtdState): Option<EtdState> {
    if st.cursor.None? || st.cursor.value >= |st.pairs| then None
    else
      var c := st.cursor.value;
      Some(st.(pairs := SetEtd(st.pairs, c, st.pairs[c].etd.(params := st.params)),
               shared := if st.params.Some? then st.shared + {c} else st.shared))
  }

  /** The first two tests of the loop body: `BEGIN IONS`, then the TITLE that picks the pair. */
  function EtdOpen(st: EtdState, line: string, index: map<int, int>): Option<EtdState> {
    var s1 := if IsBeginLine(line) then EtdBegin(st) else st;
    match Capture(EtdTitleLine, line)
    case Some(n) => EtdTitle(s1, n, index)
    case None => Some(s1)
  }

  /** The last three tests of the loop body: a header, a peak, `END IONS`. */
  function EtdFill(st: EtdState, line: string, toF: string -> real): Option<EtdState> {
    var s3 := if IsHeaderLine(line) then EtdHeader(st, line) else Some(st);
    if s3.None? then None
    else
      var s4 := if IsPeakLine(line) then EtdPeak(s3.value, line, toF) else s3;
      if s4.None? || !IsEndLine(line) then s4 else EtdEnd(s4.value)
  }

  /** One line: the five tests of the loop body, in order. */
  function EtdStep(st: EtdState, line: string, index: map<int, int>, toF: string -> real): Option<EtdState> {
    match EtdOpen(st, line, index)
    case None => None
    case Some(s2) => EtdFill(s2, line, toF)
  }

  function EtdRun(st: EtdState, lines: seq<string>, index: map<int, int>, toF: string -> real): Option<EtdState>
    decreases |lines|
  {
    if lines == [] then Some(st)
    else match EtdStep(st, lines[0], index, toF)
      case None => None
      case Some(s) => EtdRun(s, lines[1..], index, toF)
  }

  /** Same number of pairs, same HCD scans. */
  ghost predicate SameHcd(a: seq<PairV>, b: seq<PairV>) {
    |a| == |b| && forall i | 0 <= i < |a| :: a[i].hcd == b[i].hcd
  }

  lemma EtdHeaderShape(st: EtdState, line: string)
    requires IsHeaderLine(line) && EtdHeader(st, line).Some?
    ensures SameHcd(st.pairs, EtdHeader(st, line).value.pairs)
  {
  }

  lemma EtdPeakShape(st: EtdState, line: string, toF: string -> real)
    requires EtdPeak(st, line, toF).Some?
    ensures SameHcd(st.pairs, EtdPeak(st, line, toF).value.pairs)
  {
  }

  lemma EtdEndShape(st: EtdState)
    requires EtdEnd(st).Some?
    ensures SameHcd(st.pairs, EtdEnd(st).value.pairs)
  {
  }

  lemma EtdStepShape(st: EtdState, line: string, index: map<int, int>, toF: string -> real)
    requires EtdStep(st, line, index, toF).Some?
    ensures var s := EtdStep(st, line, index, toF).value;
      |s.pairs| == |st.pairs| && forall i | 0 <= i < |st.pairs| :: s.pairs[i].hcd == st.pairs[i].hcd
  {
    var s2 := EtdOpen(st, line, index).value;
    assert s2.pairs == st.pairs;
    var s3 := if IsHeaderLine(line) then EtdHeader(s2, line) else Some(s2);
    if IsHeaderLine(line) {
      EtdHeaderShape(s2, line);
    }
    var s4 := if IsPeakLine(line) then EtdPeak(s3.value, line, toF) else s3;
    if IsPeakLine(line) {
      EtdPeakShape(s3.value, line, toF);
    }
    if IsEndLine(line) {
      EtdEndShape(s4.value);
    }
  }

  /** ETD loading neither adds nor removes a pair, and never touches an HCD scan. */
  lemma {:induction false} EtdRunShape(st: EtdState, lines: seq<string>, index: map<int, int>, toF: string -> real)
    requires EtdRun(st, lines, index, toF).Some?
    ensures var r := EtdRun(st, lines, index, toF).value;
      |r.pairs| == |st.pairs| && forall i | 0 <= i < |st.pairs| :: r.pairs[i].hcd == st.pairs[i].hcd
    decreases |lines|
  {
    if lines != [] {
      var s := EtdStep(st, lines[0], index, toF).value;
      EtdStepShape(st, lines[0], index, toF);
      EtdRunShape(s, lines[1..], index, toF);
    }
  }

  // =====================================================================
  // The scan-number index

  /** Every pair's HCD scan has its headers installed (`scanNumber` raises otherwise). */
  predicate HcdNumbered(ps: seq<PairV>) {
    forall i | 0 <= i < |ps| :: ps[i].hcd.params.Some?
  }

  function ScanNumbers(ps: seq<PairV>): (ns: seq<int>)
    requires HcdNumbered(ps)
    ensures |ns| == |ps| && forall i | 0 <= i < |ps| :: ns[i] == ps[i].hcd.ScanNumber()
  {
    seq(|ps|, i requires 0 <= i < |ps| && HcdNumbered(ps) => ps[i].hcd.ScanNumber())
  }

  /**
   * `ns.each_with_index {|n, i| index[n] = i }` on an empty Hash: every
   * number maps to the position of its LAST occurrence.
   */
  function PositionIndex(ns: seq<int>): (m: map<int, int>)
    ensures forall n :: n in m <==> n in ns
    ensures forall n | n in m :: 0 <= m[n] < |ns| && ns[m[n]] == n
    ensures forall n | n in m :: forall j | m[n] < j < |ns| :: ns[j] != n
  {
    if ns == [] then map[]
    else
      var front := ns[..|ns| - 1];
      assert ns == front + [ns[|ns| - 1]];
      PositionIndex(front)[ns[|ns| - 1] := |ns| - 1]
  }

  /** One more `index[n] = i` step of `each_with_index`. */
  lemma PositionIndexStep(ns: seq<int>, i: nat)
    requires i < |ns|
    ensures PositionIndex(ns[..i + 1]) == PositionIndex(ns[..i])[ns[i] := i]
  {
    assert ns[..i + 1][..i] == ns[..i];
  }

  // =====================================================================
  // The two delete_if passes

  /** The block given to `delete_if`: the constructor's sanity check, or `filter_for`'s ion test. */
  datatype Rule =
    | SanityCheck(toF: string -> real)
    | IonFilter(mz: real, tol: real)

  /** The block runs without raising on this pair. */
  predicate Defined(rule: Rule, p: PairV) {
    match rule
    case SanityCheck(_) =>
      p.hcd.data == [] || p.etd.data == []
      || (p.hcd.params.Some? && "PEPMASS" in p.hcd.params.value
          && p.etd.params.Some? && "PEPMASS" in p.etd.params.value)
    case IonFilter(_, _) => p.hcd.data != [] && HasMz(p.hcd.data)
  }

  /** The block answers true: the pair is deleted. */
  predicate Drops(rule: Rule, p: PairV)
    requires Defined(rule, p)
  {
    match rule
    case SanityCheck(toF) =>
      p.hcd.data == [] || p.etd.data == []
      || Abs(p.hcd.Precursor(toF) - p.etd.Precursor(toF)) > 10.0
    case IonFilter(mz, tol) => !p.hcd.HasIon(mz, tol)
  }

  predicate AllDefined(rule: Rule, ps: seq<PairV>) {
    forall i | 0 <= i < |ps| :: Defined(rule, ps[i])
  }

  /** What `delete_if` leaves: the pairs the block keeps, in their order. */
  function Kept(ps: seq<PairV>, rule: Rule): (r: seq<PairV>)
    requires AllDefined(rule, ps)
    ensures |r| <= |ps|
  {
    if ps == [] then []
    else (if Drops(rule, ps[0]) then [] else [ps[0]]) + Kept(ps[1..], rule)
  }

  /** `KeptAppend` on a prefix of a list. */
  lemma KeptPrefixStep(ps: seq<PairV>, i: nat, rule: Rule)
    requires AllDefined(rule, ps) && i < |ps|
    ensures AllDefined(rule, ps[..i + 1])
    ensures Kept(ps[..i + 1], rule) == Kept(ps[..i], rule) + (if Drops(rule, ps[i]) then [] else [ps[i]])
  {
    assert ps[..i + 1] == ps[..i] + [ps[i]];
    KeptAppend(ps[..i], ps[i], rule);
  }

  /** `delete_if` decides pair by pair: one more pair at the end adds at most that pair. */
  lemma {:induction false} KeptAppend(ps: seq<PairV>, p: PairV, rule: Rule)
    requires AllDefined(rule, ps) && Defined(rule, p)
    ensures AllDefined(rule, ps + [p])
    ensures Kept(ps + [p], rule) == Kept(ps, rule) + (if Drops(rule, p) then [] else [p])
  {
    assert AllDefined(rule, ps + [p]) by {
      forall i | 0 <= i < |ps| + 1
        ensures Defined(rule, (ps + [p])[i])
      {
        if i < |ps| {
          assert (ps + [p])[i] == ps[i];
        }
      }
    }
    if ps == [] {
      assert ps + [p] == [p] && [p][1..] == [];
    } else {
      var head := if Drops(rule, ps[0]) then [] else [ps[0]];
      var tail := if Drops(rule, p) then [] else [p];
      assert (ps + [p])[0] == ps[0] && (ps + [p])[1..] == ps[1..] + [p];
      assert AllDefined(rule, ps[1..]) by {
        forall i | 0 <= i < |ps| - 1
          ensures Defined(rule, ps[1..][i])
        {
          assert ps[1..][i] == ps[i + 1];
        }
      }
      KeptAppend(ps[1..], p, rule);
      assert Kept(ps + [p], rule) == head + (Kept(ps[1..], rule) + tail);
      ConcatAssoc(head, Kept(ps[1..], rule), tail);
    }
  }

  /** Whether the block keeps each pair. */
  function KeepMask(ps: seq<PairV>, rule: Rule): (m: seq<bool>)
    requires AllDefined(rule, ps)
    ensures |m| == |ps| && forall i | 0 <= i < |ps| :: m[i] == !Drops(rule, ps[i])
  {
    seq(|ps|, i requires 0 <= i < |ps| && AllDefined(rule, ps) => !Drops(rule, ps[i]))
  }

  /** The elements whose mask entry is true, in order. */
  function Select<T>(xs: seq<T>, mask: seq<bool>): seq<T>
    requires |mask| == |xs|
  {
    if xs == [] then [] else (if mask[0] then [xs[0]] else []) + Select(xs[1..], mask[1..])
  }

  /** The positions of the true entries, counted from `from`, ascending. */
  function PositionsFrom(mask: seq<bool>, from: nat): (pos: seq<nat>)
    ensures forall k | 0 <= k < |pos| :: from <= pos[k] < from + |mask|
  {
    if mask == [] then [] else (if mask[0] then [from] else []) + PositionsFrom(mask[1..], from + 1)
  }

  /** `r` is `xs` (whose first position is `from`) read at positions `pos`. */
  ghost predicate AtPositions<T>(r: seq<T>, pos: seq<nat>, xs: seq<T>, from: nat) {
    |pos| == |r| && forall k | 0 <= k < |pos| :: from <= pos[k] < from + |xs| && r[k] == xs[pos[k] - from]
  }

  ghost predicate Ascending(pos: seq<nat>) {
    forall k, l | 0 <= k < l < |pos| :: pos[k] < pos[l]
  }

  /** Position `from + i` is listed exactly when the mask's entry `i` is true. */
  ghost predicate ListsTrue(pos: seq<nat>, mask: seq<bool>, from: nat) {
    forall i | 0 <= i < |mask| :: from + i in pos <==> mask[i]
  }

  lemma AtPositionsCons<T>(r: seq<T>, pos: seq<nat>, xs: seq<T>, from: nat, keep: bool)
    requires xs != [] && AtPositions(r, pos, xs[1..], from + 1)
    ensures AtPositions((if keep then [xs[0]] else []) + r, (if keep then [from] else []) + pos, xs, from)
  {
    var r2, pos2 := (if keep then [xs[0]] else []) + r, (if keep then [from] else []) + pos;
    var d := if keep then 1 else 0;
    forall k | 0 <= k < |pos2|
      ensures from <= pos2[k] < from + |xs| && r2[k] == xs[pos2[k] - from]
    {
      if k >= d {
        assert r2[k] == r[k - d] && pos2[k] == pos[k - d];
      }
    }
  }

  lemma AscendingCons(pos: seq<nat>, from: nat, keep: bool)
    requires Ascending(pos) && forall k | 0 <= k < |pos| :: from < pos[k]
    ensures Ascending((if keep then [from] else []) + pos)
  {
    var pos2 := (if keep then [from] else []) + pos;
    var d := if keep then 1 else 0;
    forall k, l | 0 <= k < l < |pos2|
      ensures pos2[k] < pos2[l]
    {
      assert pos2[l] == pos[l - d];
      if k >= d {
        assert pos2[k] == pos[k - d];
      }
    }
  }

  lemma ListsTrueCons(pos: seq<nat>, mask: seq<bool>, from: nat)
    requires mask != [] && ListsTrue(pos, mask[1..], from + 1)
    requires forall k | 0 <= k < |pos| :: from < pos[k]
    ensures ListsTrue((if mask[0] then [from] else []) + pos, mask, from)
  {
    var pos2 := (if mask[0] then [from] else []) + pos;
    forall i | 0 <= i < |mask|
      ensures from + i in pos2 <==> mask[i]
    {
      if i > 0 {
        assert mask[i] == mask[1..][i - 1];
        assert from + i in pos2 <==> from + 1 + (i - 1) in pos;
      } else {
        assert from !in pos;
      }
    }
  }

  /** Selecting by a mask reads the sequence at the mask's true positions, ascending, and at no other. */
  lemma {:induction false} SelectAtTruePositions<T>(xs: seq<T>, mask: seq<bool>, from: nat)
    requires |mask| == |xs|
    ensures var pos := PositionsFrom(mask, from);
      AtPositions(Select(xs, mask), pos, xs, from) && Ascending(pos) && ListsTrue(pos, mask, from)
  {
    if xs != [] {
      SelectAtTruePositions(xs[1..], mask[1..], from + 1);
      var pos := PositionsFrom(mask[1..], from + 1);
      AtPositionsCons(Select(xs[1..], mask[1..]), pos, xs, from, mask[0]);
      AscendingCons(pos, from, mask[0]);
      ListsTrueCons(pos, mask, from);
    }
  }

  lemma {:induction false} KeptIsSelect(ps: seq<PairV>, rule: Rule)
    requires AllDefined(rule, ps)
    ensures Kept(ps, rule) == Select(ps, KeepMask(ps, rule))
  {
    if ps != [] {
      KeptIsSelect(ps[1..], rule);
      assert KeepMask(ps, rule)[1..] == KeepMask(ps[1..], rule);
    }
  }

  /** The positions of the pairs the block keeps, ascending. */
  function KeptPositions(ps: seq<PairV>, rule: Rule): seq<nat>
    requires AllDefined(rule, ps)
  {
    PositionsFrom(KeepMask(ps, rule), 0)
  }

  /**
   * `delete_if` is an order-preserving deletion: what is left is the
   * original sequence at strictly increasing positions, and a position is
   * among them exactly when the block keeps its pair.
   */
  lemma KeptIsOrderedSelection(ps: seq<PairV>, rule: Rule)
    requires AllDefined(rule, ps)
    ensures var r, pos := Kept(ps, rule), KeptPositions(ps, rule);
      && |pos| == |r|
      && (forall k | 0 <= k < |pos| :: pos[k] < |ps| && r[k] == ps[pos[k]])
      && (forall k, l | 0 <= k < l < |pos| :: pos[k] < pos[l])
      && (forall i | 0 <= i < |ps| :: i in pos <==> !Drops(rule, ps[i]))
  {
    KeptIsSelect(ps, rule);
    SelectAtTruePositions(ps, KeepMask(ps, rule), 0);
    var pos := KeptPositions(ps, rule);
    assert ListsTrue(pos, KeepMask(ps, rule), 0);
    forall i | 0 <= i < |ps|
      ensures i in pos <==> !Drops(rule, ps[i])
    {
      assert 0 + i == i;
    }
  }

  /** Every pair `delete_if` leaves is one the block keeps. */
  lemma {:induction false} KeptAreKept(ps: seq<PairV>, rule: Rule)
    requires AllDefined(rule, ps)
    ensures var r := Kept(ps, rule);
      AllDefined(rule, r) && forall k | 0 <= k < |r| :: !Drops(rule, r[k])
  {
    KeptIsOrderedSelection(ps, rule);
  }

  /** After the sanity pass every pair has HCD and ETD peaks and precursors at most 10.0 apart. */
  lemma SanityKeepsOnlySanePairs(ps: seq<PairV>, toF: string -> real)
    requires AllDefined(SanityCheck(toF), ps)
    ensures forall p | p in Kept(ps, SanityCheck(toF)) ::
      && p.hcd.data != [] && p.etd.data != []
      && p.hcd.params.Some? && "PEPMASS" in p.hcd.params.value
      && p.etd.params.Some? && "PEPMASS" in p.etd.params.value
      && Abs(p.hcd.Precursor(toF) - p.etd.Precursor(toF)) <= 10.0
  {
    KeptAreKept(ps, SanityCheck(toF));
  }

  /** Pairs whose HCD scan has a peak near every target (m/z, tolerance). */
  predicate HasAllIons(p: PairV, targets: seq<(real, real)>)
    requires p.hcd.data != [] && HasMz(p.hcd.data)
  {
    forall t | t in targets :: p.hcd.HasIon(t.0, t.1)
  }

  function WithAllIons(ps: seq<PairV>, targets: seq<(real, real)>): seq<PairV>
    requires AllDefined(IonFilter(0.0, 0.0), ps)
  {
    if ps == [] then []
    else (if HasAllIons(ps[0], targets) then [ps[0]] else []) + WithAllIons(ps[1..], targets)
  }

  /** `filter_for` once per target, in order. */
  function FilterForEach(ps: seq<PairV>, targets: seq<(real, real)>): seq<PairV>
    requires AllDefined(IonFilter(0.0, 0.0), ps)
    decreases |targets|
  {
    if targets == [] then ps
    else
      KeptAreKept(ps, IonFilter(targets[0].0, targets[0].1));
      FilterForEach(Kept(ps, IonFilter(targets[0].0, targets[0].1)), targets[1..])
  }

  lemma {:induction false} WithAllIonsAfterOne(ps: seq<PairV>, t: (real, real), targets: seq<(real, real)>)
    requires AllDefined(IonFilter(0.0, 0.0), ps)
    ensures AllDefined(IonFilter(0.0, 0.0), Kept(ps, IonFilter(t.0, t.1)))
    ensures WithAllIons(Kept(ps, IonFilter(t.0, t.1)), targets) == WithAllIons(ps, [t] + targets)
  {
    KeptAreKept(ps, IonFilter(t.0, t.1));
    if ps != [] {
      var f := IonFilter(t.0, t.1);
      WithAllIonsAfterOne(ps[1..], t, targets);
      var p := ps[0];
      assert HasAllIons(p, [t] + targets) <==> p.hcd.HasIon(t.0, t.1) && HasAllIons(p, targets) by {
        assert forall u | u in [t] + targets :: u == t || u in targets;
      }
      var k' := Kept(ps[1..], f);
      if Drops(f, p) {
        assert Kept(ps, f) == k';
      } else {
        assert Kept(ps, f) == [p] + k';
        assert ([p] + k')[1..] == k';
      }
    }
  }

  /**
   * Filtering once per target keeps exactly the pairs whose HCD scan has
   * every target ion, in their order: repeated `filter_for` is a logical AND.
   */
  lemma {:induction false} FilterForEachKeepsPairsWithAllIons(ps: seq<PairV>, targets: seq<(real, real)>)
    requires AllDefined(IonFilter(0.0, 0.0), ps)
    ensures FilterForEach(ps, targets) == WithAllIons(ps, targets)
    decreases |targets|
  {
    if targets == [] {
      WithNoIonsKeepsAll(ps);
    } else {
      var t := targets[0];
      WithAllIonsAfterOne(ps, t, targets[1..]);
      FilterForEachKeepsPairsWithAllIons(Kept(ps, IonFilter(t.0, t.1)), targets[1..]);
      assert [t] + targets[1..] == targets;
    }
  }

  lemma {:induction false} WithNoIonsKeepsAll(ps: seq<PairV>)
    requires AllDefined(IonFilter(0.0, 0.0), ps)
    ensures WithAllIons(ps, []) == ps
  {
    if ps != [] {
      WithNoIonsKeepsAll(ps[1..]);
    }
  }

  // =====================================================================
  // KatiKrunch.new

  datatype Krunched = Krunched(pairs: seq<PairV>, index: map<int, int>)

  const NoHcdYet := HcdState([], None, false)

  /**
   * The constructor: load the HCD file, index the pairs by HCD scan number,
   * load the ETD file, then delete the pairs that fail the sanity check.
   * `None` when any step raises.
   */
  function Construct(hcdLines: seq<string>, etdLines: seq<string>, keepnum: nat, toF: string -> real): Option<Krunched> {
    match HcdRun(NoHcdYet, hcdLines, keepnum, toF)
    case None => None
    case Some(h) =>
      if !HcdNumbered(h.pairs) then None
      else
        var index := PositionIndex(ScanNumbers(h.pairs));
        match EtdRun(EtdState(h.pairs, None, None, {}), etdLines, index, toF)
        case None => None
        case Some(e) =>
          if !AllDefined(SanityCheck(toF), e.pairs) then None
          else Some(Krunched(Kept(e.pairs, SanityCheck(toF)), index))
  }

  /** The steps `Construct` takes when none of them raises. */
  lemma ConstructSteps(hcdLines: seq<string>, etdLines: seq<string>, keepnum: nat, toF: string -> real)
    requires Construct(hcdLines, etdLines, keepnum, toF).Some?
    ensures HcdRun(NoHcdYet, hcdLines, keepnum, toF).Some?
    ensures var h := HcdRun(NoHcdYet, hcdLines, keepnum, toF).value;
      && HcdNumbered(h.pairs)
      && var index := PositionIndex(ScanNumbers(h.pairs));
      && EtdRun(EtdState(h.pairs, None, None, {}), etdLines, index, toF).Some?
      && var e := EtdRun(EtdState(h.pairs, None, None, {}), etdLines, index, toF).value;
      && AllDefined(SanityCheck(toF), e.pairs)
      && Construct(hcdLines, etdLines, keepnum, toF).value == Krunched(Kept(e.pairs, SanityCheck(toF)), index)
  {
  }


  // =====================================================================
  // What filter_for needs of the constructor's pairs

  /** Every HCD peak has an m/z, which `has_ion` reads as `p[0]`. */
  predicate HcdPeaksHaveMz(ps: seq<PairV>) {
    forall i | 0 <= i < |ps| :: HasMz(ps[i].hcd.data)
  }

  /** `filter_for` runs without raising: every HCD scan has peaks, each with an m/z. */
  predicate IonReady(ps: seq<PairV>) {
    forall i | 0 <= i < |ps| :: ps[i].hcd.data != [] && HasMz(ps[i].hcd.data)
  }

  lemma HeaderIfKeepsMz(st: HcdState, line: string)
    requires HcdPeaksHaveMz(st.pairs) && HcdHeaderIf(st, line).Some?
    ensures HcdPeaksHaveMz(HcdHeaderIf(st, line).value.pairs)
  {
  }

  lemma PeakIfKeepsMz(st: HcdState, line: string, toF: string -> real)
    requires HcdPeaksHaveMz(st.pairs) && HcdPeakIf(st, line, toF).Some?
    ensures HcdPeaksHaveMz(HcdPeakIf(st, line, toF).value.pairs)
  {
    if IsPeakLine(line) {
      PeakLineWords(line);
      var n := |st.pairs|;
      var h := st.pairs[n - 1].hcd;
      var d := h.data + [ToPeak(Words(line), toF)];
      assert HasMz(d) by {
        forall k | 0 <= k < |d|
          ensures |d[k]| >= 1
        {
          if k < |h.data| {
            assert d[k] == h.data[k];
          }
        }
      }
    }
  }

  lemma EndIfKeepsMz(st: HcdState, line: string, keepnum: nat)
    requires HcdPeaksHaveMz(st.pairs) && HcdEndIf(st, line, keepnum).Some?
    ensures HcdPeaksHaveMz(HcdEndIf(st, line, keepnum).value.pairs)
  {
    if IsEndLine(line) {
      var h := st.pairs[|st.pairs| - 1].hcd;
      AbundanceFilterKeepsMz(h.data, keepnum);
    }
  }

  /** `load_HCD_scans` gives every HCD peak an m/z: a peak line has at least one field. */
  lemma HcdStepKeepsMz(st: HcdState, line: string, keepnum: nat, toF: string -> real)
    requires HcdPeaksHaveMz(st.pairs) && HcdStep(st, line, keepnum, toF).Some?
    ensures HcdPeaksHaveMz(HcdStep(st, line, keepnum, toF).value.pairs)
  {
    var s1 := HcdBeginIf(st, line);
    var s2 := HcdHeaderIf(s1, line).value;
    var s3 := HcdPeakIf(s2, line, toF).value;
    var s4 := HcdEndIf(s3, line, keepnum).value;
    assert HcdStep(st, line, keepnum, toF) == Some(s4);
    HeaderIfKeepsMz(s1, line);
    PeakIfKeepsMz(s2, line, toF);
    EndIfKeepsMz(s3, line, keepnum);
  }

  lemma {:induction false} HcdRunKeepsMz(st: HcdState, lines: seq<string>, keepnum: nat, toF: string -> real)
    requires HcdPeaksHaveMz(st.pairs) && HcdRun(st, lines, keepnum, toF).Some?
    ensures HcdPeaksHaveMz(HcdRun(st, lines, keepnum, toF).value.pairs)
    decreases |lines|
  {
    if lines != [] {
      var s := HcdStep(st, lines[0], keepnum, toF).value;
      HcdStepKeepsMz(st, lines[0], keepnum, toF);
      HcdRunKeepsMz(s, lines[1..], keepnum, toF);
    }
  }

  /** The sanity pass keeps only pairs with HCD peaks; the ones it keeps are unchanged. */
  lemma SanityMakesIonReady(ps: seq<PairV>, toF: string -> real)
    requires AllDefined(SanityCheck(toF), ps) && HcdPeaksHaveMz(ps)
    ensures IonReady(Kept(ps, SanityCheck(toF)))
  {
    var r := Kept(ps, SanityCheck(toF));
    KeptIsOrderedSelection(ps, SanityCheck(toF));
    SanityKeepsOnlySanePairs(ps, toF);
    forall i | 0 <= i < |r|
      ensures r[i].hcd.data != [] && HasMz(r[i].hcd.data)
    {
      assert r[i] in r;
    }
  }

  /**
   * The pairs `KatiKrunch.new` leaves can all be given to `filter_for`,
   * whatever its m/z and tolerance.
   */
  lemma ConstructIonReady(hcdLines: seq<string>, etdLines: seq<string>, keepnum: nat, toF: string -> real)
    requires Construct(hcdLines, etdLines, keepnum, toF).Some?
    ensures IonReady(Construct(hcdLines, etdLines, keepnum, toF).value.pairs)
  {
    ConstructSteps(hcdLines, etdLines, keepnum, toF);
    var h := HcdRun(NoHcdYet, hcdLines, keepnum, toF).value;
    HcdRunKeepsMz(NoHcdYet, hcdLines, keepnum, toF);
    var index := PositionIndex(ScanNumbers(h.pairs));
    var st := EtdState(h.pairs, None, None, {});
    var e := EtdRun(st, etdLines, index, toF).value;
    EtdRunShape(st, etdLines, index, toF);
    assert HcdPeaksHaveMz(e.pairs);
    SanityMakesIonReady(e.pairs, toF);
  }

  /** Ready pairs meet `filter_for`'s demand, for every m/z and tolerance. */
  lemma IonReadyFilterable(ps: seq<PairV>, mz: real, tol: real)
    requires IonReady(ps)
    ensures AllDefined(IonFilter(mz, tol), ps)
  {
  }

  /** `filter_for` leaves ready pairs, so the calls chain. */
  lemma FilterKeepsIonReady(ps: seq<PairV>, mz: real, tol: real)
    requires IonReady(ps)
    ensures IonReady(Kept(ps, IonFilter(mz, tol)))
  {
    KeptAreKept(ps, IonFilter(mz, tol));
  }
}
