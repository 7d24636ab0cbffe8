/**
 * `Scan` and `ScanPair`. A scan's header bag is a Ruby Hash that the loaders
 * fill and install on scans by reference, so it is an object (`Bag`) here
 * too; `ScanV` and `PairV` are snapshots of a scan and a pair as values.
 */
module Scans {
  import opened Base
  import opened Text
  import opened Peaks

  type Headers = map<string, string>

  /**
   * A scan as a value: its header bag (None while `@params` is nil) and its
   * peak list. An empty `data` stands for a nil `@data`: `addPeak` is the only
   * way peaks arrive and it never leaves the list empty.
   */
  datatype ScanV = ScanV(params: Option<Headers>, data: seq<Peak>) {

    /** `has_ion(mz, tol)`; raises on a nil peak list. */
    function HasIon(mz: real, tol: real): (r: bool)
      requires data != [] && HasMz(data)
      ensures r <==> exists k | 0 <= k < |data| :: Abs(data[k][0] - mz) < tol
    {
      AnyNear(data, mz, tol)
    }

    /** `precursor`: the first word of the PEPMASS value through `to_f` (nil.to_f is 0.0). */
    function Precursor(toF: string -> real): real
      requires params.Some? && "PEPMASS" in params.value
    {
      var ws := Words(params.value["PEPMASS"]);
      if ws == [] then 0.0 else toF(ws[0])
    }

    /** `scanNumber`: the digits after "Scan " in TITLE; nil (no TITLE, no match) gives 0. */
    function ScanNumber(): nat
      requires params.Some?
    {
      if "TITLE" !in params.value then 0
      else match Capture(TitleScan, params.value["TITLE"])
        case Some(n) => n
        case None => 0
    }

    /** A header as string interpolation shows it: nil shows as "". */
    function Field(key: string): string
      requires params.Some?
    {
      if key in params.value then params.value[key] else ""
    }

    /** The lines `to_s` writes, each with its line feed. */
    function ToLines(fmt: real -> string): (ls: seq<string>)
      requires params.Some? && data != []
      ensures |ls| == |data| + 6
      ensures forall k | 0 <= k < |data| :: ls[4 + k] == PeakText(data[k], fmt)
      ensures ls[..4] == ["BEGIN IONS\n",
                          "TITLE=" + Field("TITLE") + "\n",
                          "PEPMASS=" + Field("PEPMASS") + "\n",
                          "CHARGE=" + Field("CHARGE") + "\n"]
      ensures ls[|ls| - 2..] == ["END IONS\n", "\n"]
    {
      ["BEGIN IONS\n",
       "TITLE=" + Field("TITLE") + "\n",
       "PEPMASS=" + Field("PEPMASS") + "\n",
       "CHARGE=" + Field("CHARGE") + "\n"]
      + PeakLines(data, fmt)
      + ["END IONS\n", "\n"]
    }

    /** `to_s`: the record as one string. */
    function ToS(fmt: real -> string): string
      requires params.Some? && data != []
    {
      Concat(ToLines(fmt))
    }
  }

  /** `d.join(" ")` followed by a line feed, with `Float#to_s` given as `fmt`. */
  function PeakText(p: Peak, fmt: real -> string): string {
    Join(seq(|p|, k requires 0 <= k < |p| => fmt(p[k])), " ") + "\n"
  }

  function PeakLines(ps: seq<Peak>, fmt: real -> string): (ls: seq<string>)
    ensures |ls| == |ps| && forall k | 0 <= k < |ps| :: ls[k] == PeakText(ps[k], fmt)
  {
    seq(|ps|, k requires 0 <= k < |ps| => PeakText(ps[k], fmt))
  }

  function Concat(ls: seq<string>): string {
    if ls == [] then "" else ls[0] + Concat(ls[1..])
  }

  /**
   * `precursor` reads the first word of PEPMASS, whatever white space
   * surrounds it: a value made of leading white space, a word, and a rest
   * that is empty or starts with white space gives that word through
   * `to_f`; a value of white space alone gives 0.0.
   */
  lemma PrecursorReadsFirstWord(s: ScanV, lead: string, w: string, tail: string, toF: string -> real)
    requires s.params.Some? && "PEPMASS" in s.params.value
    requires s.params.value["PEPMASS"] == lead + w + tail
    requires forall k | 0 <= k < |lead| :: IsSpace(lead[k])
    requires || (w == [] && forall k | 0 <= k < |tail| :: IsSpace(tail[k]))
             || (IsWord(w) && (tail == [] || IsSpace(tail[0])))
    ensures s.Precursor(toF) == if w == [] then 0.0 else toF(w)
  {
    var v := lead + w + tail;
    if w == [] {
      assert v == lead + tail;
      forall k | 0 <= k < |v|
        ensures IsSpace(v[k])
      {
        if k >= |lead| {
          assert v[k] == tail[k - |lead|];
        }
      }
      WordsOfSpaces(v);
    } else {
      assert v == lead + (w + tail);
      WordsAfterSpaces(lead, w + tail);
      WordsOfWordThen(w, tail);
    }
  }

  /**
   * `scanNumber` reads the digits after the first "Scan " followed by a
   * digit in TITLE, through `to_i`.
   */
  lemma ScanNumberReadsTitle(s: ScanV, p: string, d: string, rest: string)
    requires s.params.Some? && "TITLE" in s.params.value
    requires s.params.value["TITLE"] == p + "Scan " + d + rest
    requires d != [] && AllDigits(d)
    requires rest == [] || !IsDigit(rest[0])
    requires forall k | 0 <= k < |p| :: !MatchesAt(TitleScan, p + "Scan " + d + rest, k)
    ensures s.ScanNumber() == DigitsValue(d)
  {
    TitleScanOfDigits(p, d, rest);
  }

  /** With no TITLE, or no "Scan <digits>" in it, `scanNumber` is `nil.to_i`, 0. */
  lemma ScanNumberWithoutMatch(s: ScanV)
    requires s.params.Some?
    requires "TITLE" in s.params.value ==>
      forall k | 0 <= k <= |s.params.value["TITLE"]| :: !MatchesAt(TitleScan, s.params.value["TITLE"], k)
    ensures s.ScanNumber() == 0
  {
  }

  /**
   * A peak line `to_s` writes splits back into the formatted fields, so
   * reading it back with a `to_f` that inverts the formatting gives the
   * peak again.
   */
  lemma PeakTextRoundTrip(p: Peak, fmt: real -> string, toF: string -> real)
    requires forall k | 0 <= k < |p| :: IsWord(fmt(p[k])) && toF(fmt(p[k])) == p[k]
    ensures ToPeak(Words(PeakText(p, fmt)), toF) == p
  {
    var ws := seq(|p|, k requires 0 <= k < |p| => fmt(p[k]));
    forall k | 0 <= k < |ws|
      ensures IsWord(ws[k])
    {
      assert ws[k] == fmt(p[k]);
    }
    assert PeakText(p, fmt) == Join(ws, " ") + "\n";
    WordsOfJoin(ws, "\n");
    var q := ToPeak(ws, toF);
    forall k | 0 <= k < |p|
      ensures q[k] == p[k]
    {
      assert q[k] == toF(fmt(p[k]));
    }
  }

  lemma {:induction false} ConcatAppend(a: seq<string>, b: seq<string>)
    ensures Concat(a + b) == Concat(a) + Concat(b)
    decreases |a|
  {
    if a == [] {
      assert a + b == b;
    } else {
      assert (a + b)[0] == a[0] && (a + b)[1..] == a[1..] + b;
      ConcatAppend(a[1..], b);
      ConcatAssoc(a[0], Concat(a[1..]), Concat(b));
    }
  }

  /** The text `to_s` gives opens with `BEGIN IONS` and closes with `END IONS` and a blank line. */
  lemma ToSFraming(s: ScanV, fmt: real -> string)
    requires s.params.Some? && s.data != []
    ensures var t := s.ToS(fmt);
      |t| >= 21 && t[..11] == "BEGIN IONS\n" && t[|t| - 10..] == "END IONS\n\n"
  {
    var head := ["BEGIN IONS\n",
                 "TITLE=" + s.Field("TITLE") + "\n",
                 "PEPMASS=" + s.Field("PEPMASS") + "\n",
                 "CHARGE=" + s.Field("CHARGE") + "\n"];
    var peaks := PeakLines(s.data, fmt);
    var foot := ["END IONS\n", "\n"];
    assert s.ToLines(fmt) == (head + peaks) + foot;
    ConcatAppend(head + peaks, foot);
    ConcatAppend(head, peaks);
    assert Concat(head) == "BEGIN IONS\n" + Concat(head[1..]);
    assert Concat(foot) == "END IONS\n\n" by {
      assert foot[1..][1..] == [];
    }
    var t := s.ToS(fmt);
    var mid := Concat(head[1..]) + Concat(peaks);
    ConcatAssoc("BEGIN IONS\n", Concat(head[1..]), Concat(peaks));
    assert t == "BEGIN IONS\n" + mid + "END IONS\n\n";
  }

  /** The headers `to_s` writes, in the order it writes them after `BEGIN IONS`. */
  const WrittenKeys: seq<string> := ["TITLE", "PEPMASS", "CHARGE"]

  /**
   * Each header line `to_s` writes splits back into its key and the value
   * the scan shows for it, as long as that value holds no line break.
   */
  lemma ToLinesHeadersReadBack(s: ScanV, fmt: real -> string, j: nat)
    requires s.params.Some? && s.data != [] && j < 3
    requires forall k | 0 <= k < |s.Field(WrittenKeys[j])| :: !IsLineBreak(s.Field(WrittenKeys[j])[k])
    ensures '=' in s.ToLines(fmt)[j + 1]
    ensures SplitHeader(s.ToLines(fmt)[j + 1]) == (WrittenKeys[j], s.Field(WrittenKeys[j]))
  {
    var key, value := WrittenKeys[j], s.Field(WrittenKeys[j]);
    var line := s.ToLines(fmt)[..4][j + 1];
    assert line == key + "=" + value + "\n" by {
      if j == 0 {
        assert line == "TITLE=" + value + "\n";
        assert "TITLE=" == "TITLE" + "=";
      } else if j == 1 {
        assert line == "PEPMASS=" + value + "\n";
        assert "PEPMASS=" == "PEPMASS" + "=";
      } else {
        assert line == "CHARGE=" + value + "\n";
        assert "CHARGE=" == "CHARGE" + "=";
      }
    }
    assert '=' !in key;
    HeaderRoundTrip(key, value);
  }

  /** A `ScanPair` as a value. */
  datatype PairV = PairV(hcd: ScanV, etd: ScanV)

  /** A Ruby Hash of headers, shared by reference between the loader and the scans it is installed on. */
  class Bag {
    var entries: Headers

    constructor ()
      ensures entries == map[]
    {
      entries := map[];
    }
  }

  class Scan {
    var params: Bag?
    var data: seq<Peak>

    constructor ()
      ensures params == null && data == []
    {
      params := null;
      data := [];
    }

    function Value(): ScanV
      reads this, params
    {
      ScanV(if params == null then None else Some(params.entries), data)
    }

    /** `addPeak(xyarr)`: the converted row goes at the end; nothing else changes. */
    method AddPeak(xyarr: seq<string>, toF: string -> real)
      modifies this
      ensures data == old(data) + [ToPeak(xyarr, toF)]
      ensures params == old(params)
    {
      data := data + [ToPeak(xyarr, toF)];
    }

    /**
     * `filter_by_abundance(keepnum)`. It raises on a nil peak list, and its
     * intensity sort raises when a peak lacks an intensity field.
     */
    method FilterByAbundance(keepnum: nat)
      requires data != []
      requires KeepsAll(data, keepnum) || HasIntensity(data)
      modifies this
      ensures data == AbundanceFiltered(old(data), keepnum)
      ensures params == old(params)
    {
      if keepnum > |data| || keepnum == 0 {
        return;
      }
      var byIntensity := SortBy(data, ByIntensityDescending);
      byIntensity := byIntensity[..KeptCount(keepnum, |data|)];
      data := SortBy(byIntensity, ByMzAscending);
    }
  }

  class ScanPair {
    const hcdScan: Scan
    const etdScan: Scan
    var keepMe: bool

    constructor ()
      ensures fresh(hcdScan) && fresh(etdScan) && hcdScan != etdScan
      ensures hcdScan.params == null && hcdScan.data == []
      ensures etdScan.params == null && etdScan.data == []
      ensures !keepMe
    {
      keepMe := false;
      hcdScan := new Scan();
      etdScan := new Scan();
    }

    function Value(): PairV
      reads hcdScan, hcdScan.params, etdScan, etdScan.params
    {
      PairV(hcdScan.Value(), etdScan.Value())
    }
  }
}
