# katiKrunch core in Dafny

katiKrunch reads two MGF peak-list files produced from one tandem mass
spectrometry run, an HCD file and an ETD file. It pairs every HCD scan with
the ETD scan numbered one above it. It keeps only the pairs whose HCD scan
has a peak near each of the target m/z values it is given, and writes those
pairs' ETD scans back out as MGF. This project models the part of
`katiKrunch.rb` that does that work:

- the `Scan` class: `addPeak`, `has_ion`, `precursor`, `scanNumber`,
  `filter_by_abundance` and `to_s`;
- the `ScanPair` class;
- the `KatiKrunch` class: its constructor, `load_HCD_scans`,
  `load_ETD_scans` and `filter_for`.

Files, each one module:

- `base.dfy` (`Base`): `Option`, `Abs` and two sequence helpers.
- `text.dfy` (`Text`): what the loaders do with a line of text.
  - The four line tests, `BEGIN IONS`, `\w+=`, the peak pattern and
    `END IONS`, are written as predicates.
  - The header split at the first `=` is Ruby's `split('=')`, `join('=')`
    and two `chomp`s.
  - Ruby's white-space `split`, `Array#join`, and `to_i` on digits.
  - The two scan-number patterns, with a leftmost-match capture.
- `peaks.dfy` (`Peaks`): peaks as sequences of reals, and the two algorithms
  the scans run on them.
  - The ion test of `has_ion`.
  - The abundance pruning of `filter_by_abundance`: sort by intensity, cut,
    sort by m/z.
- `scans.dfy` (`Scans`): `Scan` and `ScanPair` as classes.
  - The header Hash is a class `Bag`, because the loaders share one Hash
    between the loader and the scan it is installed on.
  - `ScanV` and `PairV` are value snapshots, carrying `has_ion`,
    `precursor`, `scanNumber` and `to_s`.
- `loading.dfy` (`Loading`): both loaders as folds over the input lines.
  - Each fold takes one step per line, and a step that would raise in Ruby
    gives `None`.
  - Also here: the scan-number index, the two `delete_if` passes, and the
    whole constructor as the function `Construct`.
- `records.dfy` (`Records`): what the loaders make of one well-formed record
  (`BEGIN IONS`, headers, peaks, `END IONS`), derived from the folds.
- `krunch.dfy` (`Krunch`): the class `KatiKrunch`, on the heap.
  - Its fields are the array of `ScanPair` objects and the index Hash.
  - Its loops and `delete_if` are proved to do to the pairs what the folds
    in `loading.dfy` say.

Where the code and its documentation differ, the model follows the code:

- `filter_by_abundance` keeps `keepnum + 1` peaks, because the slice
  `0..keepnum` is inclusive.
- A `keepnum` equal to the peak count is not a no-op. The early return is
  only for `keepnum > @data.size`, so the peaks come back re-sorted by m/z
  (`Peaks.AbundanceFilterAtSizeResorts`).
- An ETD record whose HCD partner is missing from the index makes the loader
  raise, because `@scanpairs[nil]` raises. It is not a separate pairing
  error.

Conventions:

- A Ruby exception is a `None` result of the value functions. The heap
  methods require that their step does not raise.
- A nil `@data` is the empty sequence: `addPeak` never leaves it empty.
- A nil `@params` is `None` in a value and `null` on the heap.
- `String#to_f` and `Float#to_s` are parameters `toF` and `fmt`.
- File reading is a sequence of lines, as `IO#each` yields them.

## Model

| member | source | states |
|---|---|---|
| Text.Chomp | katiKrunch.rb:119 | the result is the input minus a suffix that is empty, `\n`, `\r` or `\r\n`; `\r\n` is dropped whole; the input comes back unchanged exactly when it is empty or does not end in a line break |
| Text.SplitHeader | katiKrunch.rb:118-119 | the key taken before the first `=` holds no `=` |
| Text.HeaderLineHasEquals | katiKrunch.rb:117-118 | every line the `\w+=` test accepts contains an `=`, so the split is defined |
| Text.HeaderRebuildsLine | katiKrunch.rb:117-119 | for a line not ending in `=`, `key + "=" + value` is the chomped line and the key holds no `=` |
| Text.HeaderRoundTrip | katiKrunch.rb:117-119 | a line `key=value\n` with no `=` in the key and no line break in the value splits back into exactly `(key, value)` |
| Text.HeaderTrailingEqualsDropped | katiKrunch.rb:118-119 | a final line `key=v` followed by any number of `=`, without a line feed, splits into `(key, v)`: the trailing `=`s are lost, because Ruby's `split` drops empty trailing fields |
| Text.Join | katiKrunch.rb:73 | joining no words gives the empty string; joining one word gives that word |
| Text.Words | katiKrunch.rb:121 | `split` yields only non-empty words without white space |
| Text.WordsAfterSpaces | katiKrunch.rb:45 | leading white space does not change what `split` gives |
| Text.WordsOfJoin | katiKrunch.rb:73 | words joined by single spaces, followed by white space, split back into the same words |
| Text.DecimalRoundTrip | katiKrunch.rb:50 | `to_i` of the decimal numeral of `n` is `n` |
| Text.LeftmostFrom | katiKrunch.rb:49 | the position found is a match with no match before it; no position means no match anywhere after the start |
| Text.LeftmostIsFirst | katiKrunch.rb:49 | a match with no match before it is the one the leftmost search finds |
| Text.TitleScanOfDigits | katiKrunch.rb:49-50 | in a title whose first match is `Scan <digits>`, wherever it stands, the capture is `to_i` of those digits, leading zeros included |
| Text.Capture | katiKrunch.rb:49-50 | the capture is nil exactly when the pattern matches nowhere in the string |
| Text.TitleScanOfNumeral | katiKrunch.rb:49-50 | a title starting `Scan <n>`, followed by a non-digit, captures the number `n` |
| Text.EtdTitleOfNumeral | katiKrunch.rb:136-137 | a line `TITLE=Scan <n> ...` names ETD scan `n` |
| Text.IsBeginLine | katiKrunch.rb:113 | model of the test `line =~ %r{BEGIN IONS}` (no contract; `Records.MarkersAreOnlyMarkers` states its meaning on a marker line) |
| Text.IsHeaderLine | katiKrunch.rb:117 | model of the test `line =~ %r{\w+=}` (no contract; `Text.HeaderLineHasEquals` states what it guarantees) |
| Text.IsPeakLine | katiKrunch.rb:121 | model of the peak-line pattern: a digit, then one or more white-space characters, digits, dots or literal bars, to the end of the line (no contract; `Records.PeakLineIsOnlyPeak` states that such a line passes no other test) |
| Text.IsEndLine | katiKrunch.rb:122 | model of the test `line =~ %r{END IONS}` (no contract; `Records.MarkersAreOnlyMarkers`) |
| Peaks.ToPeak | katiKrunch.rb:36 | the peak has one field per token, each field the token's `to_f` |
| Peaks.AnyNear | katiKrunch.rb:39-42 | true exactly when some peak's m/z is strictly less than `tol` away from `mz` |
| Peaks.AnyNearIsStrict | katiKrunch.rb:40 | boundary example of the strict test: a peak exactly `tol` away on either side of `mz` is not near, and a peak at `mz` itself is near for every positive `tol` |
| Peaks.Insert | katiKrunch.rb:61 | inserting a peak into a list adds exactly that peak to the multiset of peaks |
| Peaks.InsertSorted | katiKrunch.rb:61 | inserting into a list sorted by the comparator's key keeps it sorted |
| Peaks.SortBy | katiKrunch.rb:61-63 | the sort yields a permutation of the peaks, sorted by descending intensity or by ascending m/z |
| Peaks.KeepsAll | katiKrunch.rb:60 | model of the early-return guard: `keepnum > @data.size`, or `keepnum == 0` (no contract; `Peaks.AbundanceFiltered` and `Peaks.AbundanceFilterAtSizeResorts` state its effect) |
| Peaks.KeptCount | katiKrunch.rb:62 | model of how many peaks the inclusive slice `0..keepnum` keeps (no contract; `Peaks.AbundanceFilterKeepsMostIntense` states the count) |
| Peaks.AbundanceFiltered | katiKrunch.rb:59-64 | when `keepnum` is 0 or exceeds the peak count, the peaks are unchanged |
| Peaks.AbundanceFilterKeepsMostIntense | katiKrunch.rb:60-63 | when pruning happens, it keeps `min(keepnum + 1, size)` peaks drawn from the original ones, sorted by m/z, and no dropped peak is more intense than a kept one |
| Peaks.DescendingSplit | katiKrunch.rb:61-62 | cutting an intensity-descending list leaves every kept peak at least as intense as every cut one |
| Peaks.AbundanceFilterAtSizeResorts | katiKrunch.rb:60-63 | with `keepnum` equal to the peak count, every peak is kept and the list comes back sorted by m/z |
| Scans.ScanV.HasIon | katiKrunch.rb:39-42 | true exactly when some peak's m/z is within `tol` of `mz`, with strict inequality |
| Scans.ScanV.ToLines | katiKrunch.rb:71-76 | `to_s` writes `BEGIN IONS`, then TITLE, PEPMASS and CHARGE lines with the scan's values (empty for a missing key), then one line per peak in order, then `END IONS` and an empty line |
| Scans.ToLinesHeadersReadBack | katiKrunch.rb:72 | each header line `to_s` writes splits back into its key and the scan's value for it, provided the value holds no line break |
| Scans.PeakLines | katiKrunch.rb:73 | line `k` is peak `k` joined with spaces, followed by a line feed |
| Scans.PrecursorReadsFirstWord | katiKrunch.rb:44-46 | for any PEPMASS value, written as leading white space, then a word, then a rest that is empty or starts with white space, the precursor is that word through `to_f`; a value of white space alone gives 0.0 |
| Scans.ScanNumberReadsTitle | katiKrunch.rb:48-51 | when the first `Scan <digits>` of TITLE stands anywhere in it, the scan number is `to_i` of those digits |
| Scans.ScanNumberWithoutMatch | katiKrunch.rb:48-51 | with no TITLE, or no `Scan <digits>` in it, the scan number is `nil.to_i`, 0 |
| Scans.ScanV.Precursor | katiKrunch.rb:44-46 | model of `precursor` (no contract; `Scans.PrecursorReadsFirstWord` states its value for every PEPMASS) |
| Scans.ScanV.ScanNumber | katiKrunch.rb:48-51 | model of `scanNumber` (no contract; `Scans.ScanNumberReadsTitle` and `Scans.ScanNumberWithoutMatch` state its value for every TITLE) |
| Scans.ScanV.ToS | katiKrunch.rb:71-76 | model of `to_s` (no contract; `Scans.ScanV.ToLines`, `Scans.ToSFraming` and `Scans.PeakTextRoundTrip` state its layout) |
| Scans.PeakTextRoundTrip | katiKrunch.rb:73 | a peak line `to_s` writes, read back by `split` and `to_f`, gives back the peak |
| Scans.ToSFraming | katiKrunch.rb:71-76 | the record text opens with `BEGIN IONS\n` and closes with `END IONS\n\n` |
| Scans.Bag.constructor | katiKrunch.rb:114 | a fresh header Hash is empty |
| Scans.Scan.AddPeak | katiKrunch.rb:34-37 | the converted row is appended at the end of the peaks; the headers are unchanged |
| Scans.Scan.FilterByAbundance | katiKrunch.rb:59-64 | the peaks become the abundance-filtered list; it raises (is excluded) on nil peaks, or when a sort meets a peak without intensity |
| Scans.ScanPair.constructor | katiKrunch.rb:82-86 | two fresh, distinct scans with no headers and no peaks, and `keepMe` false |
| Loading.RubyIndex | katiKrunch.rb:140 | an index within the array's length selects that element; an index past the end selects nil; a negative one counts from the end |
| Loading.ShareBag | katiKrunch.rb:142-147 | a header change is seen by exactly the ETD scans that share the loader's Hash |
| Loading.HcdBegin | katiKrunch.rb:113-116 | model of the HCD `BEGIN IONS` branch (no contract; `Records.HcdBeginStep` and `Krunch.KatiKrunch.HcdBeginLine`) |
| Loading.HcdHeader | katiKrunch.rb:117-120 | model of the HCD header branch, including the change seen by a scan the Hash is installed on (no contract; `Records.HcdHeadersRun`) |
| Loading.HcdPeak | katiKrunch.rb:121 | model of the HCD peak branch (no contract; `Records.HcdPeaksRun`) |
| Loading.HcdEnd | katiKrunch.rb:122-125 | model of the HCD `END IONS` branch (no contract; `Records.HcdRecordEnds`) |
| Loading.HcdStep | katiKrunch.rb:113-125 | model of one iteration of the HCD loop (no contract; `Loading.HcdStepShape` and the `Records.Hcd*Step` lemmas) |
| Loading.HcdRun | katiKrunch.rb:110-127 | model of `load_HCD_scans` (no contract; `Loading.HcdRunShape` and `Records.HcdRecordLoads` state what it builds) |
| Loading.EtdBegin | katiKrunch.rb:133-135 | model of the ETD `BEGIN IONS` branch (no contract; `Records.EtdBeginStep`) |
| Loading.EtdTitle | katiKrunch.rb:136-141 | model of the TITLE branch that picks the pair (no contract; `Records.EtdTitleStep` and `Records.EtdRecordFindsHcdPartner`) |
| Loading.EtdHeader | katiKrunch.rb:142-145 | model of the ETD header branch (no contract; `Records.EtdHeadersRun` and `Loading.ShareBag`) |
| Loading.EtdPeak | katiKrunch.rb:146 | model of the ETD peak branch (no contract; `Records.EtdPeaksRun`) |
| Loading.EtdEnd | katiKrunch.rb:147 | model of the ETD `END IONS` branch (no contract; `Records.EtdEndStep`) |
| Loading.EtdOpen | katiKrunch.rb:133-141 | model of the first two tests of an ETD iteration (no contract; `Records.EtdOpenRun`) |
| Loading.EtdFill | katiKrunch.rb:142-147 | model of the last three tests of an ETD iteration (no contract; `Records.EtdBodyRun`) |
| Loading.EtdStep | katiKrunch.rb:133-147 | model of one iteration of the ETD loop (no contract; `Loading.EtdStepShape` and the `Records.Etd*Step` lemmas) |
| Loading.EtdRun | katiKrunch.rb:129-149 | model of `load_ETD_scans` (no contract; `Loading.EtdRunShape` and `Records.EtdRecordLoads` state what it does) |
| Loading.HcdStepShape | katiKrunch.rb:113-125 | one HCD line adds a pair exactly when it is a `BEGIN IONS` line, touches only the last pair's HCD scan, and no ETD scan |
| Loading.HeaderIfTouchesLastHcd | katiKrunch.rb:117-120 | a header line changes at most the last pair's HCD scan |
| Loading.PeakIfTouchesLastHcd | katiKrunch.rb:121 | a peak line changes at most the last pair's HCD scan |
| Loading.EndIfTouchesLastHcd | katiKrunch.rb:122-125 | `END IONS` changes at most the last pair's HCD scan |
| Loading.HcdRunShape | katiKrunch.rb:110-127 | HCD loading adds one pair per `BEGIN IONS` line, leaves the earlier pairs alone, and gives new pairs an empty ETD scan |
| Loading.EtdHeaderShape | katiKrunch.rb:142-145 | an ETD header line changes no HCD scan |
| Loading.EtdPeakShape | katiKrunch.rb:146 | an ETD peak line changes no HCD scan |
| Loading.EtdEndShape | katiKrunch.rb:147 | an ETD `END IONS` changes no HCD scan |
| Loading.EtdStepShape | katiKrunch.rb:133-147 | one ETD line keeps the number of pairs and every HCD scan |
| Loading.EtdRunShape | katiKrunch.rb:129-149 | ETD loading neither adds nor removes pairs and never changes an HCD scan |
| Loading.ScanNumbers | katiKrunch.rb:94 | entry `i` is the scan number of pair `i`'s HCD scan |
| Loading.PositionIndex | katiKrunch.rb:94 | the index holds exactly the scan numbers that occur; each maps to a position holding that number, and to the last such position |
| Loading.PositionIndexStep | katiKrunch.rb:94 | proof helper: one more `each_with_index` step overwrites the entry for that number with that position; this is the recursive case of `PositionIndex`, in prefix form |
| Loading.Defined | katiKrunch.rb:97 | when the `delete_if` blocks run without raising (no contract; the heap methods require it) |
| Loading.Drops | katiKrunch.rb:97 | model of the two `delete_if` blocks, the sanity test at line 97 and the ion test at line 152 (no contract; `Loading.SanityKeepsOnlySanePairs` and `Loading.FilterForEachKeepsPairsWithAllIons`) |
| Loading.Kept | katiKrunch.rb:97 | `delete_if` never makes the list longer |
| Loading.KeptPrefixStep | katiKrunch.rb:97 | deciding one more pair of a prefix adds that pair exactly when the block keeps it |
| Loading.KeptAppend | katiKrunch.rb:97 | `delete_if` decides pair by pair: one more pair at the end adds that pair exactly when the block keeps it |
| Loading.KeepMask | katiKrunch.rb:97 | entry `i` says whether the block keeps pair `i` |
| Loading.KeptIsSelect | katiKrunch.rb:97 | `delete_if` keeps exactly the pairs the mask marks |
| Loading.KeptIsOrderedSelection | katiKrunch.rb:97 | what is left is the original at strictly increasing positions, and a position is among them exactly when the block keeps its pair |
| Loading.KeptAreKept | katiKrunch.rb:97 | every pair left is one the block keeps |
| Loading.SanityKeepsOnlySanePairs | katiKrunch.rb:96-97 | after the sanity pass, every pair has HCD and ETD peaks, and precursors at most 10.0 apart |
| Loading.WithAllIonsAfterOne | katiKrunch.rb:151-153 | filtering for one ion, then requiring the rest, is requiring all of them |
| Loading.FilterForEachKeepsPairsWithAllIons | katiKrunch.rb:151-153 | calling `filter_for` once per target keeps exactly the pairs whose HCD scan has every target ion, in order |
| Text.PeakLineWords | katiKrunch.rb:121 | a peak line yields at least one field when split, so every peak `addPeak` stores has an m/z |
| Peaks.AbundanceFilterKeepsMz | katiKrunch.rb:59-64 | pruning keeps every peak's m/z field |
| Loading.HcdStepKeepsMz | katiKrunch.rb:112-125 | one line of HCD loading keeps every HCD peak with an m/z |
| Loading.HcdRunKeepsMz | katiKrunch.rb:110-127 | after HCD loading every HCD peak has an m/z |
| Loading.SanityMakesIonReady | katiKrunch.rb:96-97 | after the sanity pass every HCD scan has peaks, each with an m/z |
| Loading.ConstructIonReady | katiKrunch.rb:90-98 | the pairs `initialize` leaves meet what `filter_for` needs: HCD peaks, each with an m/z |
| Loading.IonReadyFilterable | katiKrunch.rb:152 | on such pairs the `has_ion` block runs without raising, for every m/z and tolerance |
| Loading.FilterKeepsIonReady | katiKrunch.rb:151-153 | the pairs `filter_for` leaves still meet what the next call needs |
| Loading.WithNoIonsKeepsAll | katiKrunch.rb:151-153 | requiring no ions keeps every pair |
| Loading.ConstructSteps | katiKrunch.rb:90-98 | proof helper: when `Construct` does not raise, each of its stages does not raise either, and its result is the last stage's |
| Loading.Construct | katiKrunch.rb:90-98 | model of `initialize`: HCD load, the index loop, ETD load, then the sanity `delete_if` (no contract; `Krunch.KatiKrunch.constructor` is proved to build it) |
| Records.PeakLineIsOnlyPeak | katiKrunch.rb:113-147 | a peak line passes none of the loaders' other tests |
| Records.MarkersAreOnlyMarkers | katiKrunch.rb:113-122 | `BEGIN IONS\n` and `END IONS\n` each pass only their own test |
| Records.HeaderFold | katiKrunch.rb:117-119 | header lines only add or overwrite keys (`Records.HeaderFoldKeys`, `Records.HeaderFoldLastWins` and `Records.HeaderFoldKeepsUnset` state which keys and which values) |
| Records.HeaderFoldKeys | katiKrunch.rb:117-119 | the folded Hash holds exactly the keys it started with plus the keys some header line sets |
| Records.HeaderFoldLastWins | katiKrunch.rb:117-119 | a key takes the value of the last header line that sets it |
| Records.HeaderFoldKeepsUnset | katiKrunch.rb:117-119 | a key that no header line sets keeps its earlier value |
| Records.PeaksOf | katiKrunch.rb:121 | peak `k` of a record is line `k` split and converted |
| Records.HcdBeginStep | katiKrunch.rb:113-116 | a `BEGIN IONS` line opens a fresh Hash and pair |
| Records.HcdHeaderStep | katiKrunch.rb:117-120 | a header line does only the header assignment |
| Records.HcdPeakStep | katiKrunch.rb:121 | a peak line does only the `addPeak` |
| Records.HcdEndStep | katiKrunch.rb:122-125 | an `END IONS` line does only the install and the pruning |
| Records.HcdRunConcat | katiKrunch.rb:112 | loading `a + b` is loading `a`, then `b` from where `a` left off |
| Records.HcdHeadersRun | katiKrunch.rb:117-119 | before `END IONS`, header lines only fill the loader's Hash |
| Records.HcdPeaksRun | katiKrunch.rb:121 | peak lines append their peaks, in order, to the last pair's HCD scan |
| Records.HcdRecordScan | katiKrunch.rb:113-125 | a loaded HCD record's scan has headers and a non-empty peak list |
| Records.HcdRecordLoads | katiKrunch.rb:110-127 | one HCD record appends exactly one pair, with the record's headers, its pruned peaks and an empty ETD scan; it raises exactly when the pruning would |
| Records.HcdRecordEnds | katiKrunch.rb:122-125 | `END IONS` installs the record's headers and prunes its peaks, or raises |
| Records.HcdBodyRun | katiKrunch.rb:117-125 | after `BEGIN IONS`, the headers, peaks and `END IONS` of a record fill the new pair's HCD scan |
| Records.EtdBeginStep | katiKrunch.rb:133-135 | a `BEGIN IONS` line only starts a fresh Hash |
| Records.EtdTitleStep | katiKrunch.rb:136-145 | a TITLE line first picks the pair, then is stored as a header |
| Records.EtdHeaderStep | katiKrunch.rb:142-145 | another header line does only the header assignment |
| Records.EtdPeakStep | katiKrunch.rb:146 | a peak line does only the `addPeak` on the chosen pair |
| Records.EtdEndStep | katiKrunch.rb:147 | an `END IONS` line only installs the Hash on the chosen pair |
| Records.EtdRunConcat | katiKrunch.rb:132 | loading `a + b` is loading `a`, then `b` |
| Records.EtdHeadersRun | katiKrunch.rb:142-145 | while the Hash is on no scan, header lines only fill it |
| Records.EtdPeaksRun | katiKrunch.rb:146 | peak lines append their peaks, in order, to the chosen pair's ETD scan |
| Records.EtdRecordLoads | katiKrunch.rb:129-149 | one ETD record naming scan `n` changes only the pair at `index[n - 1]`, whose ETD scan gets the record's headers and peaks; a missing index entry raises |
| Records.EtdRecordLoadsFound | katiKrunch.rb:133-147 | the case of `EtdRecordLoads` where the index knows the HCD scan |
| Records.EtdOpenRun | katiKrunch.rb:133-141 | `BEGIN IONS` then TITLE points the loader at the indexed pair with a Hash holding the title |
| Records.EtdTitleOpens | katiKrunch.rb:136-145 | a TITLE line after `BEGIN IONS` picks the pair and starts the Hash with the title |
| Records.FreshHashHeader | katiKrunch.rb:142-145 | a header line on a fresh Hash only starts that Hash |
| Records.EtdBodyRun | katiKrunch.rb:142-147 | after the TITLE line, the headers, peaks and `END IONS` fill the chosen pair's ETD scan |
| Records.EtdRecordFindsHcdPartner | katiKrunch.rb:136-140 | ETD scan `n` finds a pair exactly when some HCD scan is numbered `n - 1`, and then it finds the last such pair |
| Krunch.KatiKrunch.HcdBeginLine | katiKrunch.rb:113-116 | a fresh Hash and a fresh pair are pushed, as the HCD fold's `BEGIN IONS` step says |
| Krunch.KatiKrunch.HcdHeaderLine | katiKrunch.rb:117-120 | `params[key] = value` on the shared Hash, as the header step says |
| Krunch.KatiKrunch.HcdPeakLine | katiKrunch.rb:121 | `addPeak` on the last pair's HCD scan, as the peak step says |
| Krunch.KatiKrunch.HcdEndLine | katiKrunch.rb:122-125 | the Hash is installed and the peaks are pruned, as the `END IONS` step says |
| Krunch.KatiKrunch.HcdLine | katiKrunch.rb:113-125 | one loop iteration does what `HcdStep` says |
| Krunch.KatiKrunch.LoadHcdScans | katiKrunch.rb:110-127 | the pairs become what `HcdRun` builds from the lines |
| Krunch.KatiKrunch.EtdBeginLine | katiKrunch.rb:133-135 | `params = {}`, as the ETD `BEGIN IONS` step says |
| Krunch.KatiKrunch.EtdTitleSelect | katiKrunch.rb:136-141 | `pair = @scanpairs[@index[n - 1]]`, as `EtdTitle` says |
| Krunch.KatiKrunch.EtdHeaderLine | katiKrunch.rb:142-145 | a header assignment, seen by every ETD scan sharing the Hash |
| Krunch.KatiKrunch.EtdPeakLine | katiKrunch.rb:146 | `addPeak` on the chosen pair's ETD scan |
| Krunch.KatiKrunch.EtdEndLine | katiKrunch.rb:147 | the Hash is installed on the chosen pair's ETD scan |
| Krunch.KatiKrunch.EtdOpenLine | katiKrunch.rb:133-141 | the first two tests of an iteration do what `EtdOpen` says |
| Krunch.KatiKrunch.EtdFillLine | katiKrunch.rb:142-147 | the last three tests of an iteration do what `EtdFill` says |
| Krunch.KatiKrunch.EtdLine | katiKrunch.rb:133-147 | one loop iteration does what `EtdStep` says |
| Krunch.KatiKrunch.LoadEtdScans | katiKrunch.rb:129-149 | the pairs become what `EtdRun` builds from the lines |
| Krunch.KatiKrunch.BuildIndex | katiKrunch.rb:94 | the index gains each HCD scan number's last position |
| Krunch.KatiKrunch.KeptScanPairs | katiKrunch.rb:97 | the kept objects are the originals at increasing positions, and their values are `Kept` of the pairs |
| Krunch.KatiKrunch.DeleteIf | katiKrunch.rb:97 | the pairs become `Kept` of the old pairs, and the object invariant holds |
| Krunch.KatiKrunch.FilterFor | katiKrunch.rb:151-153 | the pairs become those whose HCD scan has an ion within `tol` of `mz`, in order, and they stay ready for the next `filter_for` |
| Krunch.KatiKrunch.constructor | katiKrunch.rb:90-98 | the pairs and the index are what `Construct` computes from the two files, and every HCD scan left has peaks, each with an m/z, so `filter_for` can run on them |
| Krunch.KatiKrunch.LoadAndIndex | katiKrunch.rb:91-94 | the HCD load followed by the index loop |

## Left out

- The command-line front end (`App`, lines 165-311) is not modelled: option parsing, file names, the ppm-to-absolute tolerance conversion and output selection.
- `printScanMatches`, `print_hcd` and `print_etd` only write to standard output or a file; `to_s` gives their text.
- `rt` and `lge` are never called by the core, so they are not modelled.
- The `reporterIons` accessor is never used, so it is not modelled. `keepMe` is set by the `ScanPair` constructor but never read.
- `String#to_f` and `Float#to_s` are parameters, so float parsing, formatting and rounding are not modelled. The arithmetic of `has_ion` and the sanity check is exact arithmetic on reals.
- Opening and reading files is left out: a file is the sequence of lines `IO#each` yields.
- The regular expressions are written as the predicates they amount to on such lines. No general regex engine is modelled.
- Peaks.AbundanceFiltered: Ruby's `sort` is not stable, and the model sorts with one fixed insertion sort. Where peaks of equal intensity straddle the `keepnum + 1` cut, the model picks which of them survive, and Ruby may keep others. The same holds for the order of kept peaks with equal m/z. `Peaks.AbundanceFilterKeepsMostIntense` states only what every outcome shares. At such a tie, `Loading.HcdRun`, `Loading.Construct`, `Krunch.KatiKrunch.LoadHcdScans`, `Krunch.KatiKrunch.constructor` and `Krunch.KatiKrunch.FilterFor` describe one of Ruby's possible results, not all of them.
- `keepnum` is a natural number. A negative `--keepN` is not modelled.
- Scans.Scan.FilterByAbundance: requires every peak to have an intensity whenever the sorts run. Ruby raises only when a comparison actually meets a missing intensity, so a list whose peaks all lack one, or a one-peak list, is excluded here although Ruby would not raise. `Loading.HcdEnd`, `Loading.HcdRun` and `Records.HcdRecordLoads` inherit this: for such a record they give no result where Ruby goes on loading.
- Records.EtdRecordLoads: requires the index entry, when present, to lie within the array. The index the constructor builds always does (`Records.EtdRecordFindsHcdPartner`); a negative or out-of-range entry is covered only by the line-by-line fold through `Loading.RubyIndex`.
