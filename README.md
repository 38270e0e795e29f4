# alzheimer_classification: the Boruta pipeline's bookkeeping, in Dafny

This is a model of the core of the alzheimer_classification scripts. For every chromosome,
`boruta_classification.py` loads the patients' genotype matrix and cuts its SNP columns into
windows. On each window it runs a Boruta feature selector at several `perc` levels. It then
records the chosen SNPs and the run in ledger files. `makeY.py` writes the label file the
loader reads and adds the patient count to `genome_stats.txt`.

The model turns each loop of the scripts into a Dafny method with a `while` loop. Each method
is proved equal to a specification function, and lemmas prove the properties the scripts rely
on:
- the chromosome-range text round-trips;
- the windows partition the SNP columns;
- the ledger keeps track of run numbers;
- rows are routed to the test and train matrices by their global position;
- the workers' results are pooled.

Modelling conventions:
- Files are modelled as the sequence of their lines, each with its line end.
- The CSV file is the rows `csv.reader` yields.
- A matrix cell keeps the text of the CSV cell it came from.
- A Python exception the modelled code raises is an `Err` of `Outcomes.Error`. The few that
  are not modelled are named under "Left out".
- Python's `str.strip`, `str.split`, `int()` and `'%d'` are modelled in `PyStr`. Their
  whitespace set is Python's.

Modules, one per file:
- `Outcomes`: results and the exceptions.
- `Seqs`: `list.sort`, `sorted(set(...))`, `range`, `list.remove`.
- `PyStr`: strings.
- `RangeCodec`: `make_chrstr` and `read_chrstr`.
- `WindowSweep`: `best_snps`, with `run_boruta` as an abstract selector.
- `RunLedger`: `establish_run`.
- `ContRun`: `cont_run`, and the held-out patients file of `first_run`.
- `Loader`: `load_data`, with `np.zeros` arrays filled in place.
- `PatientCounts`: `patients`.
- `Aggregation`: `one_process` from the class-perc check on, and `pooling` after the join.
- `MakeY`: `makeY` and `update_genome_stats`.

Behaviour modelled as the code has it:
- `all_snps`: a perc listed twice in `perc` is counted as often as it is listed
  (Aggregation.TotalsSpec). Aggregation.TotalsDistinct states the plain sum for distinct percs.
- The `'snp' is None` check at boruta_classification.py:144 compares a string literal with
  None and never fires. An absent chromosome therefore surfaces as the TypeError of
  `range(None)` (Loader.SnpColumnsMissing).
- load_data reads snp as `split()[-1]` of the chromosome's first line of genome_stats.txt.
  update_genome_stats appends the patient count to every line, so after it that field is the
  count (MakeY.StatsLineLast). `patients` reads the second field, which a line of two tokens
  or more keeps (MakeY.StatsLineSecond).
- A ledger with a repeated or non-positive run id ends in the ValueError `d.remove` raises
  (RunLedger.EstablishBadIds). It is not excluded by a precondition.
- The main process reads `qytrain` even when no worker finished. That is modelled as the
  `Blocked` outcome.

## Model

| member | source | states |
|---|---|---|
| Seqs.SortSpec | boruta_classification.py:445 | `list.sort()` yields an ascending list with the same multiset of elements |
| Seqs.SortOfSorted | boruta_classification.py:445 | sorting an already sorted list changes nothing |
| Seqs.SortedDistinct | boruta_classification.py:320-321 | `sorted(set(s))` is strictly ascending and has exactly the elements of s |
| Seqs.SortedDistinctUnique | boruta_classification.py:320-321 | any strictly ascending list with the elements of s is `sorted(set(s))` |
| Seqs.Dedup | boruta_classification.py:311 | the keys of `Counter(s)` hold each element of s exactly once |
| Seqs.Range | boruta_classification.py:371 | `range(lo, hi)` has `max(hi - lo, 0)` elements, the k-th being lo + k |
| Seqs.RemoveFirstSpec | boruta_classification.py:373 | `list.remove(x)` takes exactly one x out of the list |
| PyStr.LStripSpec | boruta_classification.py:436 | lstrip removes the longest prefix of dropped characters |
| PyStr.RStripSpec | boruta_classification.py:436 | rstrip removes the longest suffix of dropped characters |
| PyStr.SplitSpec | boruta_classification.py:437 | no piece of `s.split(c)` holds c, and joining the pieces with c gives s back |
| PyStr.SplitJoin | boruta_classification.py:437 | splitting a c-join of c-free pieces gives back the pieces |
| PyStr.SplitWsWord | boruta_classification.py:362 | a word followed by whitespace is the first token of `str.split()` |
| PyStr.StripSplitWs | makeY.py:51 | `strip()` keeps the tokens of `split()` |
| PyStr.SplitWsAppend | makeY.py:51 | `split()` of two texts meeting at whitespace is the concatenation of their splits |
| PyStr.RenderSpec | makeY.py:21 | `'%d' % n` is digits, preceded by '-' when n < 0 |
| PyStr.ParseRender | boruta_classification.py:340 | `int()` reads back `'%d' % n`, whatever whitespace surrounds it |
| PyStr.ParseRenderBare | boruta_classification.py:309 | `int(str(n)) == n` |
| RangeCodec.MakeChrStr | boruta_classification.py:408-431 | the loop computes `Encode`; for a list not ending in -1 this is the text of the list's runs |
| RangeCodec.Turn | boruta_classification.py:415-429 | one turn of the loop on element ch is one `Step` of the specification |
| RangeCodec.EncodeEmpty | boruta_classification.py:408-431 | `make_chrstr([])` is "" |
| RangeCodec.EncodeRuns | boruta_classification.py:408-431 | the text is the runs of the list, each "N" or "N-M", joined by ", " (unless the last run ends at -1 and absorbs the 0 sentinel) |
| RangeCodec.RunsExpand | boruta_classification.py:415-429 | the runs cover the list exactly, in order |
| RangeCodec.RunsMaximal | boruta_classification.py:416-418 | no run could be joined to the run before it |
| RangeCodec.RunsSeparated | boruta_classification.py:416-418 | for a strictly ascending list, a gap of at least one number separates consecutive runs |
| RangeCodec.EncodeMaximalRuns | boruta_classification.py:408-431 | on an ascending list of distinct positive ints the text renders its maximal consecutive runs in order |
| RangeCodec.ReadChrStr | boruta_classification.py:434-447 | the method computes `Decode`, and its result is always sorted |
| RangeCodec.ReadPieces | boruta_classification.py:439-444 | the numbers of the comma pieces in order, or the error of the first piece that fails |
| RangeCodec.ReadPiece | boruta_classification.py:440-444 | one piece read as the specification's `DecodePiece` |
| RangeCodec.DecodeEmptyFails | boruta_classification.py:442 | `read_chrstr("")` raises ValueError from `int('')` |
| RangeCodec.DecodeSingle | boruta_classification.py:441-442 | "N", maybe after a blank, reads as [N] |
| RangeCodec.DecodePair | boruta_classification.py:443-444 | "A-B", maybe after a blank, reads as `range(A, B + 1)`: inclusive expansion |
| RangeCodec.StripRenderRuns | boruta_classification.py:436 | `strip('[]')` leaves rendered runs unchanged |
| RangeCodec.DecodeRenderRuns | boruta_classification.py:436-446 | the rendered runs read back as their members, sorted, with duplicates kept |
| RangeCodec.DecodeEncode | boruta_classification.py:408-447 | `read_chrstr(make_chrstr(L))` is L sorted, for every non-empty list of positive ints |
| RangeCodec.RoundTrip | boruta_classification.py:408-447 | for a strictly ascending non-empty list of positive ints the round trip is the identity |
| RangeCodec.DecodeKeepsRepeats | boruta_classification.py:444-445 | "1-3, 2" reads as [1, 2, 2, 3]: sorted but not deduplicated |
| WindowSweep.Init | boruta_classification.py:197 | `{a: [] for a in perc}` has exactly the keys of perc |
| WindowSweep.PickWindow | boruta_classification.py:201-204 | `xx` is a full window, or the tail window when `snp % r != 0`, or else keeps its old value |
| WindowSweep.RunLevels | boruta_classification.py:206-211 | the level loop computes `Levels`: shifted results are appended, and the loop stops at the first empty one |
| WindowSweep.BestSnps | boruta_classification.py:195-213 | the window loop computes `Best`, the behaviour as written for every r: ZeroDivisionError at r == 0, the unbound `xx` only when a level reads it |
| WindowSweep.BestStep | boruta_classification.py:199-211 | one turn of the window loop: the window picked, then its level loop |
| WindowSweep.TriedSpec | boruta_classification.py:206-209 | the selector runs on levels until the first empty result, which is the last level tried |
| WindowSweep.LevelsTried | boruta_classification.py:206-209 | levels after the first empty result are never invoked for that window |
| WindowSweep.LevelsTail | boruta_classification.py:210-211 | a non-empty result is appended shifted, and the loop goes on with the next level |
| WindowSweep.LevelsKeys | boruta_classification.py:197-211 | the level loop keeps the key set of `snps` |
| WindowSweep.LevelsContribution | boruta_classification.py:211 | for distinct percs, each level's list grows by its shifted results, in window order |
| WindowSweep.FullWindowFits | boruta_classification.py:201-202 | a window before the last lies within the matrix |
| WindowSweep.WindowInside | boruta_classification.py:201-204 | every intended window starts inside the matrix and ends at or before column snp |
| WindowSweep.NumWindowsInexact | boruta_classification.py:199-204 | with a remainder there are snp // r full windows and one shorter one |
| WindowSweep.NextWindowStart | boruta_classification.py:201-202 | each window starts where the one before it ends |
| WindowSweep.LastWindowEnd | boruta_classification.py:203-204 | the last intended window ends at column snp |
| WindowSweep.CoveredFrom | boruta_classification.py:199-204 | the windows from window n on cover columns n*r up to snp, once each, in order |
| WindowSweep.WindowsPartition | boruta_classification.py:199-204 | the windows `[n*r, min(n*r + r, snp))` partition `[0, snp)` in order |
| WindowSweep.PickInexact | boruta_classification.py:201-204 | with `snp % r != 0`, iteration n picks the intended window n |
| WindowSweep.BestFromInexact | boruta_classification.py:199-211 | with `snp % r != 0`, the loop as written is the intended sweep from window n on |
| WindowSweep.BestInexact | boruta_classification.py:195-213 | with `snp % r != 0`, `best_snps` computes exactly the intended sweep |
| WindowSweep.BestEmptyUnbound | boruta_classification.py:199-207 | with no columns and at least one level, the level loop reads `xx` before it is assigned (UnboundLocalError), for either sign of r |
| WindowSweep.BestNoLevels | boruta_classification.py:196-213 | with perc empty, `best_snps` returns `{}` for every r except 0, where `snp // r` raises ZeroDivisionError; no column count changes that |
| WindowSweep.BestNonPositive | boruta_classification.py:196-213 | r == 0 raises ZeroDivisionError; r < 0 with snp > 0 runs no window and returns an empty list per level; r < 0 with snp == 0 reads the unbound `xx` unless perc is empty |
| WindowSweep.PickExact | boruta_classification.py:201-202 | with `snp % r == 0`, the full windows are picked as intended |
| WindowSweep.BestFromExact | boruta_classification.py:199-211 | with `snp % r == 0`, the loop is the intended sweep plus a last pass over the stale window at offset snp |
| WindowSweep.BestExact | boruta_classification.py:195-213 | with `snp % r == 0` and snp > 0, the result is the intended sweep followed by a stale pass at offset snp |
| WindowSweep.ChosenWider | boruta_classification.py:211 | indices below a bound stay below any wider bound |
| WindowSweep.AppendShift | boruta_classification.py:211 | ascending indices below off, then a window's choice shifted by off, are ascending below off + width |
| WindowSweep.LevelsChosen | boruta_classification.py:206-211 | for distinct percs and a selector returning ascending in-window indices, every list stays ascending and within the columns seen |
| WindowSweep.FixedChosen | boruta_classification.py:199-211 | for distinct percs, the intended sweep from window n on keeps every list ascending and below snp |
| WindowSweep.FixedKeys | boruta_classification.py:197-211 | the intended sweep keeps the key set |
| WindowSweep.SweepChosen | boruta_classification.py:195-213 | the intended sweep has exactly the keys of perc, and for distinct percs each list is strictly ascending within `[0, snp)` |
| WindowSweep.BestSnpsFixed | boruta_classification.py:195-213 | the corrected loop computes the intended sweep: keys exactly perc, and for distinct percs every list ascending within `[0, snp)` |
| WindowSweep.KeepFirstSelector | boruta_classification.py:221-223 | a selector that keeps column 0 returns ascending in-window indices, as `enumerate(support_)` does |
| WindowSweep.StaleBeyond | boruta_classification.py:199-204 | with `snp % r == 0` and distinct percs, a non-empty first-level result on the stale window yields an index at or beyond snp |
| WindowSweep.StaleOutOfRange | boruta_classification.py:199-204 | on one column (r = 1, perc = [5]), the loop as written reports column 1, but the intended sweep does not |
| RunLedger.EstablishRun | boruta_classification.py:348-405 | the method computes `Establish`: the run number or exception, and the ledger left behind |
| RunLedger.ScanLines | boruta_classification.py:360-369 | the row loop computes `ScanRows` |
| RunLedger.RemoveAll | boruta_classification.py:372-373 | `for el in rr: d.remove(el)` computes `Free` |
| RunLedger.SettleRun | boruta_classification.py:370-390 | the choice after the row loop computes `Settle` |
| RunLedger.Max | boruta_classification.py:371 | `max(rr)` is in rr and bounds it |
| RunLedger.Min | boruta_classification.py:375 | `min(d)` is in d and bounds it from below |
| RunLedger.ScanStepSpec | boruta_classification.py:361-364 | a row with no token raises IndexError, which the `except ValueError` does not catch |
| RunLedger.ScanOk | boruta_classification.py:360-369 | without blank rows, the loop collects every integer run id in order, keeps the other runs' integer rows in order, and notes whether the run was seen |
| RunLedger.ScanBlank | boruta_classification.py:362 | any blank row makes the loop fail with IndexError |
| RunLedger.OthersIds | boruta_classification.py:366-367 | the rows kept for a rewrite hold every run id except the one redone |
| RunLedger.RemoveMembers | boruta_classification.py:373 | removing x from a repeat-free list leaves exactly the other elements |
| RunLedger.FreeSpec | boruta_classification.py:371-373 | the removals succeed iff the removed ids are distinct members, and then leave exactly the others |
| RunLedger.FreeIsValueError | boruta_classification.py:373 | the only exception of the removals is ValueError |
| RunLedger.FreeIds | boruta_classification.py:371-373 | removing rr from `range(1, max(rr) + 2)` succeeds iff the ids are distinct and positive |
| RunLedger.FreeLeft | boruta_classification.py:371-373 | what is left is exactly the numbers 1 .. max(rr) + 1 not in rr |
| RunLedger.FreeKeepsTop | boruta_classification.py:371-375 | the list left is never empty, so `min(d)` is defined |
| RunLedger.FreshLeft | boruta_classification.py:371-375 | for good ids, `min(d)` is the smallest positive number not in rr |
| RunLedger.SettleFresh | boruta_classification.py:374-376 | with no run given, the run is the smallest unused positive id, and nothing is written back |
| RunLedger.SettleGiven | boruta_classification.py:377-386 | a given run not in the ledger is kept; one in the ledger is a conflict without `fixed`, and with it the other rows are written back |
| RunLedger.SettleBad | boruta_classification.py:371-373 | repeated or non-positive ids make `d.remove` raise ValueError |
| RunLedger.EstablishMissing | boruta_classification.py:392-400 | a missing ledger gives run 1 whatever was asked, and the header of its kind; any other kind is an error |
| RunLedger.EstablishFresh | boruta_classification.py:352-376 | with no run given, the result is the smallest positive id no row has, and the ledger is unchanged |
| RunLedger.EstablishGiven | boruta_classification.py:355-386 | a given run: absent is returned and the ledger unchanged; present is an error without `fixed`, and with it the ledger becomes the header plus the other integer rows in order |
| RunLedger.EstablishBadIds | boruta_classification.py:371-373 | a repeated or non-positive id raises ValueError, and the ledger is unchanged |
| RunLedger.EstablishBlank | boruta_classification.py:360-364 | a blank row raises IndexError, and the ledger is unchanged |
| ContRun.ContinueRun | boruta_classification.py:295-334 | the method computes `Continue`: the row's fields, the new ledger text and the new chrlist, or the exception |
| ContRun.StepLine | boruta_classification.py:301-329 | one turn of the line loop: a row of the run rewritten, any other line copied |
| ContRun.RewriteLine | boruta_classification.py:302-327 | the rewrite of one row of the run computes `RewriteRow` |
| ContRun.OmitRecorded | boruta_classification.py:311-319 | the Counter loop computes `Merge` |
| ContRun.JoinFields | boruta_classification.py:323-326 | the `strin` loop writes every field followed by a tab, then the newline |
| ContRun.LoadTestPat | boruta_classification.py:336-341 | the read of `testpat_<run>.txt` computes `ReadTestPat` |
| ContRun.FoldAppend | boruta_classification.py:301-329 | the loop over a + b is the loop over a, then over b from where it ended |
| ContRun.FoldCopy | boruta_classification.py:329 | lines that are not rows of the run are appended verbatim |
| ContRun.FoldOccur | boruta_classification.py:328 | `occur` ends true iff some line starts with the run number and a tab |
| ContRun.FoldNotMissing | boruta_classification.py:301-329 | the loop never raises the missing-run error itself |
| ContRun.FoldLength | boruta_classification.py:301-329 | the new text extends the old by one line per line read |
| ContRun.FoldCopiesAt | boruta_classification.py:329 | a line that is not a row of the run is copied to its own position |
| ContRun.ContNoRow | boruta_classification.py:332-334 | `cont_run` raises the `-run` WrongValueError iff no line starts with `"<run>\t"` |
| ContRun.ContCopies | boruta_classification.py:301-329 | the new ledger has as many lines as the old, and every other line is copied verbatim in place |
| ContRun.ContFixed | boruta_classification.py:313 | with `fixed`, chrlist is left as it was |
| ContRun.ContSingle | boruta_classification.py:301-329 | with one row of the run, the result is that row's rewrite, in place |
| ContRun.MergeFixed | boruta_classification.py:313 | with `fixed`, the Counter loop changes nothing |
| ContRun.MergeErr | boruta_classification.py:316-319 | the Counter loop fails only with ValueError or the emptied-chrlist error |
| ContRun.DropSpec | boruta_classification.py:316 | a chromosome is kept iff it is in chrlist and not removed |
| ContRun.CountBoth | boruta_classification.py:311-312 | for repeat-free stored and incoming lists, a count above 1 means the chromosome is in both |
| ContRun.MergeNotFixed | boruta_classification.py:311-319 | for repeat-free stored and incoming lists, without `fixed`, every key in both lists is removed from chrlist, and emptying it raises |
| ContRun.MergeRecorded | boruta_classification.py:310-319 | for repeat-free stored and incoming lists, without `fixed`, every stored chromosome is removed from chrlist; the emptied-chrlist error is raised when nothing is left |
| ContRun.EncodeShape | boruta_classification.py:322 | the new chromosome field has no tab and ends with a digit |
| ContRun.RowFields | boruta_classification.py:323-326 | fields without tabs, written back with trailing tabs, are read again as the same fields |
| ContRun.MergedShape | boruta_classification.py:320-322 | the union written back is tab-free text that `read_chrstr` reads as the sorted distinct union |
| ContRun.RowReadBack | boruta_classification.py:322-326 | the row with its last field replaced is read again as exactly those fields |
| ContRun.RewriteFields | boruta_classification.py:320-327 | for positive chromosomes, the rewritten row keeps its other fields, and its last field now decodes to the sorted distinct union of stored and incoming chromosomes |
| ContRun.RewriteRecorded | boruta_classification.py:310-319 | for repeat-free stored and incoming lists, the rewrite's chrlist is the incoming ones minus the stored ones, or the emptied-chrlist error |
| ContRun.ContAnalysed | boruta_classification.py:301-334 | for repeat-free stored and incoming lists, `cont_run` without `fixed` removes the already-analysed chromosomes from chrlist, or raises when that empties it |
| ContRun.ContRewritesRow | boruta_classification.py:320-329 | for positive chromosomes, the run's row stays in place and is read again with its last field the union `make_chrstr(sorted(set(...)))` |
| ContRun.ParseIntsErr | boruta_classification.py:306 | a malformed perc literal is the only error of reading perc |
| ContRun.ParseIntsRenders | boruta_classification.py:306 | `int()` reads back every `str(n)` of the perc field |
| ContRun.PercTextBare | boruta_classification.py:570-571 | the perc field written for a new row strips to itself |
| ContRun.PercRoundTrip | boruta_classification.py:306-308 | the perc field a new row is written with reads back as the same levels, including a single level |
| ContRun.TestPatLines | boruta_classification.py:286-287 | `first_run` writes one line per held-out patient |
| ContRun.TestPatLine | boruta_classification.py:340 | one line `'%d\n'` reads back as its number |
| ContRun.ReadTestPatAll | boruta_classification.py:339-340 | lines that each parse read as those numbers in order |
| ContRun.TestPatRoundTrip | boruta_classification.py:336-341 | `cont_run` reads back the held-out patients `first_run` wrote |
| ContRun.ReadHeldOut | boruta_classification.py:336-343 | the test-size gate computes `HeldOut`: None without opening the file when the test size is 0, else the file's patients, FileNotFoundError or the read's error |
| ContRun.ReadRecordTestSize | boruta_classification.py:305 | a test-size field `float()` rejects makes the row raise ValueError before perc is read; otherwise the run kept a test set iff the field is not 0 |
| ContRun.HeldOutRoundTrip | boruta_classification.py:336-343 | for a row written with `'%.1f'` of t tenths, t == 0 gives testpat None; any other t reads back exactly the patients `first_run` wrote, or FileNotFoundError without the file |
| PyStr.FloatTenths | boruta_classification.py:305 | `float()` reads a `'%.1f'` rendering as zero exactly when it renders 0 |
| PyStr.FloatEmpty | boruta_classification.py:305 | `float('')` raises ValueError |
| PyStr.FloatWord | boruta_classification.py:305 | `float()` of any word of ASCII letters other than inf, infinity and nan (in any case) raises ValueError |
| PyStr.FloatFixed | boruta_classification.py:305 | `float()` reads a test size written with all its decimals as zero exactly when the test size is 0 |
| PyStr.FixedTenths | boruta_classification.py:570 | for whole tenths, writing all decimals gives the same text as `'%.1f'` |
| PyStr.SmallRoundsToZero | boruta_classification.py:570 | `'%.1f'` of a test size under 0.05 is `"0.0"`, which `float()` reads as 0 |
| ContRun.HeldOutLost | boruta_classification.py:570 | for a test size between 0 and 0.05, `first_run` takes its `testsize != 0` branch, but the row written with `'%.1f'` holds `"0.0"`, so the continuation sets testpat to None without opening the file |
| ContRun.HeldOutKept | boruta_classification.py:336-343 | with the test size written with all its decimals, the continuation keeps a test set exactly when the test size is not 0, and reads back the patients `first_run` wrote, or raises FileNotFoundError |
| PyStr.FloatNan | boruta_classification.py:305 | `float('nan')` is accepted and is not 0 |
| Loader.LoadData | boruta_classification.py:118-192 | the method computes `Load`: the matrices, width and test parts, or the exception |
| Loader.ReadColumns | boruta_classification.py:124-147 | the first half computes `SnpColumns` |
| Loader.ReadSubsets | boruta_classification.py:126-131 | the loop over the data sets computes `SubsetLists` |
| Loader.ReadSubset | boruta_classification.py:128-129 | one subset file is read as `int(line.split()[0])` per line |
| Loader.FindWidth | boruta_classification.py:139-142 | the genome_stats loop computes `StatsWidth`, breaking at the first line of the chromosome |
| Loader.FillData | boruta_classification.py:149-192 | the second half computes `Fill` |
| Loader.AllocateAndPlace | boruta_classification.py:157-187 | the four `np.zeros` arrays, after placing, are the padded routed rows |
| Loader.PlaceAll | boruta_classification.py:163-187 | after the data-set loop, the arrays mirror `RouteSets`, or the method returns its error |
| Loader.PlaceSet | boruta_classification.py:165-187 | after one data set (header skipped, then `done += i + 1`), the arrays mirror `RouteSet` |
| Loader.PlaceRows | boruta_classification.py:174-184 | after a data set's row loop, the arrays mirror `RouteRows` |
| Loader.PlaceNext | boruta_classification.py:175-184 | one row written to the test arrays iff `done + i` is in testpat |
| Loader.PlaceRow | boruta_classification.py:176-179 | the row and label are written in place at the next free row, or an IndexError is reported |
| Loader.EachSpec | boruta_classification.py:128-129 | a loop over elements succeeds iff every element does, else fails with the first error |
| Loader.SubsetIdsSpec | boruta_classification.py:128-129 | the subset list is the first field of each line, or the error of the first bad line |
| Loader.SubsetListsSpec | boruta_classification.py:126-131 | data set k's SNP list is what its subset file reads as |
| Loader.StatsWidthSpec | boruta_classification.py:139-143 | snp comes from the chromosome's first line; with no such line `range(None)` raises TypeError |
| Loader.SnpColumnsSpec | boruta_classification.py:124-135 | several data sets without subset raise NoParameterError; with subset, snp is the length of the last data set's list |
| Loader.SnpColumnsWhole | boruta_classification.py:136-147 | a single data set without subset reads SNPs 0 .. snp - 1 |
| Loader.SnpColumnsMissing | boruta_classification.py:144-147 | for an absent chromosome, the dead `'snp' is None` check lets `range(None)` raise TypeError |
| Loader.PyIndexSpec | boruta_classification.py:178 | Python list indexing, negative indices included |
| Loader.CellsSpec | boruta_classification.py:177-178 | the cells `line[s + 1]` for the SNP list, or IndexError |
| Loader.RowOfSpec | boruta_classification.py:176-183 | a matrix row has width snp, with column j holding cell `snplist[j] + 1` and zeros after the list; too many SNPs or a bad index is IndexError |
| Loader.RouteRowFits | boruta_classification.py:175-184 | one row goes to exactly one matrix |
| Loader.RouteRowsFits | boruta_classification.py:174-184 | a data set's rows add its chosen rows to each matrix in order |
| Loader.RouteSetFits | boruta_classification.py:174-187 | a data set with rows moves `done` past them |
| Loader.RouteSetsFits | boruta_classification.py:163-187 | when every data set has a row, the first m data sets leave `done` at their row count and add exactly their chosen rows |
| Loader.RouteOrder | boruta_classification.py:163-187 | when every data set has a row, row i of data set k goes to test iff the earlier data sets' rows + i is in testpat, in file order in both matrices |
| Loader.ChosenRowsSpec | boruta_classification.py:175 | one data set's chosen rows are exactly its rows whose global position is (or is not) in testpat, in order |
| Loader.ChosenHas | boruta_classification.py:175 | a row is chosen for test iff its global position is in testpat, and for train iff not |
| Loader.ChosenOrdered | boruta_classification.py:163-184 | the chosen rows are in file order |
| Loader.RouteSetsShaped | boruta_classification.py:157-187 | routing never writes past the preallocated matrices |
| Loader.HeaderOnly | boruta_classification.py:174-187 | a header-only CSV adds the previous data set's `i + 1` to `done`, or finds `i` unbound |
| Loader.PaddedSpec | boruta_classification.py:157-161 | a preallocated matrix holds the written rows first and zero rows after |
| Loader.FillShape | boruta_classification.py:149-192 | train has `sum(pat) - len(testpat)` rows and test has `len(testpat)`, both of width snp; test parts exist iff testpat is non-empty; too few patients or a negative width is ValueError |
| Loader.FillRoutes | boruta_classification.py:149-192 | when every data set has a row, both matrices begin with their chosen rows' SNP cells and labels, in file order, and are zero after |
| PatientCounts.CountPatients | boruta_classification.py:450-462 | the loop over the data sets computes `Patients` |
| PatientCounts.ReadPatientCount | boruta_classification.py:454-461 | one data set's loop computes `PatientCount` |
| PatientCounts.ConsensusSpec | boruta_classification.py:455-459 | the lines agree on p iff every line's field reads as p; a mismatch means some later line read differently |
| PatientCounts.PatientCountSpec | boruta_classification.py:455-460 | a data set has p patients iff its file has a line and every second field reads as p |
| PatientCounts.SecondFieldError | boruta_classification.py:456 | reading a field never raises the mismatch error |
| PatientCounts.PatientsSpec | boruta_classification.py:450-462 | `pat[name]` is the data set's count, and any data set's failure fails the whole |
| Aggregation.OneProcess | boruta_classification.py:93-115 | the method computes `Processed` |
| Aggregation.ProcessedSpec | boruta_classification.py:93-115 | errors: KeyError without a class_perc selection, the empty-selection error for an empty one, KeyError for a missing perc; on success, the report carries the class_perc selection, ll[p] = len(snps[p]) per perc, and one bestsnps file per perc |
| Aggregation.ProcessedChosen | boruta_classification.py:93-111 | with in-range selections, one_process succeeds |
| Aggregation.ProcessedBeyond | boruta_classification.py:96 | a class_perc column at or beyond snp raises IndexError when X is sliced |
| Aggregation.ProjectChosen | boruta_classification.py:96 | `X[:, cols]` keeps every row, and cell k of a row is its column `cols[k]` |
| Aggregation.ProjectBeyond | boruta_classification.py:96 | an index at or beyond the width raises IndexError |
| Aggregation.LoadReady | boruta_classification.py:85-100 | load_data gives one_process rectangular matrices, and test parts whenever there is a test set |
| Aggregation.StaleProcessFails | boruta_classification.py:89-96 | the stale window of `best_snps` makes the worker raise IndexError when class_perc is the first perc |
| Aggregation.FixedProcessSucceeds | boruta_classification.py:89-96 | with the corrected sweep, a non-empty class_perc selection lets the worker succeed |
| Aggregation.WriteOutputs | boruta_classification.py:102-111 | the perc loop computes `Outputs` |
| Aggregation.OutputsSpec | boruta_classification.py:102-111 | the loop fails with KeyError iff some perc has no selection; otherwise file k is the manifest of perc k |
| Aggregation.OutputsKeys | boruta_classification.py:102 | ll has a key per perc |
| Aggregation.OutputsCounts | boruta_classification.py:102-105 | afterwards, `ll[p]` is the size of that perc's selection |
| Aggregation.WriteManifest | boruta_classification.py:107-111 | the bestsnps file as the loop writes it |
| Aggregation.ListingSpec | boruta_classification.py:109-110 | one line `'%d\n'` per selected SNP, in order |
| Aggregation.ManifestHead | boruta_classification.py:108 | the file has two more lines than the selection; the first reads back as its size, and the second is blank |
| Aggregation.ManifestEntry | boruta_classification.py:109-110 | line k + 2 reads back as the k-th selected SNP |
| Aggregation.Pooling | boruta_classification.py:44-71 | the method computes `Pool` |
| Aggregation.Gather | boruta_classification.py:44-50 | the q loop computes `Totals` and `Selected` |
| Aggregation.AddReport | boruta_classification.py:49-50 | the inner loop computes `AddCounts` |
| Aggregation.CheckLabels | boruta_classification.py:57-63 | the label check computes `Agree` |
| Aggregation.WriteTotals | boruta_classification.py:66-69 | all_snps<run>.txt has one line `'%d\t%d\n'` per perc |
| Aggregation.AddCountsOk | boruta_classification.py:49-50 | adding a report fails with KeyError iff it lacks some perc |
| Aggregation.AddCountsSpec | boruta_classification.py:49-50 | every key p gains the report's count once per occurrence of p in perc |
| Aggregation.TotalsSpec | boruta_classification.py:45-50 | fails with KeyError iff some report lacks a perc; otherwise all_snps[p] is the sum of the reports' counts for p, once per occurrence of p |
| Aggregation.TotalsDistinct | boruta_classification.py:45-50 | with distinct percs, all_snps[p] is exactly the sum over reports |
| Aggregation.SelectedKeys | boruta_classification.py:44-48 | selected_snps has a key for every chromosome of chrlist and every reported chromosome, and no other |
| Aggregation.SelectedNone | boruta_classification.py:44 | a chromosome no report is about stays None |
| Aggregation.SelectedLast | boruta_classification.py:48 | a chromosome's entry is the last report's selection |
| Aggregation.AgreeOk | boruta_classification.py:57-63 | a queue that passes the check holds only the vector saved |
| Aggregation.AgreeOrder | boruta_classification.py:56-63 | the order in which workers finished does not matter to the label check |
| Aggregation.TotalLineRead | boruta_classification.py:68 | an all_snps line splits at its tab into the perc and its total, both read back |
| Aggregation.PoolOutcome | boruta_classification.py:44-71 | succeeds iff every report has every perc, some worker finished, and all train (and, with a test set, all test) label vectors are equal; a distinct error for each failure |
| Aggregation.PoolValues | boruta_classification.py:44-71 | on success: the common label vectors are saved, the test one iff there is a test set; one all_snps line holds each perc's total |
| MakeY.MakeYFile | makeY.py:9-34 | the zip loop computes `Encode` |
| MakeY.YLinesSpec | makeY.py:17-27 | one line per pair, the k-th for pair k |
| MakeY.YLineRead | makeY.py:20-26 | a Y line splits at its comma into the index and the class, both read back |
| MakeY.EncodeSpec | makeY.py:17-34 | count = number of pairs (the shorter file, class-2 rows included); line k reads as k and as class 1/0/2 exactly when the stripped diagnosis is "1"/"0"/other; dif_chr.txt is empty |
| MakeY.EncodeIgnoresPid | makeY.py:18 | the pid lines are never written; only their number matters |
| MakeY.UpdateGenomeStats | makeY.py:46-52 | the loop computes `Updated`: same lines, same order, each its stripped text plus `"\t<pat>\n"` |
| MakeY.StatsLineWords | makeY.py:51 | the rewritten line has the old tokens followed by the patient count |
| MakeY.StatsLineLast | makeY.py:51 | the last field of every rewritten line is the count, which load_data's `split()[-1]` then reads |
| MakeY.StatsLineSecond | makeY.py:51 | a line of two tokens or more keeps its second field, which `patients` reads; a one-token line gets the count there |

## Left out

**Foreign code, randomness and concurrency**
- `run_boruta`, BorutaPy and RandomForestClassifier: foreign machine-learning code. The selector is an abstract function. Its assumed contract (`IsSelector`) is ascending indices within the window, as the `enumerate(support_)` loop yields.
- `multiprocessing` and the queues: concurrency. `pooling` takes the finished workers as a sequence, in the order the main process takes them from the queues.
  - A worker that fails after its `qytrain.put` is not modelled.
  - `Blocked` stands for `get()` on an empty queue, which never returns.
- `random.sample` in `first_run`: randomness. testpat is an input, and only the lines `first_run` writes are modelled.

**Parsing and numbers**
- `float(line[4])` and `'%.1f'` of testsize: floating point. The field is kept as text, and only whether `float()` accepts it and whether its value is 0 is modelled (`PyStr.FloatIsZero`). A test size is a decimal n / 10**d (`PyStr.RoundTenths`, `PyStr.Fixed`), and `'%.1f'` rounds half-way cases up. Python rounds the nearest binary double, which can go either way on a half-way case such as 0.25.
- ContRun.HeldOutRoundTrip: holds only for test sizes that are whole tenths (`PyStr.Tenths`). A test size between 0 and 0.05 is written to the ledger as "0.0". `first_run` still holds out `int(p*testsize)` patients and writes `testpat_<run>.txt`, but a continuation reads the field as 0, sets testpat to None and trains on those patients. This is filed under "Findings" (ContRun.HeldOutLost).
- Repeated perc levels (`-perc 5,5`, which `ast.literal_eval` accepts): the window sweep is modelled for them, but the ascending-list lemmas (WindowSweep.SweepChosen, BestSnpsFixed and the lemmas under them) are stated for distinct levels. With a level repeated, its list gets each window's result twice and is not strictly ascending.
- Header-only data-set CSVs: their routing is modelled (Loader.HeaderOnly), but the global-position lemmas (Loader.RouteSetsFits, RouteOrder, FillRoutes) are stated for data sets that each have a row, because such a file adds the previous data set's `i + 1` to `done` again.
- MergeNotFixed (ContRun.MergeNotFixed): stated only when the stored and the incoming chromosome lists have no repeats. `-chr 1-3,2` gives chrlist `[1, 2, 2, 3]`, and the Counter loop then behaves differently. A chromosome stored once and given twice loses only one copy, so it stays in chrlist. A chromosome given twice but never analysed loses one copy, with the "already analysed" warning. `ContRun.Merge` models those cases as written, but no lemma characterises them.
- MergeRecorded (ContRun.MergeRecorded): the same repeat-free condition, for the same reason.
- RewriteRecorded (ContRun.RewriteRecorded): the same repeat-free condition, for the same reason.
- ContAnalysed (ContRun.ContAnalysed): the same repeat-free condition, for the same reason. With repeats, an analysed chromosome can stay in chrlist.
- RewriteFields (ContRun.RewriteFields): stated only for positive chromosomes. The rewritten field's decoding rests on RangeCodec.DecodeEncode, which is proved for lists of positive ints, because `make_chrstr` uses 0 as its end sentinel. `-chr 0` is accepted by the scripts, but that case is not covered.
- ContRewritesRow (ContRun.ContRewritesRow): stated only for positive chromosomes, for the same reason as RewriteFields.
- Negative test sizes: `first_run`'s `random.sample` with a negative count is not modelled; the test-size lemmas take n >= 0.
- PyStr.ParseInt: Python's `int()` also accepts underscores between digits (`int('1_0') == 10`) and non-ASCII decimal digits. Both are ValueError here. The scripts only write ASCII numerals without underscores, so every text they write is read back as Python reads it.
- PyStr.FloatIsZero: likewise, underscores between digits and non-ASCII digits, which `float()` accepts, are ValueError here. A literal is also taken as 0 only when its digits are all 0, so one whose exponent underflows to 0.0 (`'1e-400'`) is non-zero here, and a row holding it would be read as keeping a test set. The scripts write no exponent.
- ContRun.ParsePerc: `ast.literal_eval` of `perc` is modelled for the literal forms the scripts write: an int, ints joined by commas, or ints in brackets. Other text is read by the same rules, and some of it differs from Python. `'007'` reads as `[7]` where `literal_eval` raises SyntaxError. A tuple in parentheses or with a trailing comma is MalformedLiteral where `literal_eval` accepts it. Any other literal (a float, a string, a nested list) is MalformedLiteral.
- Loader.PlaceRow: a CSV cell is stored as its text, and an unwritten cell is "0". The `np.int8` conversion of the cell is not modelled. So the model does not raise the ValueError that numpy raises for a cell that is not an integer, and it does not model int8's range.
- `pd.read_csv` of Y_chr.csv: modelled as its label column, given as a sequence of ints.
- CSV quoting in `csv.reader`: modelled as the rows the reader yields.

**State and I/O**
- Opening, closing, `seek` and `truncate` of files: I/O. Each file is its lines, or `Missing` for a ledger that does not exist. A missing `testpat_<run>.txt` is modelled as `FileNotFound` (ContRun.ReadHeldOut). The `FileNotFoundError` of any other file is not modelled.
- `np.save` and `np.load`: the saved arrays are returned as values.
- `print` and the warnings: output only.
- `cont_run` changes the caller's `chrlist` in place: modelled as returning the new list.
- Dictionaries keyed by data-set name: modelled as sequences in the dict's key order.

**Other code**
- `read_typedata`, `build_testdata`, `classify`, the argument parsing and the driver of both scripts: numpy I/O, machine learning and command-line handling.
- `feature_selection.py`: CSV streaming, random permutation and float-based chunking.

## Findings

| source | as written | input that shows it | evidently intended | confidence | as-written member | corrected member |
|---|---|---|---|---|---|---|
| boruta_classification.py:199-204 | When r divides snp, iteration `n == s` takes neither branch. It reruns the selector on the previous window `xx` with offset `s*r == snp`. | snp = 1, r = 1, perc = [5], and a selector keeping column 0: level 5 reports column 1 of a 1-column matrix. The worker then raises IndexError at line 96. With snp = 0 and a non-empty perc, `xx` is unbound (with perc empty, `{}` is returned). | The windows `[n*r, min(n*r + r, snp))` for the ceil(snp / r) windows. They partition the columns, and every reported index is below snp. | not executed | WindowSweep.StaleOutOfRange | WindowSweep.BestSnpsFixed |
| boruta_classification.py:570 | The ledger row stores the test size as `'%.1f' % testsize`, and a continuation decides whether a test set was held out from that text (lines 305, 336). | testsize = 0.01: `first_run` (283-287) takes the `testsize != 0` branch and writes `testpat_<run>.txt`. The row holds "0.0", so `cont_run` sets testpat to None and the continuation trains on the held-out patients. | The row records the test size precisely enough that the continuation keeps a test set exactly when the first run held one out. | not executed | ContRun.HeldOutLost | ContRun.HeldOutKept |
