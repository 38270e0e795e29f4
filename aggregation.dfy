/**
 * one_process and pooling: what a chromosome's worker does once best_snps has chosen
 * its SNPs, and how the main process pools the workers' results.
 *
 * A worker hands on the label vectors it puts on qytrain and qytest, the column
 * selections it saves as X_train/X_test, the bestsnps files it writes and the report it
 * puts on q. The queues become the sequence of finished workers, in the order the main
 * process takes them, and every file becomes the sequence of lines written to it.
 */
module Aggregation {
  import opened Outcomes
  import opened PyStr
  import opened Seqs
  import opened Loader
  import WindowSweep

  /** `if testpat:` — a test-patient list that is given and not empty. */
  predicate Tested(testpat: Option<seq<int>>) {
    testpat.Some? && testpat.value != []
  }

  /** The element one_process puts on q: the chromosome, ll (selection size per perc) and the class_perc selection. */
  datatype Report = Report(ch: int, counts: map<int, int>, chosen: seq<int>)

  /**
   * A finished one_process: its report, the vectors it put on qytrain and qytest (the
   * latter [] when there is no test set), the saved column selections of X and Xtest, and
   * the bestsnps files as (perc, lines) in the order they were written.
   */
  datatype Worker = Worker(report: Report, yTrain: seq<int>, yTest: seq<int>,
                           xTrain: seq<seq<string>>, xTest: seq<seq<string>>,
                           files: seq<(int, seq<string>)>)

  // ---------------------------------------------------------------------------
  // one_process, from the class_perc check on
  // ---------------------------------------------------------------------------

  /** A matrix whose every row has the given number of columns. */
  predicate Rect(x: seq<seq<string>>, width: nat) {
    forall t :: 0 <= t < |x| ==> |x[t]| == width
  }

  /** What load_data hands one_process: rectangular matrices, and the test parts exactly when there is a test set. */
  predicate Ready(data: Loaded, testpat: Option<seq<int>>) {
    && Rect(data.xTrain, data.snp)
    && (Tested(testpat) ==> data.xTest.Some? && data.yTest.Some? && Rect(data.xTest.value, data.snp))
  }

  /** `{p: 0 for p in perc}` */
  function Zeros(perc: seq<int>): map<int, int> {
    map p | p in perc :: 0
  }

  /** An index numpy accepts on an axis of this length. */
  predicate OnAxis(c: int, width: nat) {
    -(width as int) <= c < width
  }

  /** X[:, cols]: the listed columns of every row, in the listed order; a negative index counts from the end. */
  function Project(x: seq<seq<string>>, width: nat, cols: seq<int>): Result<seq<seq<string>>>
    requires Rect(x, width)
  {
    if forall k :: 0 <= k < |cols| ==> OnAxis(cols[k], width) then
      Ok(seq(|x|, t requires 0 <= t < |x| =>
        seq(|cols|, k requires 0 <= k < |cols| && OnAxis(cols[k], width) => x[t][cols[k] % width])))
    else
      Err(IndexError)
  }

  /** On indices run_boruta can return the selection succeeds, and cell k of a row is that row's column cols[k]. */
  lemma ProjectChosen(x: seq<seq<string>>, width: nat, cols: seq<int>)
    requires Rect(x, width) && WindowSweep.Chosen(cols, width)
    ensures var r := Project(x, width, cols);
      && r.Ok? && |r.value| == |x|
      && forall t, k :: 0 <= t < |x| && 0 <= k < |cols| ==> |r.value[t]| == |cols| && r.value[t][k] == x[t][cols[k]]
  {
  }

  /** An index at or beyond the width raises IndexError, even on a matrix with no rows. */
  lemma ProjectBeyond(x: seq<seq<string>>, width: nat, cols: seq<int>, k: nat)
    requires Rect(x, width) && k < |cols| && cols[k] >= width
    ensures Project(x, width, cols) == Err(IndexError)
  {
    assert !OnAxis(cols[k], width);
  }

  /** The line `'%d\n' % n`. */
  function Line(n: int): string {
    Render(n) + "\n"
  }

  /** The line f(el) for every el of sel, in order. */
  function Lines(f: int -> string, sel: seq<int>): seq<string> {
    if sel == [] then [] else Lines(f, sel[..|sel| - 1]) + [f(sel[|sel| - 1])]
  }

  /** The lines '%d\n' % el for every el of sel, in order. */
  function Listing(sel: seq<int>): seq<string> {
    Lines(Line, sel)
  }

  /** A bestsnps file: the number of SNPs and an empty line, then one SNP index per line. */
  function Manifest(sel: seq<int>): seq<string> {
    [Render(|sel|) + "\n", "\n"] + Listing(sel)
  }

  /** One line '%d\n' per selected SNP, in order. */
  lemma ListingSpec(sel: seq<int>)
    ensures |Listing(sel)| == |sel|
    ensures forall k :: 0 <= k < |sel| ==> Listing(sel)[k] == Render(sel[k]) + "\n"
  {
    LinesLength(Line, sel);
    forall k | 0 <= k < |sel| ensures Listing(sel)[k] == Render(sel[k]) + "\n" {
      LinesAt(Line, sel, k);
    }
  }

  lemma {:induction false} LinesLength(f: int -> string, sel: seq<int>)
    ensures |Lines(f, sel)| == |sel|
  {
    if sel != [] {
      LinesLength(f, sel[..|sel| - 1]);
    }
  }

  /** Line k is f of the k-th element. */
  lemma {:induction false} LinesAt(f: int -> string, sel: seq<int>, k: nat)
    requires k < |sel|
    ensures |Lines(f, sel)| == |sel| && Lines(f, sel)[k] == f(sel[k])
  {
    var init := sel[..|sel| - 1];
    LinesLength(f, init);
    assert Lines(f, sel) == Lines(f, init) + [f(sel[|sel| - 1])];
    if k < |init| {
      LinesAt(f, init, k);
      assert init[k] == sel[k];
    }
  }

  /** int() reads back a line '%d\n'. */
  lemma ReadLine(n: int)
    ensures ParseInt(Render(n) + "\n") == Ok(n)
  {
    assert IsSpace('\n');
    ParseRender(n, "", "\n");
    assert "" + Render(n) + "\n" == Render(n) + "\n";
  }

  /** A bestsnps file has two lines more than its selection; the first reads back as the selection's size. */
  lemma ManifestHead(sel: seq<int>)
    ensures var m := Manifest(sel); |m| == |sel| + 2 && ParseInt(m[0]) == Ok(|sel|) && m[1] == "\n"
  {
    ListingSpec(sel);
    ReadLine(|sel|);
  }

  /** Line k + 2 of a bestsnps file reads back as the k-th selected SNP. */
  lemma ManifestEntry(sel: seq<int>, k: nat)
    requires k < |sel|
    ensures |Manifest(sel)| == |sel| + 2 && ParseInt(Manifest(sel)[k + 2]) == Ok(sel[k])
  {
    ListingSpec(sel);
    var line := Manifest(sel)[k + 2];
    assert line == Listing(sel)[k] == Render(sel[k]) + "\n";
    ReadLine(sel[k]);
  }

  /** The file as the inner loop of one_process writes it, one element at a time. */
  method WriteManifest(sel: seq<int>) returns (lines: seq<string>)
    ensures lines == Manifest(sel)
  {
    lines := [Render(|sel|) + "\n", "\n"];
    var i := 0;
    while i < |sel|
      invariant 0 <= i <= |sel|
      invariant lines == [Render(|sel|) + "\n", "\n"] + Listing(sel[..i])
    {
      assert sel[..i + 1][..i] == sel[..i];
      lines := lines + [Render(sel[i]) + "\n"];
      i := i + 1;
    }
    assert sel[..i] == sel;
  }

  /** ll and the bestsnps files. */
  datatype Written = Written(counts: map<int, int>, files: seq<(int, seq<string>)>)

  /** ll and the files after the first n rounds of the loop over perc; ll starts at 0 for every perc. */
  function Outputs(snps: map<int, seq<int>>, perc: seq<int>, n: nat): Result<Written>
    requires n <= |perc|
  {
    if n == 0 then Ok(Written(Zeros(perc), []))
    else
      match Outputs(snps, perc, n - 1)
      case Err(e) => Err(e)
      case Ok(w) =>
        var p := perc[n - 1];
        if p !in snps then Err(KeyError)
        else Ok(Written(w.counts[p := |snps[p]|], w.files + [(p, Manifest(snps[p]))]))
  }

  /**
   * The loop over perc fails with KeyError exactly when some perc has no selection;
   * otherwise the k-th file written is the manifest of the k-th perc's selection.
   */
  lemma {:induction false} OutputsSpec(snps: map<int, seq<int>>, perc: seq<int>, n: nat)
    requires n <= |perc|
    ensures var r := Outputs(snps, perc, n);
      && (r.Ok? <==> forall k :: 0 <= k < n ==> perc[k] in snps)
      && (r.Err? ==> r == Err(KeyError))
      && (r.Ok? ==>
        && |r.value.files| == n
        && (forall k :: 0 <= k < n ==> r.value.files[k] == (perc[k], Manifest(snps[perc[k]]))))
  {
    if n > 0 {
      OutputsSpec(snps, perc, n - 1);
      var prev := Outputs(snps, perc, n - 1);
      var p := perc[n - 1];
      if prev.Ok? && p in snps {
        var w := prev.value;
        var files := w.files + [(p, Manifest(snps[p]))];
        assert Outputs(snps, perc, n) == Ok(Written(w.counts[p := |snps[p]|], files));
        forall k | 0 <= k < n ensures perc[k] in snps && files[k] == (perc[k], Manifest(snps[perc[k]])) {
          if k < n - 1 {
            assert files[k] == w.files[k];
          }
        }
      } else if prev.Err? {
        assert Outputs(snps, perc, n) == prev;
      } else {
        assert Outputs(snps, perc, n) == Err(KeyError);
      }
    }
  }

  /** One round of the loop, as far as ll is concerned. */
  lemma OutputsCountsStep(snps: map<int, seq<int>>, perc: seq<int>, n: nat)
    requires 0 < n <= |perc| && Outputs(snps, perc, n).Ok?
    ensures var w := Outputs(snps, perc, n - 1); var p := perc[n - 1];
      && w.Ok? && p in snps
      && Outputs(snps, perc, n).value.counts == w.value.counts[p := |snps[p]|]
  {
  }

  /** ll keeps a key per perc. */
  lemma {:induction false} OutputsKeys(snps: map<int, seq<int>>, perc: seq<int>, n: nat)
    requires n <= |perc| && Outputs(snps, perc, n).Ok?
    ensures forall p :: p in Outputs(snps, perc, n).value.counts <==> p in perc
  {
    if n > 0 {
      OutputsKeys(snps, perc, n - 1);
      OutputsCountsStep(snps, perc, n);
    }
  }

  /** ll has a key per perc, and after the loop each holds the size of that perc's selection. */
  lemma {:induction false} OutputsCounts(snps: map<int, seq<int>>, perc: seq<int>, n: nat)
    requires n <= |perc| && Outputs(snps, perc, n).Ok?
    ensures var c := Outputs(snps, perc, n).value.counts;
      && (forall p :: p in c <==> p in perc)
      && (forall k :: 0 <= k < n ==> perc[k] in snps && perc[k] in c && c[perc[k]] == |snps[perc[k]]|)
  {
    OutputsKeys(snps, perc, n);
    if n > 0 {
      OutputsCounts(snps, perc, n - 1);
      OutputsCountsStep(snps, perc, n);
      CountsGrow(snps, perc, n, Outputs(snps, perc, n - 1).value.counts, Outputs(snps, perc, n).value.counts);
    }
  }

  /** Setting ll[perc[n - 1]] keeps the sizes recorded for the first n - 1 percs and adds the n-th. */
  lemma CountsGrow(snps: map<int, seq<int>>, perc: seq<int>, n: nat, w: map<int, int>, c: map<int, int>)
    requires 0 < n <= |perc| && perc[n - 1] in snps && c == w[perc[n - 1] := |snps[perc[n - 1]]|]
    requires forall k :: 0 <= k < n - 1 ==> perc[k] in snps && perc[k] in w && w[perc[k]] == |snps[perc[k]]|
    ensures forall k :: 0 <= k < n ==> perc[k] in snps && perc[k] in c && c[perc[k]] == |snps[perc[k]]|
  {
    forall k | 0 <= k < n ensures perc[k] in snps && perc[k] in c && c[perc[k]] == |snps[perc[k]]| {
      if k < n - 1 && perc[k] != perc[n - 1] {
        assert c[perc[k]] == w[perc[k]];
      }
    }
  }

  /** A failure in round n of the loop is the loop's failure. */
  lemma {:induction false} OutputsErrFrom(snps: map<int, seq<int>>, perc: seq<int>, n: nat, m: nat)
    requires n <= m <= |perc| && Outputs(snps, perc, n).Err?
    ensures Outputs(snps, perc, m) == Outputs(snps, perc, n)
    decreases m - n
  {
    if n < m {
      OutputsErrFrom(snps, perc, n, m - 1);
    }
  }

  /** A successful round of the loop, on the values the loop holds. */
  lemma OutputsAdvance(snps: map<int, seq<int>>, perc: seq<int>, n: nat, ll: map<int, int>,
                       files: seq<(int, seq<string>)>, lines: seq<string>)
    requires n < |perc| && Outputs(snps, perc, n) == Ok(Written(ll, files))
    requires perc[n] in snps && lines == Manifest(snps[perc[n]])
    ensures Outputs(snps, perc, n + 1) == Ok(Written(ll[perc[n] := |snps[perc[n]]|], files + [(perc[n], lines)]))
  {
  }

  /** A round that finds no selection ends the loop with KeyError. */
  lemma OutputsStop(snps: map<int, seq<int>>, perc: seq<int>, n: nat)
    requires n < |perc| && Outputs(snps, perc, n).Ok? && perc[n] !in snps
    ensures Outputs(snps, perc, |perc|) == Err(KeyError)
  {
    OutputsErrFrom(snps, perc, n + 1, |perc|);
  }

  /** The loop over perc: ll[p] = len(snps[p]) and the bestsnps file for p. */
  method WriteOutputs(snps: map<int, seq<int>>, perc: seq<int>) returns (r: Result<Written>)
    ensures r == Outputs(snps, perc, |perc|)
  {
    var ll := Zeros(perc);
    var files := [];
    var i := 0;
    while i < |perc|
      invariant 0 <= i <= |perc|
      invariant Outputs(snps, perc, i) == Ok(Written(ll, files))
    {
      var p := perc[i];
      if p !in snps {
        OutputsStop(snps, perc, i);
        return Err(KeyError);
      }
      var lines := WriteManifest(snps[p]);
      OutputsAdvance(snps, perc, i, ll, files, lines);
      ll := ll[p := |snps[p]|];
      files := files + [(p, lines)];
      i := i + 1;
    }
    r := Ok(Written(ll, files));
  }

  /**
   * one_process once load_data has given data and best_snps has given snps: the class_perc
   * selection must exist and be non-empty; then the selected columns of X (and of Xtest
   * with a test set) are saved, the bestsnps files written, and the report built.
   */
  function Processed(ch: int, classPerc: int, perc: seq<int>, data: Loaded, snps: map<int, seq<int>>,
                     testpat: Option<seq<int>>): Result<Worker>
    requires Ready(data, testpat)
  {
    if classPerc !in snps then Err(KeyError)
    else if snps[classPerc] == [] then Err(EmptyPrimarySelection)
    else
      var chosen := snps[classPerc];
      var xs := Project(data.xTrain, data.snp, chosen);
      var xts := if Tested(testpat) then Project(data.xTest.value, data.snp, chosen) else Ok([]);
      if xs.Err? then Err(xs.error)
      else if xts.Err? then Err(xts.error)
      else
        var w := Outputs(snps, perc, |perc|);
        if w.Err? then Err(w.error)
        else
          var yt := if Tested(testpat) then data.yTest.value else [];
          Ok(Worker(Report(ch, w.value.counts, chosen), data.yTrain, yt, xs.value, xts.value, w.value.files))
  }

  /**
   * The error cases of one_process: KeyError without a class_perc selection, the
   * empty-selection error for an empty one, and KeyError for a perc without a selection;
   * on success the report carries the class_perc selection and a count per perc.
   */
  lemma ProcessedSpec(ch: int, classPerc: int, perc: seq<int>, data: Loaded, snps: map<int, seq<int>>,
                      testpat: Option<seq<int>>)
    requires Ready(data, testpat)
    ensures var r := Processed(ch, classPerc, perc, data, snps, testpat);
      && (classPerc !in snps ==> r == Err(KeyError))
      && (classPerc in snps && snps[classPerc] == [] ==> r == Err(EmptyPrimarySelection))
      && (r.Ok? ==>
        && classPerc in snps && r.value.report.chosen == snps[classPerc] != []
        && r.value.report.ch == ch && r.value.yTrain == data.yTrain
        && (Tested(testpat) ==> r.value.yTest == data.yTest.value)
        && |r.value.xTrain| == |data.xTrain|
        && (forall p :: p in r.value.report.counts <==> p in perc)
        && (forall k :: 0 <= k < |perc| ==> perc[k] in snps && r.value.report.counts[perc[k]] == |snps[perc[k]]|)
        && |r.value.files| == |perc|
        && (forall k :: 0 <= k < |perc| ==> r.value.files[k] == (perc[k], Manifest(snps[perc[k]]))))
  {
    OutputsSpec(snps, perc, |perc|);
    if Outputs(snps, perc, |perc|).Ok? {
      OutputsCounts(snps, perc, |perc|);
    }
  }

  /** With selections of valid columns for class_perc and every perc, one_process succeeds. */
  lemma ProcessedChosen(ch: int, classPerc: int, perc: seq<int>, data: Loaded, snps: map<int, seq<int>>,
                        testpat: Option<seq<int>>)
    requires Ready(data, testpat)
    requires WindowSweep.AllChosen(snps, data.snp) && WindowSweep.HasKeys(snps, perc) && classPerc in snps && snps[classPerc] != []
    ensures Processed(ch, classPerc, perc, data, snps, testpat).Ok?
  {
    ProjectChosen(data.xTrain, data.snp, snps[classPerc]);
    if Tested(testpat) {
      ProjectChosen(data.xTest.value, data.snp, snps[classPerc]);
    }
    OutputsSpec(snps, perc, |perc|);
  }

  /** A class_perc selection naming a column at or beyond snp makes one_process raise IndexError. */
  lemma ProcessedBeyond(ch: int, classPerc: int, perc: seq<int>, data: Loaded, snps: map<int, seq<int>>,
                        testpat: Option<seq<int>>, k: nat)
    requires Ready(data, testpat)
    requires classPerc in snps && k < |snps[classPerc]| && snps[classPerc][k] >= data.snp
    ensures Processed(ch, classPerc, perc, data, snps, testpat) == Err(IndexError)
  {
    ProjectBeyond(data.xTrain, data.snp, snps[classPerc], k);
  }

  /**
   * The stale window of best_snps reaches one_process: when r divides snp and run_boruta
   * chooses anything on the stale window for the first perc, and that perc is class_perc,
   * the worker raises IndexError when it saves the selected columns.
   */
  lemma StaleProcessFails(sel: WindowSweep.Selector, X: WindowSweep.Matrix, y: seq<int>, perc: seq<int>, r: nat,
                          ch: int, data: Loaded, testpat: Option<seq<int>>)
    requires Ready(data, testpat)
    requires r > 0 && X.width == data.snp && data.snp % r == 0 && data.snp > 0 && perc != []
    requires WindowSweep.IsSelector(sel) && NoDuplicates(perc) && r <= data.snp
    requires sel(WindowSweep.StaleWindow(X, r, data.snp), y, perc[0]) != []
    ensures var best := WindowSweep.Best(sel, X, y, perc, r, data.snp);
      best.Ok? && Processed(ch, perc[0], perc, data, best.value, testpat) == Err(IndexError)
  {
    WindowSweep.StaleBeyond(sel, X, y, perc, r, data.snp);
    var snps := WindowSweep.Best(sel, X, y, perc, r, data.snp).value;
    var k :| 0 <= k < |snps[perc[0]]| && snps[perc[0]][k] >= data.snp;
    ProcessedBeyond(ch, perc[0], perc, data, snps, testpat, k);
  }

  /** With the corrected window sweep, a non-empty class_perc selection lets one_process succeed. */
  lemma FixedProcessSucceeds(sel: WindowSweep.Selector, X: WindowSweep.Matrix, y: seq<int>, perc: seq<int>, r: nat,
                             ch: int, classPerc: int, data: Loaded, testpat: Option<seq<int>>)
    requires Ready(data, testpat)
    requires r > 0 && X.width == data.snp && WindowSweep.IsSelector(sel) && NoDuplicates(perc)
    requires var snps := WindowSweep.Sweep(sel, X, y, perc, r, data.snp); classPerc in snps && snps[classPerc] != []
    ensures Processed(ch, classPerc, perc, data, WindowSweep.Sweep(sel, X, y, perc, r, data.snp), testpat).Ok?
  {
    var snps := WindowSweep.Sweep(sel, X, y, perc, r, data.snp);
    WindowSweep.SweepChosen(sel, X, y, perc, r, data.snp);
    ProcessedChosen(ch, classPerc, perc, data, snps, testpat);
  }

  /** load_data hands one_process matrices of its width, and test parts whenever there is a test set. */
  lemma LoadReady(ch: int, sets: seq<DataSet>, subset: bool, pat: seq<int>, testpat: Option<seq<int>>)
    ensures var r := Load(ch, sets, subset, pat, testpat); r.Ok? ==> Ready(r.value, testpat)
  {
    var cols := SnpColumns(ch, sets, subset);
    if cols.Ok? {
      FillShape(sets, cols.value, pat, testpat);
    }
  }

  /** one_process from the class_perc check on. */
  method OneProcess(ch: int, classPerc: int, perc: seq<int>, data: Loaded, snps: map<int, seq<int>>,
                    testpat: Option<seq<int>>) returns (r: Result<Worker>)
    requires Ready(data, testpat)
    ensures r == Processed(ch, classPerc, perc, data, snps, testpat)
  {
    if classPerc !in snps {
      return Err(KeyError);
    }
    var chosen := snps[classPerc];
    if chosen == [] {
      return Err(EmptyPrimarySelection);
    }
    var xs := Project(data.xTrain, data.snp, chosen);
    if xs.Err? {
      return Err(xs.error);
    }
    var xts: seq<seq<string>> := [];
    var yt: seq<int> := [];
    if Tested(testpat) {
      var p := Project(data.xTest.value, data.snp, chosen);
      if p.Err? {
        return Err(p.error);
      }
      xts := p.value;
      yt := data.yTest.value;
    }
    var w := WriteOutputs(snps, perc);
    if w.Err? {
      return Err(w.error);
    }
    r := Ok(Worker(Report(ch, w.value.counts, chosen), data.yTrain, yt, xs.value, xts, w.value.files));
  }

  // ---------------------------------------------------------------------------
  // pooling
  // ---------------------------------------------------------------------------

  function Reports(ws: seq<Worker>): (rs: seq<Report>)
    ensures |rs| == |ws| && forall k :: 0 <= k < |ws| ==> rs[k] == ws[k].report
  {
    seq(|ws|, k requires 0 <= k < |ws| => ws[k].report)
  }

  function TrainLabels(ws: seq<Worker>): (ys: seq<seq<int>>)
    ensures |ys| == |ws| && forall k :: 0 <= k < |ws| ==> ys[k] == ws[k].yTrain
  {
    seq(|ws|, k requires 0 <= k < |ws| => ws[k].yTrain)
  }

  function TestLabels(ws: seq<Worker>): (ys: seq<seq<int>>)
    ensures |ys| == |ws| && forall k :: 0 <= k < |ws| ==> ys[k] == ws[k].yTest
  {
    seq(|ws|, k requires 0 <= k < |ws| => ws[k].yTest)
  }

  /** The chromosomes the reports are about, in order. */
  function Chromosomes(rs: seq<Report>): (cs: seq<int>)
    ensures |cs| == |rs| && forall k :: 0 <= k < |rs| ==> cs[k] == rs[k].ch
  {
    seq(|rs|, k requires 0 <= k < |rs| => rs[k].ch)
  }

  /** `{ch: None for ch in chrlist}` */
  function Unset(chrlist: seq<int>): map<int, Option<seq<int>>> {
    map c | c in chrlist :: None
  }

  /** selected_snps: None for every chromosome of chrlist, then the class_perc selection of each report in turn. */
  function Selected(chrlist: seq<int>, rs: seq<Report>): map<int, Option<seq<int>>> {
    if rs == [] then Unset(chrlist)
    else
      var l := rs[|rs| - 1];
      Selected(chrlist, rs[..|rs| - 1])[l.ch := Some(l.chosen)]
  }

  /** selected_snps has a key for every chromosome of chrlist and every reported chromosome, and no other. */
  lemma {:induction false} SelectedKeys(chrlist: seq<int>, rs: seq<Report>)
    ensures forall c :: c in Selected(chrlist, rs) <==> c in chrlist || c in Chromosomes(rs)
  {
    if rs != [] {
      var init := rs[..|rs| - 1];
      SelectedKeys(chrlist, init);
      assert Chromosomes(rs) == Chromosomes(init) + [rs[|rs| - 1].ch];
    }
  }

  /** A chromosome of chrlist that no report is about stays None. */
  lemma {:induction false} SelectedNone(chrlist: seq<int>, rs: seq<Report>, c: int)
    requires c in chrlist && c !in Chromosomes(rs)
    ensures c in Selected(chrlist, rs) && Selected(chrlist, rs)[c] == None
  {
    if rs != [] {
      var init := rs[..|rs| - 1];
      assert Chromosomes(rs) == Chromosomes(init) + [rs[|rs| - 1].ch];
      SelectedNone(chrlist, init, c);
    }
  }

  /** A chromosome's entry is the selection of the last report about it. */
  lemma {:induction false} SelectedLast(chrlist: seq<int>, rs: seq<Report>, k: nat)
    requires k < |rs| && forall j :: k < j < |rs| ==> rs[j].ch != rs[k].ch
    ensures rs[k].ch in Selected(chrlist, rs) && Selected(chrlist, rs)[rs[k].ch] == Some(rs[k].chosen)
  {
    if k < |rs| - 1 {
      var init := rs[..|rs| - 1];
      SelectedLast(chrlist, init, k);
    }
  }

  /** The count a report has for p, 0 when it has none. */
  function CountOf(counts: map<int, int>, p: int): int {
    if p in counts then counts[p] else 0
  }

  /** The sum over the reports of their counts for p. */
  function SumAt(rs: seq<Report>, p: int): int {
    if rs == [] then 0 else SumAt(rs[..|rs| - 1], p) + CountOf(rs[|rs| - 1].counts, p)
  }

  /** Every report has a count for every perc. */
  predicate Complete(perc: seq<int>, rs: seq<Report>) {
    forall k, j :: 0 <= k < |rs| && 0 <= j < |perc| ==> perc[j] in rs[k].counts
  }

  /** The inner loop of pooling: all_snps[p] += counts[p] for every p of ps in turn. */
  function AddCounts(all: map<int, int>, counts: map<int, int>, ps: seq<int>): (r: Result<map<int, int>>)
    requires forall k :: 0 <= k < |ps| ==> ps[k] in all
    ensures r.Ok? ==> r.value.Keys == all.Keys
  {
    if ps == [] then Ok(all)
    else
      match AddCounts(all, counts, ps[..|ps| - 1])
      case Err(e) => Err(e)
      case Ok(a) =>
        var p := ps[|ps| - 1];
        if p !in counts then Err(KeyError) else Ok(a[p := a[p] + counts[p]])
  }

  /** all_snps after the first reports: 0 for every perc, then each report's counts added. */
  function Totals(perc: seq<int>, rs: seq<Report>): (r: Result<map<int, int>>)
    ensures r.Ok? ==> forall p :: p in r.value <==> p in perc
  {
    if rs == [] then Ok(Zeros(perc))
    else
      match Totals(perc, rs[..|rs| - 1])
      case Err(e) => Err(e)
      case Ok(a) => AddCounts(a, rs[|rs| - 1].counts, perc)
  }

  /** One more element of ps. */
  lemma CountSnoc(s: seq<int>, x: int, p: int)
    ensures Count(s + [x], p) == Count(s, p) + (if x == p then 1 else 0)
  {
    assert multiset(s + [x]) == multiset(s) + multiset{x};
  }

  /** One round of the inner loop. */
  lemma AddCountsStep(all: map<int, int>, counts: map<int, int>, ps: seq<int>)
    requires ps != [] && forall k :: 0 <= k < |ps| ==> ps[k] in all
    requires AddCounts(all, counts, ps).Ok?
    ensures var prev := AddCounts(all, counts, ps[..|ps| - 1]); var p := ps[|ps| - 1];
      && prev.Ok? && p in counts && p in prev.value
      && AddCounts(all, counts, ps) == Ok(prev.value[p := prev.value[p] + counts[p]])
  {
  }

  /** Adding one report fails with KeyError exactly when the report lacks one of ps. */
  lemma {:induction false} AddCountsOk(all: map<int, int>, counts: map<int, int>, ps: seq<int>)
    requires forall k :: 0 <= k < |ps| ==> ps[k] in all
    ensures var r := AddCounts(all, counts, ps);
      && (r.Ok? <==> forall k :: 0 <= k < |ps| ==> ps[k] in counts)
      && (r.Err? ==> r == Err(KeyError))
  {
    if ps != [] {
      AddCountsOk(all, counts, ps[..|ps| - 1]);
    }
  }

  /** Adding one report adds its count Count(ps, p) times to every key p: once per occurrence of p in ps. */
  lemma {:induction false} AddCountsSpec(all: map<int, int>, counts: map<int, int>, ps: seq<int>)
    requires forall k :: 0 <= k < |ps| ==> ps[k] in all
    requires AddCounts(all, counts, ps).Ok?
    ensures var r := AddCounts(all, counts, ps).value;
      forall p :: p in all ==> r[p] == all[p] + Count(ps, p) * CountOf(counts, p)
  {
    if ps != [] {
      var init := ps[..|ps| - 1];
      var last := ps[|ps| - 1];
      AddCountsStep(all, counts, ps);
      AddCountsSpec(all, counts, init);
      var a := AddCounts(all, counts, init).value;
      var r := a[last := a[last] + counts[last]];
      assert ps == init + [last];
      forall p | p in all ensures r[p] == all[p] + Count(ps, p) * CountOf(counts, p) {
        CountSnoc(init, last, p);
        if p == last {
          Distribute(counts[p], Count(init, p), 1);
        }
      }
    }
  }

  /**
   * all_snps: pooling fails with KeyError exactly when some report lacks a perc; otherwise
   * all_snps[p] is the sum of every report's count for p, once per occurrence of p in perc.
   */
  lemma {:induction false} TotalsSpec(perc: seq<int>, rs: seq<Report>)
    ensures var r := Totals(perc, rs);
      && (r.Ok? <==> Complete(perc, rs))
      && (r.Err? ==> r == Err(KeyError))
      && (r.Ok? ==> forall p :: p in perc ==> r.value[p] == Count(perc, p) * SumAt(rs, p))
  {
    if rs != [] {
      var init := rs[..|rs| - 1];
      var last := rs[|rs| - 1];
      TotalsSpec(perc, init);
      CompleteSnoc(perc, rs);
      var t := Totals(perc, init);
      if t.Ok? {
        AddCountsOk(t.value, last.counts, perc);
        TotalsStep(perc, rs);
        var r := Totals(perc, rs);
        if r.Ok? {
          AddCountsSpec(t.value, last.counts, perc);
          forall p | p in perc ensures r.value[p] == Count(perc, p) * SumAt(rs, p) {
            var c, v := Count(perc, p), CountOf(last.counts, p);
            assert SumAt(rs, p) == SumAt(init, p) + v;
            assert r.value[p] == t.value[p] + c * v;
            Distribute(c, SumAt(init, p), v);
          }
        }
      } else {
        TotalsStep(perc, rs);
      }
    }
  }

  lemma Distribute(c: int, a: int, b: int)
    ensures c * (a + b) == c * a + c * b
    ensures (a + b) * c == a * c + b * c
  {
  }

  /** One more report. */
  lemma TotalsStep(perc: seq<int>, rs: seq<Report>)
    requires rs != []
    ensures var t := Totals(perc, rs[..|rs| - 1]);
      && (t.Err? ==> Totals(perc, rs) == t)
      && (t.Ok? ==> Totals(perc, rs) == AddCounts(t.value, rs[|rs| - 1].counts, perc))
  {
  }

  /** The reports are complete when the earlier ones are and the last one has every perc. */
  lemma CompleteSnoc(perc: seq<int>, rs: seq<Report>)
    requires rs != []
    ensures Complete(perc, rs) <==>
      Complete(perc, rs[..|rs| - 1]) && forall j :: 0 <= j < |perc| ==> perc[j] in rs[|rs| - 1].counts
  {
    var init := rs[..|rs| - 1];
    if Complete(perc, init) && forall j :: 0 <= j < |perc| ==> perc[j] in rs[|rs| - 1].counts {
      forall k, j | 0 <= k < |rs| && 0 <= j < |perc| ensures perc[j] in rs[k].counts {
        if k < |rs| - 1 {
          assert rs[k] == init[k];
        }
      }
    }
  }

  /** A value that occurs in a sequence without duplicates occurs once. */
  lemma {:induction false} CountDistinct(s: seq<int>, x: int)
    requires NoDuplicates(s) && x in s
    ensures Count(s, x) == 1
  {
    var init := s[..|s| - 1];
    var last := s[|s| - 1];
    assert s == init + [last];
    assert multiset(s) == multiset(init) + multiset{last};
    if x == last {
      assert x !in init;
    } else {
      assert x in init;
      CountDistinct(init, x);
    }
  }

  /** With distinct percs, all_snps[p] is exactly the sum over the reports of their counts for p. */
  lemma TotalsDistinct(perc: seq<int>, rs: seq<Report>, p: int)
    requires NoDuplicates(perc) && p in perc && Totals(perc, rs).Ok?
    ensures Totals(perc, rs).value[p] == SumAt(rs, p)
  {
    TotalsSpec(perc, rs);
    CountDistinct(perc, p);
  }

  /** A failure while adding a report is pooling's failure. */
  lemma {:induction false} AddCountsErrFrom(all: map<int, int>, counts: map<int, int>, ps: seq<int>, n: nat)
    requires forall k :: 0 <= k < |ps| ==> ps[k] in all
    requires n <= |ps| && AddCounts(all, counts, ps[..n]).Err?
    ensures AddCounts(all, counts, ps) == AddCounts(all, counts, ps[..n])
    decreases |ps| - n
  {
    if n < |ps| {
      assert ps[..n + 1][..n] == ps[..n];
      AddCountsErrFrom(all, counts, ps, n + 1);
    } else {
      assert ps[..n] == ps;
    }
  }

  lemma {:induction false} TotalsErrFrom(perc: seq<int>, rs: seq<Report>, n: nat)
    requires n <= |rs| && Totals(perc, rs[..n]).Err?
    ensures Totals(perc, rs) == Totals(perc, rs[..n])
    decreases |rs| - n
  {
    if n < |rs| {
      assert rs[..n + 1][..n] == rs[..n];
      TotalsErrFrom(perc, rs, n + 1);
    } else {
      assert rs[..n] == rs;
    }
  }

  /** The check of one label queue: the first vector taken, and every later one equal to it. */
  function Agree(vs: seq<seq<int>>, part: string): Result<seq<int>> {
    if vs == [] then Err(Blocked)
    else if forall k :: 0 <= k < |vs| ==> vs[k] == vs[0] then Ok(vs[0])
    else Err(LabelMismatch(part))
  }

  /** A queue that passes the check holds nothing but the vector saved. */
  lemma AgreeOk(vs: seq<seq<int>>, part: string)
    requires Agree(vs, part).Ok?
    ensures forall k :: 0 <= k < |vs| ==> vs[k] == Agree(vs, part).value
  {
  }

  /** The order in which the workers finished does not matter to the label check. */
  lemma AgreeOrder(vs: seq<seq<int>>, ws: seq<seq<int>>, part: string)
    requires multiset(vs) == multiset(ws)
    ensures Agree(vs, part) == Agree(ws, part)
  {
    if vs != [] {
      assert vs[0] in multiset(ws);
      assert ws != [];
      assert ws[0] in multiset(vs);
      if forall k :: 0 <= k < |vs| ==> vs[k] == vs[0] {
        forall k | 0 <= k < |ws| ensures ws[k] == vs[0] {
          assert ws[k] in multiset(vs);
        }
      }
      if forall k :: 0 <= k < |ws| ==> ws[k] == ws[0] {
        forall k | 0 <= k < |vs| ensures vs[k] == ws[0] {
          assert vs[k] in multiset(ws);
        }
      }
    } else {
      assert |ws| == |multiset(ws)| == 0;
    }
  }

  /** The line '%d\t%d\n' of all_snps<run>.txt for a perc and its total. */
  function TotalLine(p: int, n: int): string {
    Render(p) + "\t" + Render(n) + "\n"
  }

  /** The lines of all_snps<run>.txt: one per perc, in the order of perc. */
  function TotalLines(perc: seq<int>, all: map<int, int>): seq<string>
    requires forall k :: 0 <= k < |perc| ==> perc[k] in all
  {
    seq(|perc|, k requires 0 <= k < |perc| => TotalLine(perc[k], all[perc[k]]))
  }

  /** A line of all_snps<run>.txt splits at its tab into the perc and its total, both read back by int(). */
  lemma TotalLineRead(p: int, n: int)
    ensures Split(TotalLine(p, n), '\t') == [Render(p), Render(n) + "\n"]
    ensures ParseInt(Render(p)) == Ok(p) && ParseInt(Render(n) + "\n") == Ok(n)
  {
    RenderIsWord(p);
    RenderIsWord(n);
    assert '\t' !in Render(n) + "\n";
    SplitTwo(Render(p), Render(n) + "\n", '\t');
    assert TotalLine(p, n) == Render(p) + ['\t'] + (Render(n) + "\n");
    ParseRenderBare(p);
    ReadLine(n);
  }

  /** What pooling leaves: selected_snps, the saved y_train (and y_test) and the lines of all_snps<run>.txt. */
  datatype Pooled = Pooled(selected: map<int, Option<seq<int>>>, yTrain: seq<int>, yTest: Option<seq<int>>,
                           allSnps: seq<string>)

  /** pooling, given the finished workers in the order their results are taken from the queues. */
  function Pool(chrlist: seq<int>, perc: seq<int>, ws: seq<Worker>, testpat: Option<seq<int>>): Result<Pooled> {
    var rs := Reports(ws);
    var all := Totals(perc, rs);
    var yt := Agree(TrainLabels(ws), "train");
    var ytt := if Tested(testpat) then Agree(TestLabels(ws), "test") else Ok([]);
    if all.Err? then Err(all.error)
    else if yt.Err? then Err(yt.error)
    else if ytt.Err? then Err(ytt.error)
    else Ok(Pooled(Selected(chrlist, rs), yt.value, if Tested(testpat) then Some(ytt.value) else None,
                   TotalLines(perc, all.value)))
  }

  /** Every train label vector equals the first. */
  predicate SameTrain(ws: seq<Worker>) {
    forall k :: 0 <= k < |ws| ==> ws[k].yTrain == ws[0].yTrain
  }

  /** Every test label vector equals the first. */
  predicate SameTest(ws: seq<Worker>) {
    forall k :: 0 <= k < |ws| ==> ws[k].yTest == ws[0].yTest
  }

  /**
   * pooling succeeds exactly when every report has every perc, some worker finished, and
   * all train label vectors (and, with a test set, all test ones) are equal. A missing
   * perc is a KeyError, no worker at all leaves the main process blocked on the label
   * queue, and unequal vectors are the mismatch error of that queue.
   */
  lemma PoolOutcome(chrlist: seq<int>, perc: seq<int>, ws: seq<Worker>, testpat: Option<seq<int>>)
    ensures var r := Pool(chrlist, perc, ws, testpat); var c := Complete(perc, Reports(ws));
      && (r.Ok? <==> c && ws != [] && SameTrain(ws) && (Tested(testpat) ==> SameTest(ws)))
      && (!c ==> r == Err(KeyError))
      && (c && ws == [] ==> r == Err(Blocked))
      && (c && ws != [] && !SameTrain(ws) ==> r == Err(LabelMismatch("train")))
      && (c && ws != [] && SameTrain(ws) && Tested(testpat) && !SameTest(ws) ==> r == Err(LabelMismatch("test")))
  {
    TotalsSpec(perc, Reports(ws));
  }

  /**
   * On success pooling saves the common label vectors, keeps the test one exactly when
   * there is a test set, and writes one all_snps line per perc holding that perc's total.
   */
  lemma PoolValues(chrlist: seq<int>, perc: seq<int>, ws: seq<Worker>, testpat: Option<seq<int>>)
    requires Pool(chrlist, perc, ws, testpat).Ok?
    ensures var v := Pool(chrlist, perc, ws, testpat).value;
      && v.selected == Selected(chrlist, Reports(ws))
      && (forall k :: 0 <= k < |ws| ==> v.yTrain == ws[k].yTrain)
      && (v.yTest.Some? <==> Tested(testpat))
      && (v.yTest.Some? ==> forall k :: 0 <= k < |ws| ==> v.yTest.value == ws[k].yTest)
      && |v.allSnps| == |perc|
      && forall k :: 0 <= k < |perc| ==>
           v.allSnps[k] == TotalLine(perc[k], Count(perc, perc[k]) * SumAt(Reports(ws), perc[k]))
  {
    var all := Totals(perc, Reports(ws));
    TotalsSpec(perc, Reports(ws));
    AgreeOk(TrainLabels(ws), "train");
    if Tested(testpat) {
      AgreeOk(TestLabels(ws), "test");
    }
  }

  /** The label check as pooling runs it on one queue. */
  method CheckLabels(vs: seq<seq<int>>, part: string) returns (r: Result<seq<int>>)
    ensures r == Agree(vs, part)
  {
    if vs == [] {
      return Err(Blocked);
    }
    var yt := vs[0];
    var i := 1;
    while i < |vs|
      invariant 1 <= i <= |vs|
      invariant forall k :: 0 <= k < i ==> vs[k] == yt
    {
      if vs[i] != yt {
        return Err(LabelMismatch(part));
      }
      i := i + 1;
    }
    r := Ok(yt);
  }

  /** The inner loop over perc for one report. */
  method AddReport(all: map<int, int>, counts: map<int, int>, perc: seq<int>) returns (r: Result<map<int, int>>)
    requires forall k :: 0 <= k < |perc| ==> perc[k] in all
    ensures r == AddCounts(all, counts, perc)
  {
    var acc := all;
    var j := 0;
    while j < |perc|
      invariant 0 <= j <= |perc|
      invariant AddCounts(all, counts, perc[..j]) == Ok(acc)
    {
      var p := perc[j];
      assert perc[..j + 1][..j] == perc[..j];
      if p !in counts {
        AddCountsErrFrom(all, counts, perc, j + 1);
        return Err(KeyError);
      }
      acc := acc[p := acc[p] + counts[p]];
      j := j + 1;
    }
    assert perc[..j] == perc;
    r := Ok(acc);
  }

  /** The lines of all_snps<run>.txt, one per perc. */
  method WriteTotals(perc: seq<int>, all: map<int, int>) returns (lines: seq<string>)
    requires forall k :: 0 <= k < |perc| ==> perc[k] in all
    ensures lines == TotalLines(perc, all)
  {
    lines := [];
    var i := 0;
    while i < |perc|
      invariant 0 <= i <= |perc|
      invariant |lines| == i && forall k :: 0 <= k < i ==> lines[k] == TotalLine(perc[k], all[perc[k]])
    {
      lines := lines + [TotalLine(perc[i], all[perc[i]])];
      i := i + 1;
    }
  }

  /** The loop over q: selected_snps and all_snps, report by report. */
  method Gather(chrlist: seq<int>, perc: seq<int>, rs: seq<Report>)
    returns (selected: map<int, Option<seq<int>>>, r: Result<map<int, int>>)
    ensures r == Totals(perc, rs)
    ensures r.Ok? ==> selected == Selected(chrlist, rs)
  {
    selected := Unset(chrlist);
    var all := Zeros(perc);
    var i := 0;
    while i < |rs|
      invariant 0 <= i <= |rs|
      invariant selected == Selected(chrlist, rs[..i])
      invariant Totals(perc, rs[..i]) == Ok(all)
    {
      var qq := rs[i];
      assert rs[..i + 1][..i] == rs[..i];
      selected := selected[qq.ch := Some(qq.chosen)];
      var a := AddReport(all, qq.counts, perc);
      if a.Err? {
        TotalsErrFrom(perc, rs, i + 1);
        return selected, Err(a.error);
      }
      all := a.value;
      i := i + 1;
    }
    assert rs[..i] == rs;
    r := Ok(all);
  }

  /** pooling after every worker has joined. */
  method Pooling(chrlist: seq<int>, perc: seq<int>, ws: seq<Worker>, testpat: Option<seq<int>>)
    returns (r: Result<Pooled>)
    ensures r == Pool(chrlist, perc, ws, testpat)
  {
    var selected, all := Gather(chrlist, perc, Reports(ws));
    if all.Err? {
      return Err(all.error);
    }
    var yt := CheckLabels(TrainLabels(ws), "train");
    if yt.Err? {
      return Err(yt.error);
    }
    var ytest: Option<seq<int>> := None;
    if Tested(testpat) {
      var t := CheckLabels(TestLabels(ws), "test");
      if t.Err? {
        return Err(t.error);
      }
      ytest := Some(t.value);
    }
    var lines := WriteTotals(perc, all.value);
    r := Ok(Pooled(selected, yt.value, ytest, lines));
  }
}
