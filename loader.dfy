/**
 * load_data and patients: reading one chromosome's genotype rows into the train and
 * test matrices, and the per-data-set patient counts in genome_stats.txt.
 *
 * Files are given as their lines (the subset file and genome_stats.txt) or as the rows
 * csv.reader yields (X_chr<ch>_nodif.csv, header row included); Y_chr.csv is given as
 * the label column pandas reads. A matrix cell holds the text of the CSV cell it was
 * copied from, and an unwritten cell holds "0".
 */
module Loader {
  import opened Outcomes
  import opened PyStr
  import opened Seqs

  /** One data set's files for the chromosome. */
  datatype DataSet = DataSet(subsetFile: seq<string>, stats: seq<string>, csv: seq<seq<string>>, y: seq<int>)

  /** The value np.zeros puts in every cell. */
  const Zero: string := "0"

  // ---------------------------------------------------------------- the SNP columns

  /** `int(line.split()[0])` */
  function FirstField(line: string): Result<int> {
    var w := SplitWs(line);
    if w == [] then Err(IndexError) else ParseInt(w[0])
  }

  /** f applied to every element in order; the first failure ends the loop with its exception. */
  function Each<X, Y>(f: X -> Result<Y>, xs: seq<X>): (r: Result<seq<Y>>)
    ensures r.Ok? ==> |r.value| == |xs|
  {
    if xs == [] then Ok([])
    else
      match Each(f, xs[..|xs| - 1])
      case Err(e) => Err(e)
      case Ok(ys) =>
        match f(xs[|xs| - 1])
        case Err(e) => Err(e)
        case Ok(y) => Ok(ys + [y])
  }

  /** The subset file's loop: the first field of every line, in order. */
  function SubsetIds(lines: seq<string>): Result<seq<int>> {
    Each(FirstField, lines)
  }

  /** The subset file of every data set, read in order. */
  function SubsetLists(sets: seq<DataSet>): Result<seq<seq<int>>> {
    Each((d: DataSet) => SubsetIds(d.subsetFile), sets)
  }

  /** `line.startswith('%d\t' % ch)` */
  predicate OfChromosome(line: string, ch: int) {
    StartsWith(line, Render(ch) + "\t")
  }

  /** `int(line.split()[-1])` */
  function LastField(line: string): Result<int> {
    var w := SplitWs(line);
    if w == [] then Err(IndexError) else ParseInt(w[|w| - 1])
  }

  /**
   * The genome_stats.txt loop: the last field of the first line of the chromosome.
   * Without such a line snp stays None and range(None) raises TypeError.
   */
  function StatsWidth(ch: int, lines: seq<string>): Result<int> {
    if lines == [] then Err(TypeError)
    else if OfChromosome(lines[0], ch) then LastField(lines[0])
    else StatsWidth(ch, lines[1..])
  }

  /** The SNP list of every data set and the matrix width snp. */
  datatype Columns = Columns(lists: seq<seq<int>>, snp: int)

  /**
   * The first half of load_data. With a subset, every data set's subset file is read and snp
   * is the length of the last one's list (an empty dataset dict leaves `name` unbound).
   * Without one, a single data set takes range(snp) from its genome_stats.txt.
   */
  function SnpColumns(ch: int, sets: seq<DataSet>, subset: bool): (r: Result<Columns>)
    ensures r.Ok? ==> |r.value.lists| == |sets|
  {
    if subset then
      match SubsetLists(sets)
      case Err(e) => Err(e)
      case Ok(ls) => if ls == [] then Err(UnboundLocal) else Ok(Columns(ls, |ls[|ls| - 1]|))
    else if |sets| > 1 then Err(NoParameter("subset"))
    else if sets == [] then Err(IndexError)
    else
      match StatsWidth(ch, sets[0].stats)
      case Err(e) => Err(e)
      case Ok(snp) => Ok(Columns([Range(0, snp)], snp))
  }

  // ---------------------------------------------------------------- one row

  /** Python's `s[k]`: a negative position counts from the end. */
  function PyIndex(s: seq<string>, k: int): Result<string> {
    if 0 <= k < |s| then Ok(s[k])
    else if -|s| <= k < 0 then Ok(s[|s| + k])
    else Err(IndexError)
  }

  /** `line[s + 1]` for every s of the SNP list, in order. */
  function Cells(line: seq<string>, sl: seq<int>): Result<seq<string>> {
    Each((s: int) => PyIndex(line, s + 1), sl)
  }

  /**
   * The matrix row a CSV row becomes in a matrix of width snp: column j gets
   * `line[sl[j] + 1]`, and the columns past the SNP list keep their zero.
   */
  function RowOf(line: seq<string>, sl: seq<int>, snp: int): Result<seq<string>> {
    if |sl| > snp then Err(IndexError)
    else
      match Cells(line, sl)
      case Err(e) => Err(e)
      case Ok(cs) => Ok(cs + seq(snp - |sl|, _ => Zero))
  }

  // ---------------------------------------------------------------- routing the rows

  /**
   * The loop variables of load_data: the rows and labels written so far to each matrix
   * (their counts are train_row and test_row), `done`, and the last value of `i`.
   */
  datatype Routed = Routed(xTrain: seq<seq<string>>, yTrain: seq<int>, xTest: seq<seq<string>>, yTest: seq<int>,
                           done: int, last: Option<int>)

  const Begin: Routed := Routed([], [], [], [], 0, None)

  /**
   * Row i of data set d: to the test matrix when done + i is in testpat, to the train
   * matrix otherwise; `y[i]` and a row past the preallocated ones are IndexErrors.
   */
  function RouteRow(st: Routed, d: DataSet, i: nat, sl: seq<int>, snp: int, cap: int, testpat: seq<int>): Result<Routed>
    requires i < |d.csv| - 1
  {
    var line := d.csv[i + 1];
    if st.done + i !in testpat then
      if i >= |d.y| || |st.yTrain| >= cap then Err(IndexError)
      else
        match RowOf(line, sl, snp)
        case Err(e) => Err(e)
        case Ok(row) => Ok(st.(xTrain := st.xTrain + [row], yTrain := st.yTrain + [d.y[i]]))
    else
      if i >= |d.y| || |st.yTest| >= |testpat| then Err(IndexError)
      else
        match RowOf(line, sl, snp)
        case Err(e) => Err(e)
        case Ok(row) => Ok(st.(xTest := st.xTest + [row], yTest := st.yTest + [d.y[i]]))
  }

  /** The first n rows of data set d (after its header). */
  function RouteRows(st: Routed, d: DataSet, n: nat, sl: seq<int>, snp: int, cap: int, testpat: seq<int>): Result<Routed>
    requires n <= |d.csv| - 1
  {
    if n == 0 then Ok(st)
    else
      match RouteRows(st, d, n - 1, sl, snp, cap, testpat)
      case Err(e) => Err(e)
      case Ok(s) => RouteRow(s, d, n - 1, sl, snp, cap, testpat)
  }

  /**
   * One data set: the header is skipped with next(reader), the rows are routed, and
   * `done += i + 1` uses the last `i` any data set's loop left behind.
   */
  function RouteSet(st: Routed, d: DataSet, sl: seq<int>, snp: int, cap: int, testpat: seq<int>): Result<Routed> {
    if d.csv == [] then Err(StopIteration)
    else
      var n := |d.csv| - 1;
      var r := RouteRows(st, d, n, sl, snp, cap, testpat);
      if r.Err? then r
      else
        var last := if n == 0 then r.value.last else Some(n - 1);
        if last.None? then Err(UnboundLocal)
        else Ok(Routed(r.value.xTrain, r.value.yTrain, r.value.xTest, r.value.yTest, r.value.done + last.value + 1, last))
  }

  /** The data sets in order, data set k with SNP list lists[k]. */
  function RouteSets(st: Routed, sets: seq<DataSet>, lists: seq<seq<int>>, snp: int, cap: int, testpat: seq<int>): Result<Routed>
    requires |lists| == |sets|
  {
    if sets == [] then Ok(st)
    else
      match RouteSets(st, sets[..|sets| - 1], lists[..|sets| - 1], snp, cap, testpat)
      case Err(e) => Err(e)
      case Ok(s) => RouteSet(s, sets[|sets| - 1], lists[|sets| - 1], snp, cap, testpat)
  }

  /** The preallocated matrix of n rows of width snp, the written rows first. */
  function Padded(rows: seq<seq<string>>, n: int, snp: nat): seq<seq<string>> {
    rows + seq(if n > |rows| then n - |rows| else 0, _ => seq(snp, _ => Zero))
  }

  /** The preallocated label vector of length n, the written labels first. */
  function PaddedY(ys: seq<int>, n: int): seq<int> {
    ys + seq(if n > |ys| then n - |ys| else 0, _ => 0)
  }

  /** What load_data returns: X_train, y_train, snp, and X_test and y_test when testpat is not empty. */
  datatype Loaded = Loaded(xTrain: seq<seq<string>>, yTrain: seq<int>, snp: nat,
                           xTest: Option<seq<seq<string>>>, yTest: Option<seq<int>>)

  /**
   * load_data(ch, dataset, outdir, pat, run, subset, testpat), with the data sets in the
   * dict's order and pat's values; a testpat of None is the empty list.
   */
  function Load(ch: int, sets: seq<DataSet>, subset: bool, pat: seq<int>, testpat: Option<seq<int>>): Result<Loaded> {
    match SnpColumns(ch, sets, subset)
    case Err(e) => Err(e)
    case Ok(cols) => Fill(sets, cols, pat, testpat)
  }

  /** The second half of load_data: the matrices are allocated and the rows of every data set routed into them. */
  function Fill(sets: seq<DataSet>, cols: Columns, pat: seq<int>, testpat: Option<seq<int>>): Result<Loaded>
    requires |cols.lists| == |sets|
  {
    var tp := if testpat.None? then [] else testpat.value;
    var cap := Sum(pat) - |tp|;
    if cap < 0 || cols.snp < 0 then Err(ValueError)
    else
      match RouteSets(Begin, sets, cols.lists, cols.snp, cap, tp)
      case Err(e) => Err(e)
      case Ok(st) =>
        if tp == [] then Ok(Loaded(Padded(st.xTrain, cap, cols.snp), PaddedY(st.yTrain, cap), cols.snp, None, None))
        else
          Ok(Loaded(Padded(st.xTrain, cap, cols.snp), PaddedY(st.yTrain, cap), cols.snp,
                    Some(Padded(st.xTest, |tp|, cols.snp)), Some(PaddedY(st.yTest, |tp|))))
  }

  // ---------------------------------------------------------------- which rows go where

  /** The rows of a data set: its CSV rows after the header. */
  function RowCount(d: DataSet): nat {
    if d.csv == [] then 0 else |d.csv| - 1
  }

  /** The rows of all the data sets together. */
  function Offset(sets: seq<DataSet>): nat {
    if sets == [] then 0 else Offset(sets[..|sets| - 1]) + RowCount(sets[|sets| - 1])
  }

  /**
   * Of the first n rows of data set k, whose global positions start at off, the rows
   * (k, i) whose position off + i is in testpat (toTest) or is not (not toTest), in order.
   */
  function ChosenRows(k: nat, off: int, n: nat, testpat: seq<int>, toTest: bool): seq<(nat, nat)> {
    if n == 0 then []
    else ChosenRows(k, off, n - 1, testpat, toTest) + (if (off + n - 1 in testpat) == toTest then [(k, n - 1)] else [])
  }

  /** The rows of all the data sets that belong to the test matrix (toTest) or the train matrix, in file order. */
  function Chosen(sets: seq<DataSet>, testpat: seq<int>, toTest: bool): seq<(nat, nat)> {
    if sets == [] then []
    else
      var init := sets[..|sets| - 1];
      Chosen(init, testpat, toTest) + ChosenRows(|sets| - 1, Offset(init), RowCount(sets[|sets| - 1]), testpat, toTest)
  }

  /** Matrix row x and label y are what row c = (k, i) of the data sets becomes. */
  predicate Fits(sets: seq<DataSet>, lists: seq<seq<int>>, snp: int, c: (nat, nat), x: seq<string>, y: int) {
    && c.0 < |sets| && c.0 < |lists| && c.1 + 1 < |sets[c.0].csv| && c.1 < |sets[c.0].y|
    && y == sets[c.0].y[c.1] && RowOf(sets[c.0].csv[c.1 + 1], lists[c.0], snp) == Ok(x)
  }

  /** The matrix rows xs and labels ys are, one for one, what the rows cs become. */
  predicate Matches(xs: seq<seq<string>>, ys: seq<int>, cs: seq<(nat, nat)>, sets: seq<DataSet>, lists: seq<seq<int>>, snp: int) {
    |xs| == |cs| && |ys| == |cs| && forall t :: 0 <= t < |cs| ==> Fits(sets, lists, snp, cs[t], xs[t], ys[t])
  }

  lemma MatchesSnoc(xs: seq<seq<string>>, ys: seq<int>, cs: seq<(nat, nat)>, sets: seq<DataSet>, lists: seq<seq<int>>, snp: int,
                    x: seq<string>, y: int, c: (nat, nat))
    requires Matches(xs, ys, cs, sets, lists, snp) && Fits(sets, lists, snp, c, x, y)
    ensures Matches(xs + [x], ys + [y], cs + [c], sets, lists, snp)
  {
    var cs' := cs + [c];
    forall t | 0 <= t < |cs'| ensures Fits(sets, lists, snp, cs'[t], (xs + [x])[t], (ys + [y])[t]) {
      if t < |cs| {
        assert cs'[t] == cs[t] && (xs + [x])[t] == xs[t] && (ys + [y])[t] == ys[t];
      }
    }
  }

  /** One row goes to exactly one matrix, as what Fits says it becomes. */
  lemma RouteRowFits(s: Routed, sets: seq<DataSet>, lists: seq<seq<int>>, k: nat, i: nat, snp: int, cap: int, testpat: seq<int>,
                     ctr: seq<(nat, nat)>, cte: seq<(nat, nat)>)
    requires k < |sets| == |lists| && i < |sets[k].csv| - 1
    requires Matches(s.xTrain, s.yTrain, ctr, sets, lists, snp) && Matches(s.xTest, s.yTest, cte, sets, lists, snp)
    ensures var r := RouteRow(s, sets[k], i, lists[k], snp, cap, testpat); var c := (k, i);
      r.Ok? ==>
        && r.value.done == s.done && r.value.last == s.last
        && Matches(r.value.xTrain, r.value.yTrain, ctr + (if s.done + i !in testpat then [c] else []), sets, lists, snp)
        && Matches(r.value.xTest, r.value.yTest, cte + (if s.done + i in testpat then [c] else []), sets, lists, snp)
  {
    var d := sets[k];
    var r := RouteRow(s, d, i, lists[k], snp, cap, testpat);
    if r.Ok? {
      var row := RowOf(d.csv[i + 1], lists[k], snp);
      assert row.Ok?;
      assert Fits(sets, lists, snp, (k, i), row.value, d.y[i]);
      if s.done + i !in testpat {
        MatchesSnoc(s.xTrain, s.yTrain, ctr, sets, lists, snp, row.value, d.y[i], (k, i));
        assert cte + [] == cte;
      } else {
        MatchesSnoc(s.xTest, s.yTest, cte, sets, lists, snp, row.value, d.y[i], (k, i));
        assert ctr + [] == ctr;
      }
    }
  }

  /** The first n rows of data set k add the chosen rows to each matrix and leave done and i alone. */
  lemma {:induction false} RouteRowsFits(s: Routed, sets: seq<DataSet>, lists: seq<seq<int>>, k: nat, n: nat, snp: int, cap: int,
                                         testpat: seq<int>, ctr: seq<(nat, nat)>, cte: seq<(nat, nat)>)
    requires k < |sets| == |lists| && n <= |sets[k].csv| - 1
    requires Matches(s.xTrain, s.yTrain, ctr, sets, lists, snp) && Matches(s.xTest, s.yTest, cte, sets, lists, snp)
    ensures var r := RouteRows(s, sets[k], n, lists[k], snp, cap, testpat);
      r.Ok? ==>
        && r.value.done == s.done && r.value.last == s.last
        && Matches(r.value.xTrain, r.value.yTrain, ctr + ChosenRows(k, s.done, n, testpat, false), sets, lists, snp)
        && Matches(r.value.xTest, r.value.yTest, cte + ChosenRows(k, s.done, n, testpat, true), sets, lists, snp)
    decreases n, 1
  {
    if n == 0 {
      assert ctr + [] == ctr && cte + [] == cte;
    } else {
      RouteRowsFitsNext(s, sets, lists, k, n, snp, cap, testpat, ctr, cte);
    }
  }

  /** RouteRowsFits for n > 0: the first n - 1 rows, then row n - 1. */
  lemma {:induction false} RouteRowsFitsNext(s: Routed, sets: seq<DataSet>, lists: seq<seq<int>>, k: nat, n: nat, snp: int, cap: int,
                                             testpat: seq<int>, ctr: seq<(nat, nat)>, cte: seq<(nat, nat)>)
    requires k < |sets| == |lists| && 0 < n <= |sets[k].csv| - 1
    requires Matches(s.xTrain, s.yTrain, ctr, sets, lists, snp) && Matches(s.xTest, s.yTest, cte, sets, lists, snp)
    ensures var r := RouteRows(s, sets[k], n, lists[k], snp, cap, testpat);
      r.Ok? ==>
        && r.value.done == s.done && r.value.last == s.last
        && Matches(r.value.xTrain, r.value.yTrain, ctr + ChosenRows(k, s.done, n, testpat, false), sets, lists, snp)
        && Matches(r.value.xTest, r.value.yTest, cte + ChosenRows(k, s.done, n, testpat, true), sets, lists, snp)
    decreases n, 0
  {
    RouteRowsFits(s, sets, lists, k, n - 1, snp, cap, testpat, ctr, cte);
    var q := RouteRows(s, sets[k], n - 1, lists[k], snp, cap, testpat);
    if q.Ok? {
      var a := ctr + ChosenRows(k, s.done, n - 1, testpat, false);
      var b := cte + ChosenRows(k, s.done, n - 1, testpat, true);
      RouteRowFits(q.value, sets, lists, k, n - 1, snp, cap, testpat, a, b);
      var c := (k, n - 1);
      assert ctr + ChosenRows(k, s.done, n, testpat, false) == a + (if s.done + (n - 1) !in testpat then [c] else []);
      assert cte + ChosenRows(k, s.done, n, testpat, true) == b + (if s.done + (n - 1) in testpat then [c] else []);
    }
  }

  /** A data set with rows moves done past them and adds its chosen rows to each matrix. */
  lemma RouteSetFits(s: Routed, sets: seq<DataSet>, lists: seq<seq<int>>, k: nat, snp: int, cap: int, testpat: seq<int>,
                     ctr: seq<(nat, nat)>, cte: seq<(nat, nat)>)
    requires k < |sets| == |lists| && RowCount(sets[k]) > 0
    requires Matches(s.xTrain, s.yTrain, ctr, sets, lists, snp) && Matches(s.xTest, s.yTest, cte, sets, lists, snp)
    ensures var r := RouteSet(s, sets[k], lists[k], snp, cap, testpat); var n := RowCount(sets[k]);
      r.Ok? ==>
        && r.value.done == s.done + n
        && Matches(r.value.xTrain, r.value.yTrain, ctr + ChosenRows(k, s.done, n, testpat, false), sets, lists, snp)
        && Matches(r.value.xTest, r.value.yTest, cte + ChosenRows(k, s.done, n, testpat, true), sets, lists, snp)
  {
    RouteRowsFits(s, sets, lists, k, |sets[k].csv| - 1, snp, cap, testpat, ctr, cte);
  }

  /**
   * When every data set has a row, the first m data sets leave done at their row count
   * and put exactly their chosen rows, in order, into each matrix.
   */
  lemma {:induction false} RouteSetsFits(sets: seq<DataSet>, lists: seq<seq<int>>, m: nat, snp: int, cap: int, testpat: seq<int>)
    requires m <= |sets| == |lists|
    requires forall k :: 0 <= k < |sets| ==> RowCount(sets[k]) > 0
    ensures var r := RouteSets(Begin, sets[..m], lists[..m], snp, cap, testpat);
      r.Ok? ==>
        && r.value.done == Offset(sets[..m])
        && Matches(r.value.xTrain, r.value.yTrain, Chosen(sets[..m], testpat, false), sets, lists, snp)
        && Matches(r.value.xTest, r.value.yTest, Chosen(sets[..m], testpat, true), sets, lists, snp)
  {
    if m > 0 {
      var pre := sets[..m];
      assert pre[..m - 1] == sets[..m - 1] && pre[m - 1] == sets[m - 1];
      assert lists[..m][..m - 1] == lists[..m - 1] && lists[..m][m - 1] == lists[m - 1];
      RouteSetsFits(sets, lists, m - 1, snp, cap, testpat);
      var q := RouteSets(Begin, sets[..m - 1], lists[..m - 1], snp, cap, testpat);
      if q.Ok? {
        RouteSetFits(q.value, sets, lists, m - 1, snp, cap, testpat,
                     Chosen(sets[..m - 1], testpat, false), Chosen(sets[..m - 1], testpat, true));
      }
    }
  }

  /**
   * load_data's routing: when every data set has a row, row i of data set k goes to the
   * test matrix exactly when its global position (the rows of the data sets before k,
   * plus i) is in testpat, and otherwise to the train matrix, in file order in both.
   */
  lemma RouteOrder(sets: seq<DataSet>, lists: seq<seq<int>>, snp: int, cap: int, testpat: seq<int>)
    requires |sets| == |lists|
    requires forall k :: 0 <= k < |sets| ==> RowCount(sets[k]) > 0
    ensures var r := RouteSets(Begin, sets, lists, snp, cap, testpat);
      r.Ok? ==>
        && Matches(r.value.xTrain, r.value.yTrain, Chosen(sets, testpat, false), sets, lists, snp)
        && Matches(r.value.xTest, r.value.yTest, Chosen(sets, testpat, true), sets, lists, snp)
  {
    RouteSetsFits(sets, lists, |sets|, snp, cap, testpat);
    assert sets[..|sets|] == sets && lists[..|sets|] == lists;
  }

  /** Row c of data set k comes before row d in file order. */
  predicate Before(c: (nat, nat), d: (nat, nat)) {
    c.0 < d.0 || (c.0 == d.0 && c.1 < d.1)
  }

  /** The chosen rows of data set k are its first n rows whose position is (or is not) in testpat, in order. */
  lemma {:induction false} ChosenRowsSpec(k: nat, off: int, n: nat, testpat: seq<int>, toTest: bool)
    ensures var cs := ChosenRows(k, off, n, testpat, toTest);
      && (forall c :: c in cs <==> c.0 == k && c.1 < n && (off + c.1 in testpat) == toTest)
      && (forall t, u :: 0 <= t < u < |cs| ==> Before(cs[t], cs[u]))
  {
    if n > 0 {
      ChosenRowsSpec(k, off, n - 1, testpat, toTest);
      var a := ChosenRows(k, off, n - 1, testpat, toTest);
      var cs := ChosenRows(k, off, n, testpat, toTest);
      if (off + n - 1 in testpat) == toTest {
        assert cs == a + [(k, n - 1)];
        forall t, u | 0 <= t < u < |cs| ensures Before(cs[t], cs[u]) {
          if u == |a| {
            assert cs[t] == a[t] && cs[t] in a;
          } else {
            assert cs[t] == a[t] && cs[u] == a[u];
          }
        }
      } else {
        assert cs == a + [];
      }
    }
  }

  /**
   * Row i of data set k is among the rows chosen for the test matrix (toTest) exactly
   * when its global position, the rows before data set k plus i, is in testpat, and
   * among those for the train matrix exactly when it is not.
   */
  lemma {:induction false} ChosenHasAt(sets: seq<DataSet>, testpat: seq<int>, toTest: bool, c: (nat, nat))
    ensures c in Chosen(sets, testpat, toTest) <==>
      c.0 < |sets| && c.1 < RowCount(sets[c.0]) && (Offset(sets[..c.0]) + c.1 in testpat) == toTest
  {
    if sets != [] {
      var m := |sets| - 1;
      var init := sets[..m];
      var a := Chosen(init, testpat, toTest);
      var b := ChosenRows(m, Offset(init), RowCount(sets[m]), testpat, toTest);
      assert Chosen(sets, testpat, toTest) == a + b;
      ChosenHasAt(init, testpat, toTest, c);
      ChosenRowsAt(m, Offset(init), RowCount(sets[m]), testpat, toTest, c);
      if c.0 < m {
        assert init[c.0] == sets[c.0] && init[..c.0] == sets[..c.0];
      } else if c.0 == m {
        assert init == sets[..c.0];
      }
    }
  }

  /** ChosenRowsSpec's first clause for one row c. */
  lemma {:induction false} ChosenRowsAt(k: nat, off: int, n: nat, testpat: seq<int>, toTest: bool, c: (nat, nat))
    ensures c in ChosenRows(k, off, n, testpat, toTest) <==> c.0 == k && c.1 < n && (off + c.1 in testpat) == toTest
  {
    if n > 0 {
      ChosenRowsAt(k, off, n - 1, testpat, toTest, c);
    }
  }

  /** ChosenHasAt for every row at once. */
  lemma ChosenHas(sets: seq<DataSet>, testpat: seq<int>, toTest: bool)
    ensures var cs := Chosen(sets, testpat, toTest);
      forall c: (nat, nat) :: c in cs <==> c.0 < |sets| && c.1 < RowCount(sets[c.0]) && (Offset(sets[..c.0]) + c.1 in testpat) == toTest
  {
    forall c: (nat, nat) ensures c in Chosen(sets, testpat, toTest) <==> c.0 < |sets| && c.1 < RowCount(sets[c.0]) && (Offset(sets[..c.0]) + c.1 in testpat) == toTest {
      ChosenHasAt(sets, testpat, toTest, c);
    }
  }

  /** Rows cs are listed in file order. */
  predicate Ordered(cs: seq<(nat, nat)>) {
    forall t, u :: 0 <= t < u < |cs| ==> Before(cs[t], cs[u])
  }

  /** The rows chosen for either matrix are in file order. */
  lemma {:induction false} ChosenOrdered(sets: seq<DataSet>, testpat: seq<int>, toTest: bool)
    ensures Ordered(Chosen(sets, testpat, toTest))
  {
    if sets != [] {
      var m := |sets| - 1;
      var init := sets[..m];
      ChosenOrdered(init, testpat, toTest);
      var a := Chosen(init, testpat, toTest);
      var b := ChosenRows(m, Offset(init), RowCount(sets[m]), testpat, toTest);
      ChosenRowsSpec(m, Offset(init), RowCount(sets[m]), testpat, toTest);
      var cs := a + b;
      assert Ordered(a);
      forall t, u | 0 <= t < u < |cs| ensures Before(cs[t], cs[u]) {
        if u < |a| {
          assert Before(a[t], a[u]);
          assert cs[t] == a[t] && cs[u] == a[u];
        } else if t < |a| {
          ChosenHasAt(init, testpat, toTest, a[t]);
          assert a[t] in a && a[t].0 < m;
          assert b[u - |a|] in b && b[u - |a|].0 == m;
          assert cs[t] == a[t] && cs[u] == b[u - |a|];
        } else {
          assert Before(b[t - |a|], b[u - |a|]);
          assert cs[t] == b[t - |a|] && cs[u] == b[u - |a|];
        }
      }
    }
  }

  // ---------------------------------------------------------------- what a row becomes

  /** Python's indexing of a list by k: valid from -|s| up to |s| - 1, and s[k mod |s|] when valid. */
  lemma PyIndexSpec(s: seq<string>, k: int)
    ensures var r := PyIndex(s, k);
      && (r.Ok? <==> -|s| <= k < |s|)
      && (r.Ok? ==> r.value == s[k % |s|])
      && (r.Err? ==> r.error == IndexError)
  {
  }

  /** Cells succeeds exactly when every position sl[j] + 1 is a valid index of the row, and then holds those cells. */
  lemma CellsSpec(line: seq<string>, sl: seq<int>)
    ensures var r := Cells(line, sl);
      && (r.Ok? <==> forall j :: 0 <= j < |sl| ==> -|line| <= sl[j] + 1 < |line|)
      && (r.Ok? ==> |r.value| == |sl| && forall j :: 0 <= j < |sl| ==> r.value[j] == line[(sl[j] + 1) % |line|])
      && (r.Err? ==> r.error == IndexError)
  {
    var f := (s: int) => PyIndex(line, s + 1);
    EachSpec(f, sl);
    forall j | 0 <= j < |sl| ensures f(sl[j]).Ok? <==> -|line| <= sl[j] + 1 < |line| {
      PyIndexSpec(line, sl[j] + 1);
    }
    if Cells(line, sl).Ok? {
      forall j | 0 <= j < |sl| ensures Cells(line, sl).value[j] == line[(sl[j] + 1) % |line|] {
        PyIndexSpec(line, sl[j] + 1);
      }
    } else {
      var k :| 0 <= k < |sl| && f(sl[k]).Err? && Cells(line, sl).error == f(sl[k]).error;
      PyIndexSpec(line, sl[k] + 1);
    }
  }

  /**
   * `X[row][j] = line[snplist[j] + 1]`: a CSV row becomes a matrix row of width snp whose
   * column j is cell sl[j] + 1 of the CSV row, the columns past the SNP list holding zero;
   * a SNP list longer than the matrix is wide, or a position outside the CSV row, is an IndexError.
   */
  lemma RowOfSpec(line: seq<string>, sl: seq<int>, snp: int)
    ensures var r := RowOf(line, sl, snp);
      && (r.Ok? <==> |sl| <= snp && forall j :: 0 <= j < |sl| ==> -|line| <= sl[j] + 1 < |line|)
      && (r.Ok? ==> |r.value| == snp)
      && (r.Ok? ==> forall j :: 0 <= j < |sl| ==> r.value[j] == line[(sl[j] + 1) % |line|])
      && (r.Ok? ==> forall j :: |sl| <= j < snp ==> r.value[j] == Zero)
      && (r.Err? ==> r.error == IndexError)
  {
    CellsSpec(line, sl);
  }

  // ---------------------------------------------------------------- what the SNP columns are

  /**
   * Each succeeds exactly when f succeeds on every element, and then holds f's results in
   * order; otherwise it fails with the exception of the first element f fails on.
   */
  lemma {:induction false} EachSpec<X, Y>(f: X -> Result<Y>, xs: seq<X>)
    ensures var r := Each(f, xs);
      && (r.Ok? <==> forall k :: 0 <= k < |xs| ==> f(xs[k]).Ok?)
      && (r.Ok? ==> forall k :: 0 <= k < |xs| ==> r.value[k] == f(xs[k]).value)
      && (r.Err? ==> exists k :: 0 <= k < |xs| && f(xs[k]).Err? && r.error == f(xs[k]).error
                                 && forall j :: 0 <= j < k ==> f(xs[j]).Ok?)
  {
    if xs != [] {
      var init := xs[..|xs| - 1];
      var x := xs[|xs| - 1];
      EachSpec(f, init);
      assert forall k :: 0 <= k < |init| ==> init[k] == xs[k];
      var q := Each(f, init);
      if q.Ok? && f(x).Ok? {
        var v := q.value + [f(x).value];
        assert Each(f, xs) == Ok(v);
        forall k | 0 <= k < |xs| ensures v[k] == f(xs[k]).value {
          if k < |init| {
            assert v[k] == q.value[k];
          }
        }
      } else if q.Ok? {
        assert Each(f, xs) == Err(f(x).error);
        assert f(xs[|xs| - 1]).Err?;
      } else {
        assert Each(f, xs) == Err(q.error);
        var k :| 0 <= k < |init| && f(init[k]).Err? && q.error == f(init[k]).error && forall j :: 0 <= j < k ==> f(init[j]).Ok?;
        assert f(xs[k]).Err?;
      }
    }
  }

  /**
   * The subset file's list is the first field of each of its lines; reading fails exactly
   * when some line has no field or a first field int() rejects, with that line's exception.
   */
  lemma SubsetIdsSpec(lines: seq<string>)
    ensures var r := SubsetIds(lines);
      && (r.Ok? <==> forall k :: 0 <= k < |lines| ==> FirstField(lines[k]).Ok?)
      && (r.Ok? ==> |r.value| == |lines| && forall k :: 0 <= k < |lines| ==> r.value[k] == FirstField(lines[k]).value)
      && (r.Err? ==> exists k :: 0 <= k < |lines| && FirstField(lines[k]).Err? && r.error == FirstField(lines[k]).error)
  {
    EachSpec(FirstField, lines);
  }

  /** Data set k's SNP list is what its subset file reads as, and reading fails exactly when some file's does. */
  lemma SubsetListsSpec(sets: seq<DataSet>)
    ensures var r := SubsetLists(sets);
      && (r.Ok? <==> forall k :: 0 <= k < |sets| ==> SubsetIds(sets[k].subsetFile).Ok?)
      && (r.Ok? ==> |r.value| == |sets| && forall k :: 0 <= k < |sets| ==> r.value[k] == SubsetIds(sets[k].subsetFile).value)
  {
    EachSpec((d: DataSet) => SubsetIds(d.subsetFile), sets);
  }

  /**
   * genome_stats.txt gives snp from the first line that starts with the chromosome and a
   * tab; with no such line the reading ends in TypeError.
   */
  lemma {:induction false} StatsWidthSpec(ch: int, lines: seq<string>)
    ensures forall k :: 0 <= k < |lines| && OfChromosome(lines[k], ch) && (forall j :: 0 <= j < k ==> !OfChromosome(lines[j], ch))
              ==> StatsWidth(ch, lines) == LastField(lines[k])
    ensures (forall k :: 0 <= k < |lines| ==> !OfChromosome(lines[k], ch)) ==> StatsWidth(ch, lines) == Err(TypeError)
  {
    if lines != [] {
      StatsWidthSpec(ch, lines[1..]);
      assert forall k :: 1 <= k < |lines| ==> lines[1..][k - 1] == lines[k];
      forall k | 0 <= k < |lines| && OfChromosome(lines[k], ch) && (forall j :: 0 <= j < k ==> !OfChromosome(lines[j], ch))
        ensures StatsWidth(ch, lines) == LastField(lines[k])
      {
        if k > 0 {
          assert !OfChromosome(lines[0], ch);
          forall j | 0 <= j < k - 1 ensures !OfChromosome(lines[1..][j], ch) {
            assert lines[1..][j] == lines[j + 1];
          }
        }
      }
      if forall k :: 0 <= k < |lines| ==> !OfChromosome(lines[k], ch) {
        assert !OfChromosome(lines[0], ch);
        forall k | 0 <= k < |lines| - 1 ensures !OfChromosome(lines[1..][k], ch) {
          assert lines[1..][k] == lines[k + 1];
        }
      }
    }
  }

  /**
   * The SNP columns: more than one data set without a subset is a NoParameterError for
   * "subset"; with a subset every data set takes its own subset file's list and snp is
   * the length of the last data set's list, with no check that the lengths agree.
   */
  lemma SnpColumnsSpec(ch: int, sets: seq<DataSet>, subset: bool)
    ensures !subset && |sets| > 1 ==> SnpColumns(ch, sets, subset) == Err(NoParameter("subset"))
    ensures var r := SnpColumns(ch, sets, subset);
      subset && r.Ok? ==>
        && sets != []
        && (forall k :: 0 <= k < |sets| ==> SubsetIds(sets[k].subsetFile) == Ok(r.value.lists[k]))
        && r.value.snp == |r.value.lists[|sets| - 1]|
    ensures subset && sets == [] ==> SnpColumns(ch, sets, subset) == Err(UnboundLocal)
  {
    SubsetListsSpec(sets);
  }

  /**
   * A single data set without a subset reads all SNPs 0 .. snp - 1, snp being the last
   * field of the chromosome's first line in genome_stats.txt. The check meant to report a
   * missing chromosome compares a string literal with None, is never taken, and the missing
   * chromosome surfaces as the TypeError of range(None).
   */
  lemma SnpColumnsWhole(ch: int, d: DataSet, k: nat, w: int)
    requires k < |d.stats| && OfChromosome(d.stats[k], ch) && forall j :: 0 <= j < k ==> !OfChromosome(d.stats[j], ch)
    requires LastField(d.stats[k]) == Ok(w)
    ensures var r := SnpColumns(ch, [d], false);
      && r.Ok? && r.value.snp == w && |r.value.lists| == 1
      && (forall j :: 0 <= j < |r.value.lists[0]| ==> r.value.lists[0][j] == j)
      && |r.value.lists[0]| == if w < 0 then 0 else w
  {
    StatsWidthSpec(ch, d.stats);
  }

  /** Without a line for the chromosome, the single data set's columns end in TypeError. */
  lemma SnpColumnsMissing(ch: int, d: DataSet)
    requires forall k :: 0 <= k < |d.stats| ==> !OfChromosome(d.stats[k], ch)
    ensures SnpColumns(ch, [d], false) == Err(TypeError)
  {
    StatsWidthSpec(ch, d.stats);
  }

  // ---------------------------------------------------------------- the shape of the matrices

  /** The loop variables fit the preallocated matrices: cap train rows, tests test rows, all of width snp. */
  predicate Shaped(st: Routed, snp: int, cap: int, tests: int) {
    && |st.xTrain| == |st.yTrain| <= cap && |st.xTest| == |st.yTest| <= tests
    && (forall t :: 0 <= t < |st.xTrain| ==> |st.xTrain[t]| == snp)
    && (forall t :: 0 <= t < |st.xTest| ==> |st.xTest[t]| == snp)
  }

  lemma RouteRowShaped(st: Routed, d: DataSet, i: nat, sl: seq<int>, snp: int, cap: int, testpat: seq<int>)
    requires i < |d.csv| - 1 && Shaped(st, snp, cap, |testpat|)
    ensures var r := RouteRow(st, d, i, sl, snp, cap, testpat);
      r.Ok? ==> Shaped(r.value, snp, cap, |testpat|) && r.value.done == st.done && r.value.last == st.last
  {
    RowOfSpec(d.csv[i + 1], sl, snp);
  }

  lemma {:induction false} RouteRowsShaped(st: Routed, d: DataSet, n: nat, sl: seq<int>, snp: int, cap: int, testpat: seq<int>)
    requires n <= |d.csv| - 1 && Shaped(st, snp, cap, |testpat|)
    ensures var r := RouteRows(st, d, n, sl, snp, cap, testpat);
      r.Ok? ==> Shaped(r.value, snp, cap, |testpat|) && r.value.done == st.done && r.value.last == st.last
  {
    if n > 0 {
      RouteRowsShaped(st, d, n - 1, sl, snp, cap, testpat);
      var q := RouteRows(st, d, n - 1, sl, snp, cap, testpat);
      if q.Ok? {
        RouteRowShaped(q.value, d, n - 1, sl, snp, cap, testpat);
      }
    }
  }

  /** Whatever the data sets hold, routing them never writes past the preallocated matrices. */
  lemma {:induction false} RouteSetsShaped(st: Routed, sets: seq<DataSet>, lists: seq<seq<int>>, snp: int, cap: int, testpat: seq<int>)
    requires |lists| == |sets| && Shaped(st, snp, cap, |testpat|)
    ensures var r := RouteSets(st, sets, lists, snp, cap, testpat);
      r.Ok? ==> Shaped(r.value, snp, cap, |testpat|)
  {
    if sets != [] {
      var m := |sets| - 1;
      RouteSetsShaped(st, sets[..m], lists[..m], snp, cap, testpat);
      var q := RouteSets(st, sets[..m], lists[..m], snp, cap, testpat);
      if q.Ok? && sets[m].csv != [] {
        RouteRowsShaped(q.value, sets[m], |sets[m].csv| - 1, lists[m], snp, cap, testpat);
      }
    }
  }

  /**
   * A data set whose CSV file holds only its header routes no row, yet `done += i + 1`
   * still adds the i an earlier data set's loop left behind; as the first data set it
   * finds i unbound.
   */
  lemma HeaderOnly(st: Routed, d: DataSet, sl: seq<int>, snp: int, cap: int, testpat: seq<int>)
    requires |d.csv| == 1
    ensures st.last.None? ==> RouteSet(st, d, sl, snp, cap, testpat) == Err(UnboundLocal)
    ensures st.last.Some? ==> RouteSet(st, d, sl, snp, cap, testpat) == Ok(st.(done := st.done + st.last.value + 1))
  {
  }

  /** The preallocated matrix: n rows of width snp, the written rows first and zero rows after. */
  lemma PaddedSpec(rows: seq<seq<string>>, n: int, snp: nat)
    requires |rows| <= n && forall t :: 0 <= t < |rows| ==> |rows[t]| == snp
    ensures var m := Padded(rows, n, snp);
      && |m| == n
      && (forall t :: 0 <= t < n ==> |m[t]| == snp)
      && m[..|rows|] == rows
      && (forall t :: |rows| <= t < n ==> m[t] == seq(snp, _ => Zero))
  {
    var m := Padded(rows, n, snp);
    assert m[..|rows|] == rows;
    forall t | 0 <= t < n ensures |m[t]| == snp {
      if t < |rows| {
        assert m[t] == rows[t];
      }
    }
  }

  /** The preallocated label vector: n labels, the written ones first and zeros after. */
  lemma PaddedYSpec(ys: seq<int>, n: int)
    requires |ys| <= n
    ensures var v := PaddedY(ys, n);
      |v| == n && v[..|ys|] == ys && forall t :: |ys| <= t < n ==> v[t] == 0
  {
    var v := PaddedY(ys, n);
    assert v[..|ys|] == ys;
  }

  /**
   * load_data returns a train matrix of sum(pat) - |testpat| rows and a test matrix of
   * |testpat| rows, both of width snp, with as many labels as rows; the test pair is
   * returned exactly when testpat is not empty. Fewer patients than test positions, or a
   * negative width, make np.zeros raise ValueError.
   */
  lemma FillShape(sets: seq<DataSet>, cols: Columns, pat: seq<int>, testpat: Option<seq<int>>)
    requires |cols.lists| == |sets|
    ensures var r := Fill(sets, cols, pat, testpat);
      var tp := if testpat.None? then [] else testpat.value;
      && (r.Ok? ==>
        && r.value.snp == cols.snp
        && |r.value.xTrain| == |r.value.yTrain| == Sum(pat) - |tp|
        && (forall t :: 0 <= t < |r.value.xTrain| ==> |r.value.xTrain[t]| == r.value.snp)
        && (r.value.xTest.Some? <==> tp != []) && (r.value.yTest.Some? <==> tp != [])
        && (r.value.xTest.Some? ==> |r.value.xTest.value| == |tp| && forall t :: 0 <= t < |tp| ==> |r.value.xTest.value[t]| == r.value.snp)
        && (r.value.yTest.Some? ==> |r.value.yTest.value| == |tp|))
      && (Sum(pat) < |tp| || cols.snp < 0 ==> r == Err(ValueError))
  {
    var tp := if testpat.None? then [] else testpat.value;
    if Sum(pat) - |tp| >= 0 && cols.snp >= 0 {
      var snp := cols.snp;
      var cap := Sum(pat) - |tp|;
      RouteSetsShaped(Begin, sets, cols.lists, snp, cap, tp);
      var q := RouteSets(Begin, sets, cols.lists, snp, cap, tp);
      if q.Ok? {
        PaddedSpec(q.value.xTrain, cap, snp);
        PaddedYSpec(q.value.yTrain, cap);
        PaddedSpec(q.value.xTest, |tp|, snp);
        PaddedYSpec(q.value.yTest, |tp|);
      }
    }
  }

  /**
   * Matrix x with labels y begins with the rows cs, each what its CSV row and label
   * become, and its remaining rows and labels are zero.
   */
  predicate Laid(x: seq<seq<string>>, y: seq<int>, cs: seq<(nat, nat)>, sets: seq<DataSet>, lists: seq<seq<int>>, snp: nat) {
    && |cs| <= |x| == |y|
    && Matches(x[..|cs|], y[..|cs|], cs, sets, lists, snp)
    && (forall t :: |cs| <= t < |x| ==> x[t] == seq(snp, _ => Zero) && y[t] == 0)
  }

  /** A matrix routed so far, once padded, begins with its chosen rows and continues with zero rows. */
  lemma PaddedMatches(xs: seq<seq<string>>, ys: seq<int>, cs: seq<(nat, nat)>, sets: seq<DataSet>, lists: seq<seq<int>>,
                      snp: nat, n: int)
    requires Matches(xs, ys, cs, sets, lists, snp) && |xs| <= n && forall t :: 0 <= t < |xs| ==> |xs[t]| == snp
    ensures |Padded(xs, n, snp)| == n
    ensures Laid(Padded(xs, n, snp), PaddedY(ys, n), cs, sets, lists, snp)
  {
    PaddedSpec(xs, n, snp);
    PaddedYSpec(ys, n);
  }

  /** The routing of load_data, padded to the preallocated matrices. */
  lemma RoutedLaid(sets: seq<DataSet>, lists: seq<seq<int>>, snp: nat, cap: int, tp: seq<int>)
    requires |sets| == |lists| && cap >= 0
    requires forall k :: 0 <= k < |sets| ==> RowCount(sets[k]) > 0
    ensures var q := RouteSets(Begin, sets, lists, snp, cap, tp);
      q.Ok? ==>
        && Laid(Padded(q.value.xTrain, cap, snp), PaddedY(q.value.yTrain, cap), Chosen(sets, tp, false), sets, lists, snp)
        && Laid(Padded(q.value.xTest, |tp|, snp), PaddedY(q.value.yTest, |tp|), Chosen(sets, tp, true), sets, lists, snp)
  {
    RouteSetsShaped(Begin, sets, lists, snp, cap, tp);
    RouteOrder(sets, lists, snp, cap, tp);
    var q := RouteSets(Begin, sets, lists, snp, cap, tp);
    if q.Ok? {
      PaddedMatches(q.value.xTrain, q.value.yTrain, Chosen(sets, tp, false), sets, lists, snp, cap);
      PaddedMatches(q.value.xTest, q.value.yTest, Chosen(sets, tp, true), sets, lists, snp, |tp|);
    }
  }

  /**
   * load_data's matrices in full: when every data set has a row, the train matrix begins
   * with the rows chosen for it, each the CSV row's SNP cells with the data set's label,
   * in file order, and its remaining rows are zero; the same holds for the test matrix.
   */
  lemma FillRoutes(sets: seq<DataSet>, cols: Columns, pat: seq<int>, testpat: Option<seq<int>>)
    requires |cols.lists| == |sets|
    requires forall k :: 0 <= k < |sets| ==> RowCount(sets[k]) > 0
    ensures var r := Fill(sets, cols, pat, testpat);
      var tp := if testpat.None? then [] else testpat.value;
      r.Ok? ==>
        && cols.snp == r.value.snp
        && Laid(r.value.xTrain, r.value.yTrain, Chosen(sets, tp, false), sets, cols.lists, r.value.snp)
        && (r.value.xTest.Some? && r.value.yTest.Some? ==>
              Laid(r.value.xTest.value, r.value.yTest.value, Chosen(sets, tp, true), sets, cols.lists, r.value.snp))
  {
    var tp := if testpat.None? then [] else testpat.value;
    if Sum(pat) - |tp| >= 0 && cols.snp >= 0 {
      RoutedLaid(sets, cols.lists, cols.snp, Sum(pat) - |tp|, tp);
    }
  }

  // ---------------------------------------------------------------- the loops of load_data: the SNP columns

  /** A failure within the first j elements is the failure of the whole loop. */
  lemma {:induction false} EachErrFrom<X, Y>(f: X -> Result<Y>, xs: seq<X>, j: nat, e: Error)
    requires j <= |xs| && Each(f, xs[..j]) == Err(e)
    ensures Each(f, xs) == Err(e)
  {
    if j < |xs| {
      assert xs[..|xs| - 1][..j] == xs[..j];
      EachErrFrom(f, xs[..|xs| - 1], j, e);
    } else {
      assert xs[..j] == xs;
    }
  }

  /** After a successful i-th element the loop goes on with one more value. */
  lemma EachNext<X, Y>(f: X -> Result<Y>, xs: seq<X>, i: nat, ys: seq<Y>, y: Y)
    requires i < |xs| && Each(f, xs[..i]) == Ok(ys) && f(xs[i]) == Ok(y)
    ensures Each(f, xs[..i + 1]) == Ok(ys + [y])
  {
    assert xs[..i + 1][..i] == xs[..i];
  }

  /** A failing i-th element, after the ones before it succeeded, is the failure of the whole loop. */
  lemma EachStop<X, Y>(f: X -> Result<Y>, xs: seq<X>, i: nat, e: Error)
    requires i < |xs| && Each(f, xs[..i]).Ok? && f(xs[i]) == Err(e)
    ensures Each(f, xs) == Err(e)
  {
    assert xs[..i + 1][..i] == xs[..i];
    EachErrFrom(f, xs, i + 1, e);
  }

  /** The subset file's loop: `snplist[name].append(int(line.split()[0]))` for every line. */
  method ReadSubset(lines: seq<string>) returns (r: Result<seq<int>>)
    ensures r == SubsetIds(lines)
  {
    var ids: seq<int> := [];
    var i := 0;
    while i < |lines|
      invariant 0 <= i <= |lines|
      invariant Each(FirstField, lines[..i]) == Ok(ids)
    {
      var v := FirstField(lines[i]);
      if v.Err? {
        EachStop(FirstField, lines, i, v.error);
        return Err(v.error);
      }
      EachNext(FirstField, lines, i, ids, v.value);
      ids := ids + [v.value];
      i := i + 1;
    }
    assert lines[..|lines|] == lines;
    r := Ok(ids);
  }

  /** The loop over the data sets' subset files. */
  method ReadSubsets(sets: seq<DataSet>) returns (r: Result<seq<seq<int>>>)
    ensures r == SubsetLists(sets)
  {
    ghost var f := (d: DataSet) => SubsetIds(d.subsetFile);
    var lists: seq<seq<int>> := [];
    var k := 0;
    while k < |sets|
      invariant 0 <= k <= |sets|
      invariant Each(f, sets[..k]) == Ok(lists)
    {
      var ids := ReadSubset(sets[k].subsetFile);
      if ids.Err? {
        EachStop(f, sets, k, ids.error);
        return Err(ids.error);
      }
      EachNext(f, sets, k, lists, ids.value);
      lists := lists + [ids.value];
      k := k + 1;
    }
    assert sets[..|sets|] == sets;
    r := Ok(lists);
  }

  /** The genome_stats.txt loop: the first line of the chromosome gives snp, and the loop breaks there. */
  method FindWidth(ch: int, lines: seq<string>) returns (r: Result<int>)
    ensures r == StatsWidth(ch, lines)
  {
    var snp: Option<int> := None;
    var i := 0;
    while i < |lines|
      invariant 0 <= i <= |lines| && snp.None?
      invariant StatsWidth(ch, lines) == StatsWidth(ch, lines[i..])
    {
      assert lines[i..][1..] == lines[i + 1..];
      if OfChromosome(lines[i], ch) {
        var w := LastField(lines[i]);
        if w.Err? {
          return Err(w.error);
        }
        snp := Some(w.value);
        break;
      }
      i := i + 1;
    }
    if snp.None? {
      return Err(TypeError);
    }
    r := Ok(snp.value);
  }

  /** The first half of load_data: the SNP list of every data set and the matrix width. */
  method ReadColumns(ch: int, sets: seq<DataSet>, subset: bool) returns (r: Result<Columns>)
    ensures r == SnpColumns(ch, sets, subset)
  {
    if subset {
      var lists := ReadSubsets(sets);
      if lists.Err? {
        return Err(lists.error);
      }
      if lists.value == [] {
        return Err(UnboundLocal);
      }
      r := Ok(Columns(lists.value, |lists.value[|lists.value| - 1]|));
    } else if |sets| > 1 {
      r := Err(NoParameter("subset"));
    } else if sets == [] {
      r := Err(IndexError);
    } else {
      var snp := FindWidth(ch, sets[0].stats);
      if snp.Err? {
        return Err(snp.error);
      }
      r := Ok(Columns([Range(0, snp.value)], snp.value));
    }
  }

  // ---------------------------------------------------------------- the loops of load_data: filling the matrices

  /** Cell (t, j) of a matrix whose first rows are rows and whose other cells are zero. */
  function CellOf(rows: seq<seq<string>>, t: int, j: int): string {
    if 0 <= t < |rows| && 0 <= j < |rows[t]| then rows[t][j] else Zero
  }

  /** Array X holds the rows written so far, and zero everywhere else. */
  predicate Holds(X: array2<string>, rows: seq<seq<string>>)
    reads X
  {
    forall t, j :: 0 <= t < X.Length0 && 0 <= j < X.Length1 ==> X[t, j] == CellOf(rows, t, j)
  }

  /** Array Y holds the labels written so far, and zero everywhere else. */
  predicate HoldsY(Y: array<int>, ys: seq<int>)
    reads Y
  {
    forall t :: 0 <= t < Y.Length ==> Y[t] == if t < |ys| then ys[t] else 0
  }

  /** The counters of load_data: train_row, test_row, done, and the last value of i. */
  datatype Counters = Counters(trainRow: nat, testRow: nat, done: int, last: Option<int>)

  /** The four preallocated arrays: X_train and y_train of one length, X_test and y_test of another, one width. */
  predicate Allocated(X: array2<string>, Y: array<int>, Xt: array2<string>, Yt: array<int>) {
    Y.Length == X.Length0 && Yt.Length == Xt.Length0 && Xt.Length1 == X.Length1 && X != Xt && Y != Yt
  }

  /** The arrays and counters are what the routing st has produced so far. */
  predicate Mirrors(X: array2<string>, Y: array<int>, Xt: array2<string>, Yt: array<int>, c: Counters, st: Routed)
    reads X, Y, Xt, Yt
  {
    && Shaped(st, X.Length1, X.Length0, Xt.Length0)
    && c.trainRow == |st.yTrain| && c.testRow == |st.yTest| && c.done == st.done && c.last == st.last
    && Holds(X, st.xTrain) && HoldsY(Y, st.yTrain) && Holds(Xt, st.xTest) && HoldsY(Yt, st.yTest)
  }

  /**
   * `y_train[row] = y[i]` and `X_train[row][j] = line[s + 1]` for every s of the SNP list:
   * the next unwritten row of the arrays is written in place, and the result says whether
   * no IndexError arose.
   */
  method PlaceRow(X: array2<string>, Y: array<int>, row: nat, ghost rows: seq<seq<string>>, ghost ys: seq<int>,
                  y: seq<int>, i: nat, line: seq<string>, sl: seq<int>) returns (ok: bool)
    requires X.Length0 == Y.Length && row == |rows| == |ys| && forall t :: 0 <= t < |rows| ==> |rows[t]| == X.Length1
    requires Holds(X, rows) && HoldsY(Y, ys)
    modifies X, Y
    ensures ok <==> i < |y| && row < Y.Length && RowOf(line, sl, X.Length1).Ok?
    ensures ok ==> Holds(X, rows + [RowOf(line, sl, X.Length1).value]) && HoldsY(Y, ys + [y[i]])
  {
    RowOfSpec(line, sl, X.Length1);
    if i >= |y| || row >= Y.Length {
      return false;
    }
    Y[row] := y[i];
    var j := 0;
    while j < |sl|
      invariant 0 <= j <= |sl| && j <= X.Length1
      invariant forall k :: 0 <= k < j ==> -|line| <= sl[k] + 1 < |line| && X[row, k] == line[(sl[k] + 1) % |line|]
      invariant forall k :: j <= k < X.Length1 ==> X[row, k] == Zero
      invariant Y[row] == y[i]
      invariant forall t, k :: 0 <= t < X.Length0 && 0 <= k < X.Length1 && t != row ==> X[t, k] == old(X[t, k])
      invariant forall t :: 0 <= t < Y.Length && t != row ==> Y[t] == old(Y[t])
    {
      var at := sl[j] + 1;
      if at < -|line| || at >= |line| {
        return false;
      }
      var cell := if at < 0 then line[|line| + at] else line[at];
      PyIndexSpec(line, at);
      assert cell == line[at % |line|];
      if j >= X.Length1 {
        return false;
      }
      X[row, j] := cell;
      j := j + 1;
    }
    ghost var v := RowOf(line, sl, X.Length1).value;
    forall t, k | 0 <= t < X.Length0 && 0 <= k < X.Length1 ensures X[t, k] == CellOf(rows + [v], t, k) {
      if t < row {
        assert (rows + [v])[t] == rows[t];
      }
    }
    forall t | 0 <= t < Y.Length ensures Y[t] == if t < |ys + [y[i]]| then (ys + [y[i]])[t] else 0 {
      if t < row {
        assert (ys + [y[i]])[t] == ys[t];
      }
    }
    ok := true;
  }

  /** One CSV row: to the test arrays when done + i is in testpat, to the train arrays otherwise. */
  method PlaceNext(X: array2<string>, Y: array<int>, Xt: array2<string>, Yt: array<int>,
                   d: DataSet, i: nat, sl: seq<int>, tp: seq<int>, c: Counters, ghost st: Routed) returns (r: Result<Counters>)
    requires i < |d.csv| - 1
    requires Allocated(X, Y, Xt, Yt) && Yt.Length == |tp| && Mirrors(X, Y, Xt, Yt, c, st)
    modifies X, Y, Xt, Yt
    ensures var q := RouteRow(st, d, i, sl, X.Length1, X.Length0, tp);
      && (q.Err? ==> r == Err(q.error))
      && (q.Ok? ==> r.Ok? && Mirrors(X, Y, Xt, Yt, r.value, q.value))
  {
    RouteRowShaped(st, d, i, sl, X.Length1, X.Length0, tp);
    RowOfSpec(d.csv[i + 1], sl, X.Length1);
    var line := d.csv[i + 1];
    if c.done + i !in tp {
      var ok := PlaceRow(X, Y, c.trainRow, st.xTrain, st.yTrain, d.y, i, line, sl);
      if !ok {
        return Err(IndexError);
      }
      r := Ok(Counters(c.trainRow + 1, c.testRow, c.done, c.last));
    } else {
      var ok := PlaceRow(Xt, Yt, c.testRow, st.xTest, st.yTest, d.y, i, line, sl);
      if !ok {
        return Err(IndexError);
      }
      r := Ok(Counters(c.trainRow, c.testRow + 1, c.done, c.last));
    }
  }

  /** One step of the loop over a data set's rows. */
  lemma RouteRowsStep(st: Routed, d: DataSet, i: nat, sl: seq<int>, snp: int, cap: int, testpat: seq<int>, s: Routed)
    requires i < |d.csv| - 1 && RouteRows(st, d, i, sl, snp, cap, testpat) == Ok(s)
    ensures RouteRows(st, d, i + 1, sl, snp, cap, testpat) == RouteRow(s, d, i, sl, snp, cap, testpat)
  {
  }

  /** An error at some row is the error of the whole data set. */
  lemma {:induction false} RouteRowsErrFrom(st: Routed, d: DataSet, j: nat, n: nat, sl: seq<int>, snp: int, cap: int, testpat: seq<int>)
    requires j <= n <= |d.csv| - 1 && RouteRows(st, d, j, sl, snp, cap, testpat).Err?
    ensures RouteRows(st, d, n, sl, snp, cap, testpat) == RouteRows(st, d, j, sl, snp, cap, testpat)
  {
    if j < n {
      RouteRowsErrFrom(st, d, j, n - 1, sl, snp, cap, testpat);
    }
  }

  /** The loop over the n rows of a data set, each placed in turn. */
  method PlaceRows(X: array2<string>, Y: array<int>, Xt: array2<string>, Yt: array<int>,
                   d: DataSet, n: nat, sl: seq<int>, tp: seq<int>, c: Counters, ghost st: Routed) returns (r: Result<Counters>)
    requires n <= |d.csv| - 1
    requires Allocated(X, Y, Xt, Yt) && Yt.Length == |tp| && Mirrors(X, Y, Xt, Yt, c, st)
    modifies X, Y, Xt, Yt
    ensures var q := RouteRows(st, d, n, sl, X.Length1, X.Length0, tp);
      && (q.Err? ==> r == Err(q.error))
      && (q.Ok? ==> r.Ok? && Mirrors(X, Y, Xt, Yt, r.value, q.value))
  {
    var cnt := c;
    ghost var s := st;
    var i := 0;
    while i < n
      invariant 0 <= i <= n
      invariant RouteRows(st, d, i, sl, X.Length1, X.Length0, tp) == Ok(s)
      invariant Mirrors(X, Y, Xt, Yt, cnt, s)
    {
      RouteRowsStep(st, d, i, sl, X.Length1, X.Length0, tp, s);
      var q := PlaceNext(X, Y, Xt, Yt, d, i, sl, tp, cnt, s);
      if q.Err? {
        RouteRowsErrFrom(st, d, i + 1, n, sl, X.Length1, X.Length0, tp);
        return Err(q.error);
      }
      cnt := q.value;
      s := RouteRow(s, d, i, sl, X.Length1, X.Length0, tp).value;
      i := i + 1;
    }
    r := Ok(cnt);
  }

  /**
   * One data set: next(reader) skips the header, every row is placed, and `done += i + 1`
   * with the i the loop left behind, which survives from earlier data sets.
   */
  method PlaceSet(X: array2<string>, Y: array<int>, Xt: array2<string>, Yt: array<int>,
                  d: DataSet, sl: seq<int>, tp: seq<int>, c: Counters, ghost st: Routed) returns (r: Result<Counters>)
    requires Allocated(X, Y, Xt, Yt) && Yt.Length == |tp| && Mirrors(X, Y, Xt, Yt, c, st)
    modifies X, Y, Xt, Yt
    ensures var q := RouteSet(st, d, sl, X.Length1, X.Length0, tp);
      && (q.Err? ==> r == Err(q.error))
      && (q.Ok? ==> r.Ok? && Mirrors(X, Y, Xt, Yt, r.value, q.value))
  {
    if d.csv == [] {
      return Err(StopIteration);
    }
    var n := |d.csv| - 1;
    var q := PlaceRows(X, Y, Xt, Yt, d, n, sl, tp, c, st);
    if q.Err? {
      return Err(q.error);
    }
    ghost var s := RouteRows(st, d, n, sl, X.Length1, X.Length0, tp).value;
    RouteSetEnd(st, d, sl, X.Length1, X.Length0, tp, s);
    var last := if n == 0 then q.value.last else Some(n - 1);
    if last.None? {
      return Err(UnboundLocal);
    }
    r := Ok(Counters(q.value.trainRow, q.value.testRow, q.value.done + last.value + 1, last));
    MirrorsAdvance(X, Y, Xt, Yt, q.value, s, last.value);
  }

  /** RouteSet once its rows are routed to s. */
  lemma RouteSetEnd(st: Routed, d: DataSet, sl: seq<int>, snp: int, cap: int, testpat: seq<int>, s: Routed)
    requires d.csv != [] && RouteRows(st, d, |d.csv| - 1, sl, snp, cap, testpat) == Ok(s)
    ensures var last := if |d.csv| == 1 then s.last else Some(|d.csv| - 2);
      RouteSet(st, d, sl, snp, cap, testpat) ==
        if last.None? then Err(UnboundLocal) else Ok(Routed(s.xTrain, s.yTrain, s.xTest, s.yTest, s.done + last.value + 1, last))
  {
  }

  /** Moving done and the last i changes no array. */
  lemma MirrorsAdvance(X: array2<string>, Y: array<int>, Xt: array2<string>, Yt: array<int>, c: Counters, s: Routed, v: int)
    requires Mirrors(X, Y, Xt, Yt, c, s)
    ensures Mirrors(X, Y, Xt, Yt, Counters(c.trainRow, c.testRow, c.done + v + 1, Some(v)),
                    Routed(s.xTrain, s.yTrain, s.xTest, s.yTest, s.done + v + 1, Some(v)))
  {
  }

  /** An error at some data set is the error of the whole loop. */
  lemma {:induction false} RouteSetsErrFrom(st: Routed, sets: seq<DataSet>, lists: seq<seq<int>>, j: nat, snp: int, cap: int, testpat: seq<int>)
    requires j <= |sets| == |lists| && RouteSets(st, sets[..j], lists[..j], snp, cap, testpat).Err?
    ensures RouteSets(st, sets, lists, snp, cap, testpat) == RouteSets(st, sets[..j], lists[..j], snp, cap, testpat)
  {
    var m := |sets| - 1;
    if j <= m {
      assert sets[..m][..j] == sets[..j] && lists[..m][..j] == lists[..j];
      RouteSetsErrFrom(st, sets[..m], lists[..m], j, snp, cap, testpat);
    } else {
      assert sets[..j] == sets && lists[..j] == lists;
    }
  }

  /** The loop over the data sets, data set k reading the columns lists[k]. */
  method PlaceAll(X: array2<string>, Y: array<int>, Xt: array2<string>, Yt: array<int>,
                  sets: seq<DataSet>, lists: seq<seq<int>>, tp: seq<int>) returns (r: Result<Counters>)
    requires |lists| == |sets| && Allocated(X, Y, Xt, Yt) && Yt.Length == |tp|
    requires Mirrors(X, Y, Xt, Yt, Counters(0, 0, 0, None), Begin)
    modifies X, Y, Xt, Yt
    ensures var q := RouteSets(Begin, sets, lists, X.Length1, X.Length0, tp);
      && (q.Err? ==> r == Err(q.error))
      && (q.Ok? ==> r.Ok? && Mirrors(X, Y, Xt, Yt, r.value, q.value))
  {
    var cnt := Counters(0, 0, 0, None);
    ghost var s := Begin;
    var k := 0;
    while k < |sets|
      invariant 0 <= k <= |sets|
      invariant RouteSets(Begin, sets[..k], lists[..k], X.Length1, X.Length0, tp) == Ok(s)
      invariant Mirrors(X, Y, Xt, Yt, cnt, s)
    {
      assert sets[..k + 1][..k] == sets[..k] && lists[..k + 1][..k] == lists[..k];
      assert sets[..k + 1][k] == sets[k] && lists[..k + 1][k] == lists[k];
      var q := PlaceSet(X, Y, Xt, Yt, sets[k], lists[k], tp, cnt, s);
      if q.Err? {
        RouteSetsErrFrom(Begin, sets, lists, k + 1, X.Length1, X.Length0, tp);
        return Err(q.error);
      }
      cnt := q.value;
      s := RouteSet(s, sets[k], lists[k], X.Length1, X.Length0, tp).value;
      k := k + 1;
    }
    assert sets[..|sets|] == sets && lists[..|sets|] == lists;
    r := Ok(cnt);
  }

  /** The matrix an array holds, row by row. */
  function Grid(X: array2<string>): seq<seq<string>>
    reads X
  {
    seq(X.Length0, t requires 0 <= t < X.Length0 reads X => seq(X.Length1, j requires 0 <= j < X.Length1 reads X => X[t, j]))
  }

  /** An array holding rows of its width is the padded matrix of those rows. */
  lemma GridPadded(X: array2<string>, rows: seq<seq<string>>)
    requires Holds(X, rows) && |rows| <= X.Length0 && forall t :: 0 <= t < |rows| ==> |rows[t]| == X.Length1
    ensures Grid(X) == Padded(rows, X.Length0, X.Length1)
  {
    var g := Grid(X);
    var p := Padded(rows, X.Length0, X.Length1);
    PaddedSpec(rows, X.Length0, X.Length1);
    forall t | 0 <= t < X.Length0 ensures g[t] == p[t] {
      if t < |rows| {
        assert p[t] == p[..|rows|][t] == rows[t];
      }
    }
  }

  /** An array holding labels is the padded label vector. */
  lemma ArrayPadded(Y: array<int>, ys: seq<int>)
    requires HoldsY(Y, ys) && |ys| <= Y.Length
    ensures Y[..] == PaddedY(ys, Y.Length)
  {
    PaddedYSpec(ys, Y.Length);
    var p := PaddedY(ys, Y.Length);
    forall t | 0 <= t < Y.Length ensures Y[t] == p[t] {
      if t < |ys| {
        assert p[t] == p[..|ys|][t];
      }
    }
  }

  /** np.zeros allocates the four arrays and the rows are placed into them: what the arrays then hold. */
  method AllocateAndPlace(sets: seq<DataSet>, lists: seq<seq<int>>, snp: nat, cap: nat, tp: seq<int>)
    returns (r: Result<(seq<seq<string>>, seq<int>, seq<seq<string>>, seq<int>)>)
    requires |lists| == |sets|
    ensures var q := RouteSets(Begin, sets, lists, snp, cap, tp);
      && (q.Err? ==> r == Err(q.error))
      && (q.Ok? ==> r == Ok((Padded(q.value.xTrain, cap, snp), PaddedY(q.value.yTrain, cap),
                             Padded(q.value.xTest, |tp|, snp), PaddedY(q.value.yTest, |tp|))))
  {
    var xTrain := new string[cap, snp]((_, _) => Zero);
    var yTrain := new int[cap](_ => 0);
    var xTest := new string[|tp|, snp]((_, _) => Zero);
    var yTest := new int[|tp|](_ => 0);
    var q := PlaceAll(xTrain, yTrain, xTest, yTest, sets, lists, tp);
    if q.Err? {
      return Err(q.error);
    }
    ghost var st := RouteSets(Begin, sets, lists, snp, cap, tp).value;
    GridPadded(xTrain, st.xTrain);
    ArrayPadded(yTrain, st.yTrain);
    GridPadded(xTest, st.xTest);
    ArrayPadded(yTest, st.yTest);
    r := Ok((Grid(xTrain), yTrain[..], Grid(xTest), yTest[..]));
  }

  /** The second half of load_data: np.zeros allocates the four arrays, and the rows are placed into them. */
  method FillData(sets: seq<DataSet>, cols: Columns, pat: seq<int>, testpat: Option<seq<int>>) returns (r: Result<Loaded>)
    requires |cols.lists| == |sets|
    ensures r == Fill(sets, cols, pat, testpat)
  {
    var tp := if testpat.None? then [] else testpat.value;
    var cap := Sum(pat) - |tp|;
    if cap < 0 || cols.snp < 0 {
      return Err(ValueError);
    }
    var q := AllocateAndPlace(sets, cols.lists, cols.snp, cap, tp);
    FillRouted(sets, cols, pat, testpat);
    if q.Err? {
      return Err(q.error);
    }
    var (xTrain, yTrain, xTest, yTest) := q.value;
    if tp == [] {
      r := Ok(Loaded(xTrain, yTrain, cols.snp, None, None));
    } else {
      r := Ok(Loaded(xTrain, yTrain, cols.snp, Some(xTest), Some(yTest)));
    }
  }

  /** Fill once the arrays are allocated: the routing's failure, or the padded matrices of the routed rows. */
  lemma FillRouted(sets: seq<DataSet>, cols: Columns, pat: seq<int>, testpat: Option<seq<int>>)
    requires |cols.lists| == |sets|
    ensures var tp := if testpat.None? then [] else testpat.value;
      var cap := Sum(pat) - |tp|;
      var q := RouteSets(Begin, sets, cols.lists, cols.snp, cap, tp);
      cap >= 0 && cols.snp >= 0 ==>
        && (q.Err? ==> Fill(sets, cols, pat, testpat) == Err(q.error))
        && (q.Ok? && tp == [] ==>
              Fill(sets, cols, pat, testpat) ==
              Ok(Loaded(Padded(q.value.xTrain, cap, cols.snp), PaddedY(q.value.yTrain, cap), cols.snp, None, None)))
        && (q.Ok? && tp != [] ==>
              Fill(sets, cols, pat, testpat) ==
              Ok(Loaded(Padded(q.value.xTrain, cap, cols.snp), PaddedY(q.value.yTrain, cap), cols.snp,
                        Some(Padded(q.value.xTest, |tp|, cols.snp)), Some(PaddedY(q.value.yTest, |tp|)))))
  {
  }

  /** `load_data(ch, dataset, outdir, pat, run, subset, testpat)`. */
  method LoadData(ch: int, sets: seq<DataSet>, subset: bool, pat: seq<int>, testpat: Option<seq<int>>) returns (r: Result<Loaded>)
    ensures r == Load(ch, sets, subset, pat, testpat)
  {
    var cols := ReadColumns(ch, sets, subset);
    if cols.Err? {
      return Err(cols.error);
    }
    r := FillData(sets, cols.value, pat, testpat);
  }
}
