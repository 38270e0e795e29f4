/**
 * The run ledgers boruta_runs.txt and class_runs.txt: a header line, then one
 * row per run whose first whitespace-separated token is the run number.
 * establish_run reads a ledger, picks the number of the run about to start and,
 * when a run is redone, writes the ledger back without that run's row.
 */
module RunLedger {
  import opened Outcomes
  import opened PyStr
  import opened Seqs

  /** A ledger file: absent, or its lines as iterating over the file yields them (each with its line end). */
  datatype Ledger = Missing | Lines(lines: seq<string>)

  /** The header establish_run writes to a new boruta ledger. */
  const BorutaHeader: string := "run\tdata_set\tpatients\tsnps_subset\ttest_size\tperc\twindow_size\tchromosomes\n"

  /** The header establish_run writes to a new class ledger. */
  const ClassHeader: string := "run\ttest_set\ttest_pat\ttrain_run\ttrain_set\ttrain_pat\tperc\tSNPs\tchromosomes\n"

  /** What establish_run returns (a run number or the exception it raises) and the ledger it leaves behind. */
  datatype Outcome = Outcome(run: Result<int>, after: Ledger)

  // ---------------------------------------------------------------- reading the rows

  /** A line with no token at all: `line.split()[0]` raises IndexError there. */
  predicate Blank(line: string) {
    SplitWs(line) == []
  }

  /**
   * `int(line.split()[0])`: the IndexError of a blank line propagates; a first
   * token that is not an integer is a ValueError, which the loop catches (None).
   */
  function RowId(line: string): Result<Option<int>> {
    var toks := SplitWs(line);
    if toks == [] then Err(IndexError)
    else
      match ParseInt(toks[0])
      case Err(_) => Ok(None)
      case Ok(v) => Ok(Some(v))
  }

  /** establish_run's loop variables: `rr`, the rows kept in `lines` after the header, and `rewrite`. */
  datatype Scan = Scan(ids: seq<int>, kept: seq<string>, rewrite: bool)

  /** One turn of the loop over the rows, looking for run number `run`. */
  function ScanStep(sc: Scan, line: string, run: int): Result<Scan> {
    match RowId(line)
    case Err(e) => Err(e)
    case Ok(None) => Ok(sc)
    case Ok(Some(v)) =>
      if v != run then Ok(Scan(sc.ids + [v], sc.kept + [line], sc.rewrite))
      else Ok(Scan(sc.ids + [v], sc.kept, true))
  }

  /** The loop over the rows, or the first row's IndexError. */
  function ScanRows(rows: seq<string>, run: int): Result<Scan> {
    if rows == [] then Ok(Scan([], [], false))
    else
      match ScanRows(rows[..|rows| - 1], run)
      case Err(e) => Err(e)
      case Ok(sc) => ScanStep(sc, rows[|rows| - 1], run)
  }

  /** The run numbers of the rows whose first token is an integer, in order. */
  function Ids(rows: seq<string>): seq<int> {
    if rows == [] then []
    else
      var last := rows[|rows| - 1];
      Ids(rows[..|rows| - 1]) + match RowId(last) case Ok(Some(v)) => [v] case _ => []
  }

  /** The rows whose first token is an integer other than run, in order. */
  function Others(rows: seq<string>, run: int): seq<string> {
    if rows == [] then []
    else
      var last := rows[|rows| - 1];
      Others(rows[..|rows| - 1], run) + match RowId(last) case Ok(Some(v)) => (if v != run then [last] else []) case _ => []
  }

  /** A row of the loop: its IndexError if blank; otherwise the row's effect on the three loop variables. */
  lemma ScanStepSpec(sc: Scan, line: string, run: int)
    ensures Blank(line) <==> ScanStep(sc, line, run).Err?
    ensures Blank(line) ==> ScanStep(sc, line, run) == Err(IndexError)
  {
  }

  /**
   * Without blank rows, the loop collects the integer run numbers in order,
   * keeps the integer rows of other runs in order, and notes whether the run
   * is among them.
   */
  lemma {:induction false} ScanOk(rows: seq<string>, run: int)
    requires forall k :: 0 <= k < |rows| ==> !Blank(rows[k])
    ensures ScanRows(rows, run) == Ok(Scan(Ids(rows), Others(rows, run), run in Ids(rows)))
  {
    if rows != [] {
      var init := rows[..|rows| - 1];
      assert forall k :: 0 <= k < |init| ==> init[k] == rows[k];
      ScanOk(init, run);
      var last := rows[|rows| - 1];
      assert !Blank(last);
      var sc := Scan(Ids(init), Others(init, run), run in Ids(init));
      assert ScanRows(rows, run) == ScanStep(sc, last, run);
      match RowId(last)
      case Ok(None) =>
        assert ScanStep(sc, last, run) == Ok(sc);
        assert Ids(rows) == Ids(init) + [] == Ids(init);
        assert Others(rows, run) == Others(init, run) + [] == Others(init, run);
      case Ok(Some(v)) =>
        assert Ids(rows) == Ids(init) + [v];
        assert run in Ids(rows) <==> run in Ids(init) || v == run;
        if v != run {
          assert Others(rows, run) == Others(init, run) + [last];
        } else {
          assert Others(rows, run) == Others(init, run) + [] == Others(init, run);
        }
    }
  }

  /** A blank row makes the loop raise IndexError. */
  lemma {:induction false} ScanBlank(rows: seq<string>, run: int, k: nat)
    requires k < |rows| && Blank(rows[k])
    ensures ScanRows(rows, run) == Err(IndexError)
  {
    var init := rows[..|rows| - 1];
    if k < |init| {
      assert init[k] == rows[k];
      ScanBlank(init, run, k);
    } else if forall j :: 0 <= j < |init| ==> !Blank(init[j]) {
      ScanOk(init, run);
    } else {
      var j :| 0 <= j < |init| && Blank(init[j]);
      ScanBlank(init, run, j);
    }
  }

  // ---------------------------------------------------------------- the free run numbers

  /** `for el in rr: d.remove(el)`, or the ValueError of the first number not (or no longer) in d. */
  function Free(d: seq<int>, rr: seq<int>): Result<seq<int>> {
    if rr == [] then Ok(d)
    else
      match Free(d, rr[..|rr| - 1])
      case Err(e) => Err(e)
      case Ok(left) =>
        var el := rr[|rr| - 1];
        if el in left then Ok(RemoveFirst(left, el)) else Err(ValueError)
  }

  /** Removing the one occurrence of x from a list without repeats leaves exactly the other elements, still without repeats. */
  lemma RemoveMembers(s: seq<int>, x: int)
    requires NoDuplicates(s) && x in s
    ensures NoDuplicates(RemoveFirst(s, x))
    ensures forall y :: y in RemoveFirst(s, x) <==> y in s && y != x
  {
    var r := RemoveFirst(s, x);
    RemoveFirstSpec(s, x);
    forall y ensures multiset(r)[y] == if y in s && y != x then 1 else 0 {
      NoDuplicatesMultiset(s, y);
    }
    forall y ensures y in r <==> y in s && y != x {
      assert y in r <==> multiset(r)[y] > 0;
    }
    CountsAtMostOne(r);
  }

  /**
   * From a list without repeats, the removals all succeed exactly when the
   * numbers removed are distinct members of it, and then what is left is the
   * list's other elements.
   */
  lemma FreeSpec(d: seq<int>, rr: seq<int>)
    requires NoDuplicates(d)
    ensures Free(d, rr).Ok? <==> NoDuplicates(rr) && forall k :: 0 <= k < |rr| ==> rr[k] in d
    ensures Free(d, rr).Ok? ==>
      NoDuplicates(Free(d, rr).value) && forall x :: x in Free(d, rr).value <==> x in d && x !in rr
  {
    FreeOkIff(d, rr);
    if Free(d, rr).Ok? {
      FreeValue(d, rr, Free(d, rr).value);
    }
  }

  /** What the removals leave: the list's other elements, without repeats. */
  lemma {:induction false} FreeValue(d: seq<int>, rr: seq<int>, left: seq<int>)
    requires NoDuplicates(d) && Free(d, rr) == Ok(left)
    ensures NoDuplicates(left) && forall x :: x in left <==> x in d && x !in rr
  {
    if rr != [] {
      var init := rr[..|rr| - 1];
      var el := rr[|rr| - 1];
      var l0 := Free(d, init).value;
      FreeValue(d, init, l0);
      RemoveMembers(l0, el);
      assert forall x :: x in rr <==> x in init || x == el;
    }
  }

  /** When the removals all succeed. */
  lemma {:induction false} FreeOkIff(d: seq<int>, rr: seq<int>)
    requires NoDuplicates(d)
    ensures Free(d, rr).Ok? <==> NoDuplicates(rr) && forall k :: 0 <= k < |rr| ==> rr[k] in d
  {
    if rr != [] {
      var init := rr[..|rr| - 1];
      var el := rr[|rr| - 1];
      FreeOkIff(d, init);
      assert forall k :: 0 <= k < |init| ==> init[k] == rr[k];
      if Free(d, init).Ok? {
        FreeValue(d, init, Free(d, init).value);
      }
      if NoDuplicates(rr) {
        assert NoDuplicates(init);
        assert el !in init;
      } else if NoDuplicates(init) {
        var i, j :| 0 <= i < j < |rr| && rr[i] == rr[j];
        assert j == |rr| - 1;
        assert el in init;
      }
    }
  }

  /** `max(s)` */
  function Max(s: seq<int>): (m: int)
    requires s != []
    ensures m in s && forall k :: 0 <= k < |s| ==> s[k] <= m
  {
    if |s| == 1 then s[0]
    else
      var m := Max(s[..|s| - 1]);
      assert forall k :: 0 <= k < |s| - 1 ==> s[..|s| - 1][k] == s[k];
      if s[|s| - 1] > m then s[|s| - 1] else m
  }

  /** `min(s)` */
  function Min(s: seq<int>): (m: int)
    requires s != []
    ensures m in s && forall k :: 0 <= k < |s| ==> m <= s[k]
  {
    if |s| == 1 then s[0]
    else
      var m := Min(s[..|s| - 1]);
      assert forall k :: 0 <= k < |s| - 1 ==> s[..|s| - 1][k] == s[k];
      if s[|s| - 1] < m then s[|s| - 1] else m
  }

  lemma RangeDistinct(lo: int, hi: int)
    ensures NoDuplicates(Range(lo, hi))
  {
  }

  /** `range(1, max(rr) + 2)` less rr, when the removals succeed, still holds max(rr) + 1. */
  lemma FreeKeepsTop(rr: seq<int>)
    requires rr != [] && Free(Range(1, Max(rr) + 2), rr).Ok?
    ensures Free(Range(1, Max(rr) + 2), rr).value != []
  {
    var top := Max(rr) + 1;
    var d := Range(1, Max(rr) + 2);
    RangeDistinct(1, Max(rr) + 2);
    FreeSpec(d, rr);
    assert Max(rr) in d;
    assert d[|d| - 1] == top;
    assert top !in rr;
    assert top in Free(d, rr).value;
  }

  // ---------------------------------------------------------------- establish_run

  /** The rest of establish_run once the rows are read: the run number, and the rows to write back after the header if any. */
  function Settle(fixed: bool, sc: Scan, run: Option<int>): Result<(int, Option<seq<string>>)> {
    if sc.ids == [] then Ok((if run.Some? then run.value else 1, None))
    else
      var d := Free(Range(1, Max(sc.ids) + 2), sc.ids);
      if d.Ok? then FreeKeepsTop(sc.ids); Choose(fixed, sc, run, d) else Choose(fixed, sc, run, d)
  }

  /** After the removals from range(1, max(rr) + 2): their ValueError, the least number left, or the asked-for run. */
  function Choose(fixed: bool, sc: Scan, run: Option<int>, d: Result<seq<int>>): Result<(int, Option<seq<string>>)>
    requires d.Ok? ==> d.value != []
  {
    if d.Err? then Err(d.error)
    else if run.None? then Ok((Min(d.value), None))
    else if !sc.rewrite then Ok((run.value, None))
    else if !fixed then Err(WrongValue("-run"))
    else Ok((run.value, Some(sc.kept)))
  }

  /** establish_run on an existing ledger after its header. */
  function EstablishRows(fixed: bool, rows: seq<string>, run: Option<int>): Result<(int, Option<seq<string>>)> {
    match ScanRows(rows, if run.Some? then run.value else 0)
    case Err(e) => Err(e)
    case Ok(sc) => Settle(fixed, sc, run)
  }

  /** establish_run(kind, fixed, outdir, run) on a ledger, with `run` None when no number was asked for. */
  function Establish(kind: string, fixed: bool, ledger: Ledger, run: Option<int>): Outcome {
    match ledger
    case Missing =>
      if kind == "boruta" then Outcome(Ok(1), Lines([BorutaHeader]))
      else if kind == "class" then Outcome(Ok(1), Lines([ClassHeader]))
      else Outcome(Err(UnknownLedgerKind), Lines([]))
    case Lines(ls) =>
      var header := if ls == [] then "" else ls[0];
      match EstablishRows(fixed, if ls == [] then [] else ls[1..], run)
      case Err(e) => Outcome(Err(e), ledger)
      case Ok((n, None)) => Outcome(Ok(n), ledger)
      case Ok((n, Some(kept))) => Outcome(Ok(n), Lines([header] + kept))
  }

  // ---------------------------------------------------------------- the loops

  /** establish_run's loop over the rows after the header. */
  method ScanLines(rows: seq<string>, run: int) returns (r: Result<Scan>)
    ensures r == ScanRows(rows, run)
  {
    var rr: seq<int> := [];
    var kept: seq<string> := [];
    var rewrite := false;
    var i := 0;
    while i < |rows|
      invariant 0 <= i <= |rows|
      invariant ScanRows(rows[..i], run) == Ok(Scan(rr, kept, rewrite))
    {
      assert rows[..i + 1][..i] == rows[..i];
      var id := RowId(rows[i]);
      if id.Err? {
        ScanErrFrom(rows, run, i + 1);
        return Err(id.error);
      }
      if id.value.Some? {
        var val := id.value.value;
        rr := rr + [val];
        if val != run {
          kept := kept + [rows[i]];
        } else {
          rewrite := true;
        }
      }
      i := i + 1;
    }
    assert rows[..i] == rows;
    r := Ok(Scan(rr, kept, rewrite));
  }

  /** An IndexError at some row is the outcome of the whole loop. */
  lemma {:induction false} ScanErrFrom(rows: seq<string>, run: int, j: nat)
    requires 0 < j <= |rows| && ScanRows(rows[..j], run).Err?
    ensures ScanRows(rows, run) == ScanRows(rows[..j], run)
    decreases |rows| - j
  {
    if j < |rows| {
      assert rows[..j + 1][..j] == rows[..j];
      ScanErrFrom(rows, run, j + 1);
    } else {
      assert rows[..j] == rows;
    }
  }

  /** `for el in rr: d.remove(el)` */
  method RemoveAll(d: seq<int>, rr: seq<int>) returns (r: Result<seq<int>>)
    ensures r == Free(d, rr)
  {
    var left := d;
    var i := 0;
    while i < |rr|
      invariant 0 <= i <= |rr|
      invariant Free(d, rr[..i]) == Ok(left)
    {
      assert rr[..i + 1][..i] == rr[..i];
      if rr[i] !in left {
        FreeErrFrom(d, rr, i + 1);
        return Err(ValueError);
      }
      left := RemoveFirst(left, rr[i]);
      i := i + 1;
    }
    assert rr[..i] == rr;
    r := Ok(left);
  }

  /** A failed removal is the outcome of all of them. */
  lemma {:induction false} FreeErrFrom(d: seq<int>, rr: seq<int>, j: nat)
    requires 0 < j <= |rr| && Free(d, rr[..j]).Err?
    ensures Free(d, rr) == Free(d, rr[..j])
    decreases |rr| - j
  {
    if j < |rr| {
      assert rr[..j + 1][..j] == rr[..j];
      FreeErrFrom(d, rr, j + 1);
    } else {
      assert rr[..j] == rr;
    }
  }

  /** `establish_run(kind, fixed, outdir, run)`: the run number or the exception, and the ledger afterwards. */
  method EstablishRun(kind: string, fixed: bool, ledger: Ledger, run: Option<int>) returns (res: Result<int>, after: Ledger)
    ensures Outcome(res, after) == Establish(kind, fixed, ledger, run)
  {
    after := ledger;
    if ledger.Missing? {
      if kind == "boruta" {
        return Ok(1), Lines([BorutaHeader]);
      } else if kind == "class" {
        return Ok(1), Lines([ClassHeader]);
      }
      return Err(UnknownLedgerKind), Lines([]);
    }
    var ls := ledger.lines;
    var header := if ls == [] then "" else ls[0];
    var rows := if ls == [] then [] else ls[1..];
    var target := if run.Some? then run.value else 0;
    var scan := ScanLines(rows, target);
    if scan.Err? {
      return Err(scan.error), ledger;
    }
    var sc := scan.value;
    var n;
    var kept;
    n, kept := SettleRun(fixed, sc, run);
    if n.Err? {
      return Err(n.error), ledger;
    }
    if kept.Some? {
      after := Lines([header] + kept.value);
    }
    res := Ok(n.value);
  }

  /** What establish_run does once the rows are read: the run number (or exception), and the rows to write back if any. */
  method SettleRun(fixed: bool, sc: Scan, run: Option<int>) returns (n: Result<int>, kept: Option<seq<string>>)
    ensures var s := Settle(fixed, sc, run); if s.Err? then n == Err(s.error) else n == Ok(s.value.0) && kept == s.value.1
  {
    kept := None;
    if sc.ids == [] {
      n := Ok(if run.Some? then run.value else 1);
      return;
    }
    var d := RemoveAll(Range(1, Max(sc.ids) + 2), sc.ids);
    if d.Err? {
      return Err(d.error), None;
    }
    if run.None? {
      FreeKeepsTop(sc.ids);
      n := Ok(Min(d.value));
    } else if !sc.rewrite {
      n := Ok(run.value);
    } else if !fixed {
      n := Err(WrongValue("-run"));
    } else {
      n := Ok(run.value);
      kept := Some(sc.kept);
    }
  }

  // ---------------------------------------------------------------- what establish_run promises

  /** Run numbers as a ledger should hold them: distinct and positive. */
  predicate GoodIds(ids: seq<int>) {
    NoDuplicates(ids) && forall k :: 0 <= k < |ids| ==> ids[k] > 0
  }

  /** m is the smallest positive number not among ids. */
  predicate SmallestUnused(m: int, ids: seq<int>) {
    m > 0 && m !in ids && forall k :: 0 < k < m ==> k in ids
  }

  /** The numbers of range(lo, hi). */
  lemma RangeMembers(lo: int, hi: int)
    ensures forall x :: x in Range(lo, hi) <==> lo <= x < hi
  {
    forall x | lo <= x < hi ensures x in Range(lo, hi) {
      assert Range(lo, hi)[x - lo] == x;
    }
  }

  /** The removals from range(1, max(rr) + 2) succeed exactly for distinct positive numbers. */
  lemma FreeIds(rr: seq<int>)
    requires rr != []
    ensures Free(Range(1, Max(rr) + 2), rr).Ok? <==> GoodIds(rr)
  {
    RangeDistinct(1, Max(rr) + 2);
    FreeSpec(Range(1, Max(rr) + 2), rr);
    RangeMembers(1, Max(rr) + 2);
  }

  /** What the removals from range(1, max(rr) + 2) leave: the numbers up to max(rr) + 1 that are not among rr. */
  lemma FreeLeft(rr: seq<int>, left: seq<int>)
    requires rr != [] && Free(Range(1, Max(rr) + 2), rr) == Ok(left)
    ensures forall x :: x in left ==> 1 <= x <= Max(rr) + 1 && x !in rr
    ensures forall x :: 1 <= x <= Max(rr) + 1 && x !in rr ==> x in left
  {
    var d := Range(1, Max(rr) + 2);
    RangeDistinct(1, Max(rr) + 2);
    FreeSpec(d, rr);
    RangeMembers(1, Max(rr) + 2);
  }

  /** The least of the numbers 1 .. top that are not among rr is the smallest unused positive number. */
  lemma LeastLeft(rr: seq<int>, left: seq<int>, top: int)
    requires left != []
    requires forall x :: x in left ==> 1 <= x <= top && x !in rr
    requires forall x :: 1 <= x <= top && x !in rr ==> x in left
    ensures SmallestUnused(Min(left), rr)
  {
    var m := Min(left);
    assert m in left;
    forall k | 0 < k < m ensures k in rr {
      assert 1 <= k <= top;
      assert k !in rr ==> k in left;
    }
  }

  /** For good run numbers the removals succeed, and the least number left is the smallest unused one. */
  lemma FreshLeft(rr: seq<int>)
    requires rr != [] && GoodIds(rr)
    ensures var d := Free(Range(1, Max(rr) + 2), rr); d.Ok? && d.value != [] && SmallestUnused(Min(d.value), rr)
  {
    FreeIds(rr);
    var left := Free(Range(1, Max(rr) + 2), rr).value;
    FreeLeft(rr, left);
    var top := Max(rr) + 1;
    assert top !in rr;
    assert top in left;
    LeastLeft(rr, left, top);
  }

  /** With no run asked for and a ledger of good run numbers, the run is the smallest unused positive number. */
  lemma SettleFresh(fixed: bool, sc: Scan)
    requires GoodIds(sc.ids)
    ensures Settle(fixed, sc, None).Ok? && Settle(fixed, sc, None).value.1 == None
    ensures SmallestUnused(Settle(fixed, sc, None).value.0, sc.ids)
  {
    if sc.ids != [] {
      FreshLeft(sc.ids);
    }
  }

  /**
   * With a run asked for and a ledger of good run numbers: a run not in the
   * ledger is returned as it is; one in the ledger is a conflict without
   * `fixed`, and with it the other runs' rows are written back.
   */
  lemma SettleGiven(fixed: bool, sc: Scan, v: int)
    requires GoodIds(sc.ids) && sc.rewrite == (v in sc.ids)
    ensures v !in sc.ids ==> Settle(fixed, sc, Some(v)) == Ok((v, None))
    ensures v in sc.ids && !fixed ==> Settle(fixed, sc, Some(v)) == Err(WrongValue("-run"))
    ensures v in sc.ids && fixed ==> Settle(fixed, sc, Some(v)) == Ok((v, Some(sc.kept)))
  {
    if sc.ids != [] {
      FreeIds(sc.ids);
    }
  }

  /** A repeated or non-positive run number makes the removals raise ValueError. */
  lemma SettleBad(fixed: bool, sc: Scan, run: Option<int>)
    requires sc.ids != [] && !GoodIds(sc.ids)
    ensures Settle(fixed, sc, run) == Err(ValueError)
  {
    FreeIds(sc.ids);
    var d := Free(Range(1, Max(sc.ids) + 2), sc.ids);
    FreeIsValueError(Range(1, Max(sc.ids) + 2), sc.ids);
  }

  /** The only exception the removals raise is ValueError. */
  lemma {:induction false} FreeIsValueError(d: seq<int>, rr: seq<int>)
    ensures Free(d, rr).Err? ==> Free(d, rr) == Err(ValueError)
  {
    if rr != [] {
      FreeIsValueError(d, rr[..|rr| - 1]);
    }
  }

  /** The rows of an existing ledger, after its header line. */
  function Rows(ls: seq<string>): seq<string> {
    if ls == [] then [] else ls[1..]
  }

  /** No row of the ledger is blank. */
  predicate NoBlankRows(rows: seq<string>) {
    forall k :: 0 <= k < |rows| ==> !Blank(rows[k])
  }

  /** A missing ledger gets run 1, whatever run was asked for, and a new file holding the header of its kind; any other kind is an error that leaves the new file empty. */
  lemma EstablishMissing(kind: string, fixed: bool, run: Option<int>)
    ensures kind == "boruta" ==> Establish(kind, fixed, Missing, run) == Outcome(Ok(1), Lines([BorutaHeader]))
    ensures kind == "class" ==> Establish(kind, fixed, Missing, run) == Outcome(Ok(1), Lines([ClassHeader]))
    ensures kind != "boruta" && kind != "class" ==> Establish(kind, fixed, Missing, run) == Outcome(Err(UnknownLedgerKind), Lines([]))
  {
  }

  /** With no run asked for, a ledger of good run numbers gives the smallest positive number none of its rows has, and is left as it was. */
  lemma EstablishFresh(kind: string, fixed: bool, ls: seq<string>)
    requires NoBlankRows(Rows(ls)) && GoodIds(Ids(Rows(ls)))
    ensures var o := Establish(kind, fixed, Lines(ls), None);
      o.after == Lines(ls) && o.run.Ok? && SmallestUnused(o.run.value, Ids(Rows(ls)))
  {
    var rows := Rows(ls);
    var sc := Scan(Ids(rows), Others(rows, 0), 0 in Ids(rows));
    ScanOk(rows, 0);
    SettleFresh(fixed, sc);
    assert EstablishRows(fixed, rows, None) == Settle(fixed, sc, None);
  }

  /**
   * With run v asked for, over a ledger of good run numbers: a v no row has is
   * returned and the ledger left as it was; a v some row has is an error
   * without `fixed`, and with it v is returned and the ledger rewritten as its
   * header followed by the integer rows of the other runs, in order.
   */
  lemma EstablishGiven(kind: string, fixed: bool, ls: seq<string>, v: int)
    requires NoBlankRows(Rows(ls)) && GoodIds(Ids(Rows(ls)))
    ensures v !in Ids(Rows(ls)) ==> Establish(kind, fixed, Lines(ls), Some(v)) == Outcome(Ok(v), Lines(ls))
    ensures v in Ids(Rows(ls)) && !fixed ==> Establish(kind, fixed, Lines(ls), Some(v)) == Outcome(Err(WrongValue("-run")), Lines(ls))
    ensures v in Ids(Rows(ls)) && fixed ==> ls != [] && Establish(kind, fixed, Lines(ls), Some(v)) == Outcome(Ok(v), Lines([ls[0]] + Others(Rows(ls), v)))
  {
    var rows := Rows(ls);
    var sc := Scan(Ids(rows), Others(rows, v), v in Ids(rows));
    ScanOk(rows, v);
    SettleGiven(fixed, sc, v);
    assert EstablishRows(fixed, rows, Some(v)) == Settle(fixed, sc, Some(v));
    if v in Ids(rows) {
      assert rows != [];
    }
  }

  /** A ledger with a repeated or non-positive run number makes establish_run raise ValueError, and is left as it was. */
  lemma EstablishBadIds(kind: string, fixed: bool, ls: seq<string>, run: Option<int>)
    requires NoBlankRows(Rows(ls)) && Ids(Rows(ls)) != [] && !GoodIds(Ids(Rows(ls)))
    ensures Establish(kind, fixed, Lines(ls), run) == Outcome(Err(ValueError), Lines(ls))
  {
    var target := if run.Some? then run.value else 0;
    ScanOk(Rows(ls), target);
    SettleBad(fixed, Scan(Ids(Rows(ls)), Others(Rows(ls), target), target in Ids(Rows(ls))), run);
  }

  /** A blank row makes establish_run raise IndexError, and leaves the ledger as it was. */
  lemma EstablishBlank(kind: string, fixed: bool, ls: seq<string>, run: Option<int>, k: nat)
    requires k < |Rows(ls)| && Blank(Rows(ls)[k])
    ensures Establish(kind, fixed, Lines(ls), run) == Outcome(Err(IndexError), Lines(ls))
  {
    ScanBlank(Rows(ls), if run.Some? then run.value else 0, k);
  }

  /** The rows written back hold every run number of the ledger except v, and not v. */
  lemma {:induction false} OthersIds(rows: seq<string>, v: int)
    ensures forall x :: x in Ids(Others(rows, v)) <==> x in Ids(rows) && x != v
  {
    if rows != [] {
      var init := rows[..|rows| - 1];
      var last := rows[|rows| - 1];
      OthersIds(init, v);
      var o := Others(rows, v);
      if RowId(last).Ok? && RowId(last).value.Some? {
        var w := RowId(last).value.value;
        assert Ids(rows) == Ids(init) + [w];
        if w != v {
          assert o == Others(init, v) + [last];
          assert o[..|o| - 1] == Others(init, v);
          assert Ids(o) == Ids(Others(init, v)) + [w];
        } else {
          assert o == Others(init, v);
        }
      } else {
        assert Ids(rows) == Ids(init);
        assert o == Others(init, v);
      }
    }
  }
}
