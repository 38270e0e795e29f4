/**
 * cont_run: continuing a recorded Boruta run. The ledger boruta_runs.txt is
 * read as its lines; every row of the run is rewritten with the chromosomes it
 * now covers, the other lines are copied, and the chromosomes already analysed
 * in the run are taken out of the caller's chromosome list.
 */
module ContRun {
  import opened Outcomes
  import opened PyStr
  import opened Seqs
  import opened RangeCodec

  // ---------------------------------------------------------------- a row of the ledger

  /** `line.startswith(str(run) + '\t')` */
  predicate OfRun(line: string, run: int) {
    StartsWith(line, Render(run) + "\t")
  }

  /** `line.strip().split('\t')` */
  function Fields(line: string): seq<string> {
    Split(Strip(line), '\t')
  }

  /** The ints of comma-separated pieces, or MalformedLiteral at the first piece that is not one. */
  function ParseInts(parts: seq<string>): Result<seq<int>> {
    if parts == [] then Ok([])
    else
      match ParseInts(parts[..|parts| - 1])
      case Err(e) => Err(e)
      case Ok(l) =>
        match ParseInt(parts[|parts| - 1])
        case Err(_) => Err(MalformedLiteral)
        case Ok(v) => Ok(l + [v])
  }

  /**
   * The perc field as ast.literal_eval reads it, for the literal forms the
   * scripts write: an int (which cont_run turns into a one-element list),
   * ints joined by ',' (a tuple), or such ints in brackets (a list, maybe empty).
   * Other text follows the same rules, which are not literal_eval's: a leading
   * zero ("007") is accepted, and parentheses or a trailing comma are not.
   */
  function ParsePerc(text: string): Result<seq<int>> {
    var t := Strip(text);
    if |t| >= 2 && t[0] == '[' && t[|t| - 1] == ']' then
      var inner := t[1..|t| - 1];
      if Strip(inner) == "" then Ok([]) else ParseInts(Split(inner, ','))
    else ParseInts(Split(t, ','))
  }

  /** `','.join(list(map(str, perc)))`, the perc field as the main script writes a new row. */
  function PercText(perc: seq<int>): string {
    Join(Renders(perc), ",")
  }

  /** `list(map(str, ns))` */
  function Renders(ns: seq<int>): (ts: seq<string>)
    ensures |ts| == |ns|
  {
    seq(|ns|, k requires 0 <= k < |ns| => Render(ns[k]))
  }

  /**
   * The fields of the run's row that cont_run returns: snps_subset, test_size
   * (its text, and whether `float(testsize) != 0`), perc and window_size.
   */
  datatype Record = Record(subset: string, testsize: string, heldOut: bool, perc: seq<int>, r: int)

  /** `line[3]`, `float(line[4])`, the perc literal in `line[5]` and `int(line[6])`, read in that order. */
  function ReadRecord(f: seq<string>): Result<Record> {
    if |f| < 5 then Err(IndexError)
    else
      match FloatIsZero(f[4])
      case Err(e) => Err(e)
      case Ok(zero) =>
        if |f| < 6 then Err(IndexError)
        else
          match ParsePerc(f[5])
          case Err(e) => Err(e)
          case Ok(perc) =>
            if |f| < 7 then Err(IndexError)
            else
              match ParseInt(f[6])
              case Err(e) => Err(e)
              case Ok(r) => Ok(Record(f[3], f[4], !zero, perc, r))
  }

  // ---------------------------------------------------------------- the Counter loop

  /**
   * One item of `Counter(chrs)`: a chromosome counted more than once is removed
   * from chrlist unless fixed; its absence is remove's ValueError, and an
   * emptied chrlist is a WrongValueError.
   */
  function Omit(c: seq<int>, chrs: seq<int>, key: int, fixed: bool): Result<seq<int>> {
    if Count(chrs, key) > 1 && !fixed then
      if key in c then
        var c' := RemoveFirst(c, key);
        if c' == [] then Err(WrongValue("chrlist")) else Ok(c')
      else Err(ValueError)
    else Ok(c)
  }

  /** The Counter loop over the keys in order, from chrlist c. */
  function Merge(keys: seq<int>, chrs: seq<int>, c: seq<int>, fixed: bool): Result<seq<int>> {
    if keys == [] then Ok(c)
    else
      match Merge(keys[..|keys| - 1], chrs, c, fixed)
      case Err(e) => Err(e)
      case Ok(c') => Omit(c', chrs, keys[|keys| - 1], fixed)
  }

  /** The elements of c that are not in gone, in order. */
  function Drop(c: seq<int>, gone: set<int>): seq<int> {
    if c == [] then [] else (if c[0] in gone then [] else [c[0]]) + Drop(c[1..], gone)
  }

  /** The keys that are both recorded (in d) and asked for (in c). */
  function Hit(keys: seq<int>, d: seq<int>, c: seq<int>): set<int> {
    set x | x in keys && x in d && x in c
  }

  /** What removing the chromosomes in gone from c comes to: c without them, or the emptied list's error. */
  function Omitted(c: seq<int>, gone: set<int>): Result<seq<int>> {
    if gone != {} && Drop(c, gone) == [] then Err(WrongValue("chrlist")) else Ok(Drop(c, gone))
  }

  // ---------------------------------------------------------------- rewriting the row

  /** The text of the fields, each followed by a tab (the `strin` loop before its newline). */
  function Tabbed(fs: seq<string>): string {
    if fs == [] then "" else Tabbed(fs[..|fs| - 1]) + fs[|fs| - 1] + "\t"
  }

  /** A row of the run after cont_run: its new text, the fields it returns, the chromosome list after it. */
  datatype Rewrite = Rewrite(row: string, rec: Record, chrlist: seq<int>)

  /** cont_run on one row of the run, with the caller's chromosome list c. */
  function RewriteRow(line: string, c: seq<int>, fixed: bool): Result<Rewrite> {
    var f := Fields(line);
    match ReadRecord(f)
    case Err(e) => Err(e)
    case Ok(rec) =>
      match Decode(f[|f| - 1])
      case Err(e) => Err(e)
      case Ok(d) =>
        var chrs := d + c;
        match Merge(Dedup(chrs), chrs, c, fixed)
        case Err(e) => Err(e)
        case Ok(c') => Ok(Rewrite(Tabbed(f[..|f| - 1] + [Encode(SortedDistinct(chrs))]) + "\n", rec, c'))
  }

  // ---------------------------------------------------------------- the loop over the lines

  /** cont_run's loop variables: `occur`, the last row's fields, `towrite` as lines, and chrlist. */
  datatype State = State(occur: bool, rec: Record, towrite: seq<string>, chrlist: seq<int>)

  function Start(chrlist: seq<int>): State {
    State(false, Record("", "", false, [], 0), [], chrlist)
  }

  /** One line: a row of the run is rewritten, any other line copied. */
  function ContStep(st: State, line: string, run: int, fixed: bool): Result<State> {
    if !OfRun(line, run) then Ok(st.(towrite := st.towrite + [line]))
    else
      match RewriteRow(line, st.chrlist, fixed)
      case Err(e) => Err(e)
      case Ok(w) => Ok(State(true, w.rec, st.towrite + [w.row], w.chrlist))
  }

  /** The loop over the lines from state st, or the first error. */
  function Fold(st: State, lines: seq<string>, run: int, fixed: bool): Result<State> {
    if lines == [] then Ok(st)
    else
      match Fold(st, lines[..|lines| - 1], run, fixed)
      case Err(e) => Err(e)
      case Ok(s) => ContStep(s, lines[|lines| - 1], run, fixed)
  }

  /** What cont_run returns apart from testpat: the run's fields, the new ledger text as lines, the new chrlist. */
  datatype Continued = Continued(rec: Record, towrite: seq<string>, chrlist: seq<int>)

  /** cont_run(chrlist, fixed, outdir, run) on the ledger's lines, up to reading testpat. */
  function Continue(chrlist: seq<int>, fixed: bool, lines: seq<string>, run: int): Result<Continued> {
    match Fold(Start(chrlist), lines, run, fixed)
    case Err(e) => Err(e)
    case Ok(st) => if st.occur then Ok(Continued(st.rec, st.towrite, st.chrlist)) else Err(WrongValue("-run"))
  }

  // ---------------------------------------------------------------- testpat_<run>.txt

  /** `[int(line.strip()) for line in ts]` */
  function ReadTestPat(lines: seq<string>): Result<seq<int>> {
    if lines == [] then Ok([])
    else
      match ReadTestPat(lines[..|lines| - 1])
      case Err(e) => Err(e)
      case Ok(l) =>
        match ParseInt(lines[|lines| - 1])
        case Err(e) => Err(e)
        case Ok(v) => Ok(l + [v])
  }

  /**
   * `if testsize != 0`, after the loop over the ledger: the held-out patients of
   * testpat_<run>.txt (given as its lines, or None for a missing file), or None
   * when the run kept no test set, in which case the file is not opened.
   */
  function HeldOut(rec: Record, file: Option<seq<string>>): Result<Option<seq<int>>> {
    if !rec.heldOut then Ok(None)
    else
      match file
      case None => Err(FileNotFound)
      case Some(lines) =>
        match ReadTestPat(lines)
        case Err(e) => Err(e)
        case Ok(tp) => Ok(Some(tp))
  }

  /** The lines first_run writes, `'%d\n' % el` for each held-out patient. */
  function TestPatLines(testpat: seq<int>): (ls: seq<string>)
    ensures |ls| == |testpat|
  {
    seq(|testpat|, k requires 0 <= k < |testpat| => Render(testpat[k]) + "\n")
  }

  // ---------------------------------------------------------------- the loops

  /** The `strin` loop: every field followed by a tab, then the newline. */
  method JoinFields(fs: seq<string>) returns (strin: string)
    ensures strin == Tabbed(fs) + "\n"
  {
    strin := "";
    var i := 0;
    while i < |fs|
      invariant 0 <= i <= |fs|
      invariant strin == Tabbed(fs[..i])
    {
      assert fs[..i + 1][..i] == fs[..i];
      strin := strin + fs[i] + "\t";
      i := i + 1;
    }
    assert fs[..|fs|] == fs;
    strin := strin + "\n";
  }

  /** An error of the Counter loop at some key is the error of the whole loop. */
  lemma {:induction false} MergeErrFrom(keys: seq<int>, chrs: seq<int>, c: seq<int>, fixed: bool, j: nat, e: Error)
    requires j <= |keys| && Merge(keys[..j], chrs, c, fixed) == Err(e)
    ensures Merge(keys, chrs, c, fixed) == Err(e)
  {
    if j < |keys| {
      assert keys[..|keys| - 1][..j] == keys[..j];
      MergeErrFrom(keys[..|keys| - 1], chrs, c, fixed, j, e);
    } else {
      assert keys[..j] == keys;
    }
  }

  /** `for key, value in Counter(chrs).items(): …` */
  method OmitRecorded(keys: seq<int>, chrs: seq<int>, chrlist: seq<int>, fixed: bool) returns (r: Result<seq<int>>)
    ensures r == Merge(keys, chrs, chrlist, fixed)
  {
    var c := chrlist;
    var i := 0;
    while i < |keys|
      invariant 0 <= i <= |keys|
      invariant Merge(keys[..i], chrs, chrlist, fixed) == Ok(c)
    {
      var key := keys[i];
      assert keys[..i + 1][..i] == keys[..i];
      if Count(chrs, key) > 1 && !fixed {
        if key !in c {
          MergeErrFrom(keys, chrs, chrlist, fixed, i + 1, ValueError);
          return Err(ValueError);
        }
        c := RemoveFirst(c, key);
        if c == [] {
          MergeErrFrom(keys, chrs, chrlist, fixed, i + 1, WrongValue("chrlist"));
          return Err(WrongValue("chrlist"));
        }
      }
      i := i + 1;
    }
    assert keys[..|keys|] == keys;
    r := Ok(c);
  }

  /** The body of cont_run's loop for a row of the run. */
  method RewriteLine(line: string, chrlist: seq<int>, fixed: bool) returns (r: Result<Rewrite>)
    ensures r == RewriteRow(line, chrlist, fixed)
  {
    var f := Fields(line);
    var rec := ReadRecord(f);
    if rec.Err? {
      return Err(rec.error);
    }
    var d := ReadChrStr(f[|f| - 1]);
    if d.Err? {
      return Err(d.error);
    }
    var chrs := d.value + chrlist;
    var c := OmitRecorded(Dedup(chrs), chrs, chrlist, fixed);
    if c.Err? {
      return Err(c.error);
    }
    var text := MakeChrStr(SortedDistinct(chrs));
    var row := JoinFields(f[..|f| - 1] + [text]);
    r := Ok(Rewrite(row, rec.value, c.value));
  }

  /** An error at some line is the error of the whole loop. */
  lemma {:induction false} FoldErrFrom(st: State, lines: seq<string>, run: int, fixed: bool, j: nat, e: Error)
    requires j <= |lines| && Fold(st, lines[..j], run, fixed) == Err(e)
    ensures Fold(st, lines, run, fixed) == Err(e)
  {
    if j < |lines| {
      assert lines[..|lines| - 1][..j] == lines[..j];
      FoldErrFrom(st, lines[..|lines| - 1], run, fixed, j, e);
    } else {
      assert lines[..j] == lines;
    }
  }

  /** The loop after i + 1 lines is one more step from where it stood after i lines. */
  lemma FoldNext(st: State, lines: seq<string>, run: int, fixed: bool, i: nat, s: State)
    requires i < |lines| && Fold(st, lines[..i], run, fixed) == Ok(s)
    ensures Fold(st, lines[..i + 1], run, fixed) == ContStep(s, lines[i], run, fixed)
  {
    assert lines[..i + 1][..i] == lines[..i];
  }

  /** The body of cont_run's loop for one line: a row of the run is rewritten, any other line copied. */
  method StepLine(st: State, line: string, run: int, fixed: bool) returns (r: Result<State>)
    ensures r == ContStep(st, line, run, fixed)
  {
    if StartsWith(line, Render(run) + "\t") {
      var w := RewriteLine(line, st.chrlist, fixed);
      if w.Err? {
        return Err(w.error);
      }
      r := Ok(State(true, w.value.rec, st.towrite + [w.value.row], w.value.chrlist));
    } else {
      r := Ok(st.(towrite := st.towrite + [line]));
    }
  }

  /** `cont_run(chrlist, fixed, outdir, run)` up to reading testpat, with the new chrlist returned. */
  method ContinueRun(chrlist: seq<int>, fixed: bool, lines: seq<string>, run: int) returns (r: Result<Continued>)
    ensures r == Continue(chrlist, fixed, lines, run)
  {
    var st := Start(chrlist);
    var i := 0;
    while i < |lines|
      invariant 0 <= i <= |lines|
      invariant Fold(Start(chrlist), lines[..i], run, fixed) == Ok(st)
    {
      FoldNext(Start(chrlist), lines, run, fixed, i, st);
      var n := StepLine(st, lines[i], run, fixed);
      if n.Err? {
        FoldErrFrom(Start(chrlist), lines, run, fixed, i + 1, n.error);
        return Err(n.error);
      }
      st := n.value;
      i := i + 1;
    }
    assert lines[..|lines|] == lines;
    if !st.occur {
      return Err(WrongValue("-run"));
    }
    r := Ok(Continued(st.rec, st.towrite, st.chrlist));
  }

  /** An error at some line of testpat_<run>.txt is the error of the whole read. */
  lemma {:induction false} TestPatErrFrom(lines: seq<string>, j: nat, e: Error)
    requires j <= |lines| && ReadTestPat(lines[..j]) == Err(e)
    ensures ReadTestPat(lines) == Err(e)
  {
    if j < |lines| {
      assert lines[..|lines| - 1][..j] == lines[..j];
      TestPatErrFrom(lines[..|lines| - 1], j, e);
    } else {
      assert lines[..j] == lines;
    }
  }

  /** cont_run's read of testpat_<run>.txt, done when the run's test size is not 0. */
  method LoadTestPat(lines: seq<string>) returns (r: Result<seq<int>>)
    ensures r == ReadTestPat(lines)
  {
    var testpat: seq<int> := [];
    var i := 0;
    while i < |lines|
      invariant 0 <= i <= |lines|
      invariant ReadTestPat(lines[..i]) == Ok(testpat)
    {
      assert lines[..i + 1][..i] == lines[..i];
      var v := ParseInt(lines[i]);
      if v.Err? {
        TestPatErrFrom(lines, i + 1, v.error);
        return Err(v.error);
      }
      ReadTestPatSnoc(lines, i + 1, testpat, v.value);
      testpat := testpat + [v.value];
      i := i + 1;
    }
    assert lines[..|lines|] == lines;
    r := Ok(testpat);
  }

  /** The test-size gate of cont_run: testpat is read only for a run with a test set. */
  method ReadHeldOut(rec: Record, file: Option<seq<string>>) returns (r: Result<Option<seq<int>>>)
    ensures r == HeldOut(rec, file)
  {
    if !rec.heldOut {
      return Ok(None);
    }
    if file.None? {
      return Err(FileNotFound);
    }
    var tp := LoadTestPat(file.value);
    if tp.Err? {
      return Err(tp.error);
    }
    r := Ok(Some(tp.value));
  }

  // ---------------------------------------------------------------- the loop over the lines: properties

  /** Running the loop over a + b is running it over a, then over b from where that ended. */
  lemma {:induction false} FoldAppend(st: State, a: seq<string>, b: seq<string>, run: int, fixed: bool)
    ensures Fold(st, a + b, run, fixed) ==
      match Fold(st, a, run, fixed)
      case Err(e) => Err(e)
      case Ok(s) => Fold(s, b, run, fixed)
  {
    if b == [] {
      assert a + b == a;
    } else {
      FoldAppend(st, a, b[..|b| - 1], run, fixed);
      assert (a + b)[..|a + b| - 1] == a + b[..|b| - 1];
      assert (a + b)[|a + b| - 1] == b[|b| - 1];
    }
  }

  /** Lines that are not rows of the run are copied and change nothing else. */
  lemma {:induction false} FoldCopy(st: State, ls: seq<string>, run: int, fixed: bool)
    requires forall k :: 0 <= k < |ls| ==> !OfRun(ls[k], run)
    ensures Fold(st, ls, run, fixed) == Ok(st.(towrite := st.towrite + ls))
  {
    if ls == [] {
      assert st.towrite + ls == st.towrite;
    } else {
      var init := ls[..|ls| - 1];
      var last := ls[|ls| - 1];
      assert forall k :: 0 <= k < |init| ==> init[k] == ls[k];
      FoldCopy(st, init, run, fixed);
      var s := st.(towrite := st.towrite + init);
      assert !OfRun(last, run);
      assert ContStep(s, last, run, fixed) == Ok(s.(towrite := s.towrite + [last]));
      assert st.towrite + init + [last] == st.towrite + ls;
    }
  }

  /** The loop over one line is one turn of it. */
  lemma FoldOne(st: State, line: string, run: int, fixed: bool)
    ensures Fold(st, [line], run, fixed) == ContStep(st, line, run, fixed)
  {
    assert [line][..0] == [];
  }

  /** The errors of the perc literal are MalformedLiteral. */
  lemma {:induction false} ParseIntsErr(parts: seq<string>)
    ensures ParseInts(parts).Err? ==> ParseInts(parts).error == MalformedLiteral
  {
    if parts != [] {
      ParseIntsErr(parts[..|parts| - 1]);
    }
  }

  /** The errors of read_chrstr are int()'s ValueError. */
  lemma {:induction false} DecodePiecesErr(c: seq<string>)
    ensures DecodePieces(c).Err? ==> DecodePieces(c).error == ValueError
  {
    if c != [] {
      DecodePiecesErr(c[..|c| - 1]);
    }
  }

  /** The errors of the Counter loop are remove's ValueError and the emptied chrlist. */
  lemma {:induction false} MergeErr(keys: seq<int>, chrs: seq<int>, c: seq<int>, fixed: bool)
    ensures var m := Merge(keys, chrs, c, fixed); m.Err? ==> m.error == ValueError || m.error == WrongValue("chrlist")
  {
    if keys != [] {
      MergeErr(keys[..|keys| - 1], chrs, c, fixed);
    }
  }

  /** The fields of a row fail to read with IndexError or a literal's error, never the missing-run error. */
  lemma ReadRecordNotMissing(f: seq<string>)
    ensures var r := ReadRecord(f); r.Err? ==> r.error != WrongValue("-run")
  {
    if |f| >= 6 {
      var t := Strip(f[5]);
      ParseIntsErr(Split(t, ','));
      if |t| >= 2 {
        ParseIntsErr(Split(t[1..|t| - 1], ','));
      }
    }
  }

  /** A row of the run fails with its own errors, never with the missing-run WrongValueError. */
  lemma RewriteNotMissing(line: string, c: seq<int>, fixed: bool)
    ensures var w := RewriteRow(line, c, fixed); w.Err? ==> w.error != WrongValue("-run")
  {
    var f := Fields(line);
    ReadRecordNotMissing(f);
    DecodePiecesErr(Pieces(f[|f| - 1]));
    var d := Decode(f[|f| - 1]);
    if d.Ok? {
      MergeErr(Dedup(d.value + c), d.value + c, c, fixed);
    }
  }

  /** Some line is a row of the run. */
  predicate Occurs(ls: seq<string>, run: int) {
    ls != [] && (Occurs(ls[..|ls| - 1], run) || OfRun(ls[|ls| - 1], run))
  }

  lemma {:induction false} OccursSpec(ls: seq<string>, run: int)
    ensures Occurs(ls, run) <==> exists k :: 0 <= k < |ls| && OfRun(ls[k], run)
  {
    if ls != [] {
      var init := ls[..|ls| - 1];
      OccursSpec(init, run);
      if Occurs(init, run) {
        var k :| 0 <= k < |init| && OfRun(init[k], run);
        assert ls[k] == init[k];
      }
      if exists k :: 0 <= k < |ls| && OfRun(ls[k], run) {
        var k :| 0 <= k < |ls| && OfRun(ls[k], run);
        if k < |init| {
          assert init[k] == ls[k];
        }
      }
    }
  }

  /** The loop's errors are never the missing-run error. */
  lemma {:induction false} FoldNotMissing(st: State, ls: seq<string>, run: int, fixed: bool)
    ensures var r := Fold(st, ls, run, fixed); r.Err? ==> r.error != WrongValue("-run")
  {
    if ls != [] {
      FoldNotMissing(st, ls[..|ls| - 1], run, fixed);
      var r := Fold(st, ls[..|ls| - 1], run, fixed);
      if r.Ok? {
        RewriteNotMissing(ls[|ls| - 1], r.value.chrlist, fixed);
      }
    }
  }

  /** `occur` ends true exactly when it started true or some line is a row of the run. */
  lemma {:induction false} FoldOccur(st: State, ls: seq<string>, run: int, fixed: bool)
    ensures var r := Fold(st, ls, run, fixed); r.Ok? ==> (r.value.occur <==> st.occur || Occurs(ls, run))
  {
    if ls != [] {
      FoldOccur(st, ls[..|ls| - 1], run, fixed);
    }
  }

  /** One step adds one line to the new text, the line itself when it is not a row of the run. */
  lemma StepLines(st: State, line: string, run: int, fixed: bool)
    ensures var r := ContStep(st, line, run, fixed); r.Ok? ==>
      var t := r.value.towrite; var n := |st.towrite|;
      |t| == n + 1 && t[..n] == st.towrite && (!OfRun(line, run) ==> t[n] == line)
  {
  }

  /** The new text extends the old one by one line per line read. */
  lemma {:induction false} FoldLength(st: State, ls: seq<string>, run: int, fixed: bool)
    ensures var r := Fold(st, ls, run, fixed); r.Ok? ==>
      var t := r.value.towrite; |t| == |st.towrite| + |ls| && t[..|st.towrite|] == st.towrite
  {
    if ls != [] {
      var init := ls[..|ls| - 1];
      FoldLength(st, init, run, fixed);
      var r := Fold(st, init, run, fixed);
      if r.Ok? {
        StepLines(r.value, ls[|ls| - 1], run, fixed);
      }
    }
  }

  /** The loop after one more line: the new text is the old one and one line. */
  lemma FoldLast(st: State, ls: seq<string>, run: int, fixed: bool)
    requires ls != []
    ensures var r := Fold(st, ls, run, fixed); var p := Fold(st, ls[..|ls| - 1], run, fixed);
      r.Ok? ==>
        && p.Ok? && |r.value.towrite| == |p.value.towrite| + 1 && r.value.towrite[..|p.value.towrite|] == p.value.towrite
        && (!OfRun(ls[|ls| - 1], run) ==> r.value.towrite[|p.value.towrite|] == ls[|ls| - 1])
  {
    var p := Fold(st, ls[..|ls| - 1], run, fixed);
    if p.Ok? {
      StepLines(p.value, ls[|ls| - 1], run, fixed);
    }
  }

  /** The line at position base + k of u stays there in every extension t of u. */
  lemma KeptAt(u: seq<string>, t: seq<string>, i: nat, line: string)
    requires i < |u| <= |t| && t[..|u|] == u && u[i] == line
    ensures t[i] == line
  {
    assert t[..|u|][i] == t[i];
  }

  /** A line that is not a row of the run is copied to its own place in the new text. */
  lemma {:induction false} FoldCopiesAt(st: State, ls: seq<string>, run: int, fixed: bool, k: nat)
    requires k < |ls| && !OfRun(ls[k], run)
    ensures var r := Fold(st, ls, run, fixed); r.Ok? ==>
      var t := r.value.towrite; |st.towrite| + k < |t| && t[|st.towrite| + k] == ls[k]
    decreases |ls|, 1
  {
    if k < |ls| - 1 {
      FoldCopiesBefore(st, ls, run, fixed, k);
    } else {
      var init := ls[..|ls| - 1];
      FoldLength(st, init, run, fixed);
      FoldLast(st, ls, run, fixed);
      PlacedLast(Fold(st, init, run, fixed), Fold(st, ls, run, fixed), |st.towrite| + k, ls[k]);
    }
  }

  /** A step that appends the line to a text of i lines puts it at position i. */
  lemma PlacedLast(p: Result<State>, r: Result<State>, i: nat, line: string)
    requires p.Ok? ==> |p.value.towrite| == i
    requires r.Ok? ==> p.Ok? && |r.value.towrite| == |p.value.towrite| + 1 && r.value.towrite[|p.value.towrite|] == line
    ensures r.Ok? ==> i < |r.value.towrite| && r.value.towrite[i] == line
  {
  }

  /** FoldCopiesAt for a line before the last: it was copied before the last line was read. */
  lemma {:induction false} FoldCopiesBefore(st: State, ls: seq<string>, run: int, fixed: bool, k: nat)
    requires k < |ls| - 1 && !OfRun(ls[k], run)
    ensures var r := Fold(st, ls, run, fixed); r.Ok? ==>
      var t := r.value.towrite; |st.towrite| + k < |t| && t[|st.towrite| + k] == ls[k]
    decreases |ls|, 0
  {
    var init := ls[..|ls| - 1];
    assert init[k] == ls[k];
    FoldCopiesAt(st, init, run, fixed, k);
    FoldLast(st, ls, run, fixed);
    KeptAfter(Fold(st, init, run, fixed), Fold(st, ls, run, fixed), |st.towrite| + k, ls[k]);
  }

  /** A line at position i of the text before a step is still there after it, when the step extends the text. */
  lemma KeptAfter(p: Result<State>, r: Result<State>, i: nat, line: string)
    requires r.Ok? ==> p.Ok? && |r.value.towrite| == |p.value.towrite| + 1 && r.value.towrite[..|p.value.towrite|] == p.value.towrite
    requires p.Ok? ==> i < |p.value.towrite| && p.value.towrite[i] == line
    ensures r.Ok? ==> i < |r.value.towrite| && r.value.towrite[i] == line
  {
    if r.Ok? {
      KeptAt(p.value.towrite, r.value.towrite, i, line);
    }
  }

  /** With fixed, the loop leaves chrlist as it was. */
  lemma {:induction false} FoldFixed(st: State, ls: seq<string>, run: int)
    ensures var r := Fold(st, ls, run, true); r.Ok? ==> r.value.chrlist == st.chrlist
  {
    if ls != [] {
      FoldFixed(st, ls[..|ls| - 1], run);
      var r := Fold(st, ls[..|ls| - 1], run, true);
      if r.Ok? {
        var q := ContStep(r.value, ls[|ls| - 1], run, true);
        assert Fold(st, ls, run, true) == q;
        StepFixed(r.value, ls[|ls| - 1], run);
      }
    }
  }

  /** With fixed, one turn of the loop leaves chrlist as it was. */
  lemma StepFixed(st: State, line: string, run: int)
    ensures var r := ContStep(st, line, run, true); r.Ok? ==> r.value.chrlist == st.chrlist
  {
    if OfRun(line, run) {
      var f := Fields(line);
      var d := Decode(f[|f| - 1]);
      if d.Ok? {
        MergeFixed(Dedup(d.value + st.chrlist), d.value + st.chrlist, st.chrlist);
      }
    }
  }

  /** cont_run raises the missing-run WrongValueError exactly when no line starts with the run number and a tab. */
  lemma ContNoRow(chrlist: seq<int>, fixed: bool, lines: seq<string>, run: int)
    ensures Continue(chrlist, fixed, lines, run) == Err(WrongValue("-run"))
      <==> forall k :: 0 <= k < |lines| ==> !OfRun(lines[k], run)
  {
    FoldNotMissing(Start(chrlist), lines, run, fixed);
    FoldOccur(Start(chrlist), lines, run, fixed);
    OccursSpec(lines, run);
    if forall k :: 0 <= k < |lines| ==> !OfRun(lines[k], run) {
      FoldCopy(Start(chrlist), lines, run, fixed);
    }
  }

  /** The new ledger has as many lines as the old, and every line that is not a row of the run is copied verbatim to its place. */
  lemma ContCopies(chrlist: seq<int>, fixed: bool, lines: seq<string>, run: int)
    ensures var r := Continue(chrlist, fixed, lines, run); r.Ok? ==>
      && |r.value.towrite| == |lines|
      && forall k :: 0 <= k < |lines| && !OfRun(lines[k], run) ==> r.value.towrite[k] == lines[k]
  {
    FoldLength(Start(chrlist), lines, run, fixed);
    forall k | 0 <= k < |lines| && !OfRun(lines[k], run)
      ensures var r := Fold(Start(chrlist), lines, run, fixed); r.Ok? ==> r.value.towrite[k] == lines[k]
    {
      FoldCopiesAt(Start(chrlist), lines, run, fixed, k);
    }
  }

  /** With fixed, cont_run leaves chrlist as it was. */
  lemma ContFixed(chrlist: seq<int>, lines: seq<string>, run: int)
    ensures var r := Continue(chrlist, true, lines, run); r.Ok? ==> r.value.chrlist == chrlist
  {
    FoldFixed(Start(chrlist), lines, run);
  }

  /** The loop over lines with one row of the run: the lines before it copied, its turn, the lines after it copied. */
  lemma FoldSingle(st: State, a: seq<string>, x: string, b: seq<string>, run: int, fixed: bool)
    requires forall j :: 0 <= j < |a| ==> !OfRun(a[j], run)
    requires forall j :: 0 <= j < |b| ==> !OfRun(b[j], run)
    ensures var r := ContStep(st.(towrite := st.towrite + a), x, run, fixed);
      Fold(st, a + [x] + b, run, fixed) ==
        if r.Err? then r else Ok(State(r.value.occur, r.value.rec, r.value.towrite + b, r.value.chrlist))
  {
    FoldAppend(st, a + [x], b, run, fixed);
    FoldAppend(st, a, [x], run, fixed);
    FoldCopy(st, a, run, fixed);
    var s0 := st.(towrite := st.towrite + a);
    FoldOne(s0, x, run, fixed);
    var r := ContStep(s0, x, run, fixed);
    if r.Ok? {
      FoldCopy(r.value, b, run, fixed);
    }
  }

  /** With one row of the run, cont_run is that row's rewrite: the row replaced in place, its fields and chrlist returned. */
  lemma ContSingle(chrlist: seq<int>, fixed: bool, lines: seq<string>, run: int, k: nat)
    requires k < |lines| && OfRun(lines[k], run)
    requires forall j :: 0 <= j < |lines| && j != k ==> !OfRun(lines[j], run)
    ensures Continue(chrlist, fixed, lines, run) ==
      match RewriteRow(lines[k], chrlist, fixed)
      case Err(e) => Err(e)
      case Ok(w) => Ok(Continued(w.rec, lines[..k] + [w.row] + lines[k + 1..], w.chrlist))
  {
    var a := lines[..k];
    var b := lines[k + 1..];
    assert lines == a + [lines[k]] + b;
    assert forall j :: 0 <= j < |a| ==> !OfRun(a[j], run) by {
      forall j | 0 <= j < |a| ensures !OfRun(a[j], run) {
        assert a[j] == lines[j];
      }
    }
    assert forall j :: 0 <= j < |b| ==> !OfRun(b[j], run) by {
      forall j | 0 <= j < |b| ensures !OfRun(b[j], run) {
        assert b[j] == lines[k + 1 + j];
      }
    }
    FoldSingle(Start(chrlist), a, lines[k], b, run, fixed);
    assert [] + a == a;
  }

  // ---------------------------------------------------------------- the Counter loop: properties

  /** With fixed, the Counter loop leaves chrlist as it was. */
  lemma {:induction false} MergeFixed(keys: seq<int>, chrs: seq<int>, c: seq<int>)
    ensures Merge(keys, chrs, c, true) == Ok(c)
  {
    if keys != [] {
      MergeFixed(keys[..|keys| - 1], chrs, c);
    }
  }

  /** A chromosome is kept exactly when it is in c and not gone, and a list without repeats stays without them. */
  lemma {:induction false} DropSpec(c: seq<int>, gone: set<int>)
    ensures forall x :: x in Drop(c, gone) <==> x in c && x !in gone
    ensures NoDuplicates(c) ==> NoDuplicates(Drop(c, gone))
  {
    if c != [] {
      var t := c[1..];
      DropSpec(t, gone);
      assert forall x :: x in c <==> x == c[0] || x in t;
      if NoDuplicates(c) {
        assert NoDuplicates(t) by {
          forall i, j | 0 <= i < j < |t| ensures t[i] != t[j] {
            assert t[i] == c[i + 1] && t[j] == c[j + 1];
          }
        }
        assert c[0] !in t by {
          forall j | 0 <= j < |t| ensures t[j] != c[0] {
            assert t[j] == c[j + 1];
          }
        }
        if c[0] !in gone {
          NoDuplicatesCons(c[0], Drop(t, gone));
        }
      }
    }
  }

  /** A list without repeats keeps none when x, not in it, goes in front. */
  lemma NoDuplicatesCons(x: int, s: seq<int>)
    requires NoDuplicates(s) && x !in s
    ensures NoDuplicates([x] + s)
  {
    var r := [x] + s;
    forall i, j | 0 <= i < j < |r| ensures r[i] != r[j] {
      assert r[j] == s[j - 1];
      if i > 0 {
        assert r[i] == s[i - 1];
      }
    }
  }

  /** Whether gone holds a chromosome that is not in c does not matter. */
  lemma {:induction false} DropSame(c: seq<int>, a: set<int>, b: set<int>)
    requires forall k :: 0 <= k < |c| ==> (c[k] in a <==> c[k] in b)
    ensures Drop(c, a) == Drop(c, b)
  {
    if c != [] {
      var t := c[1..];
      assert forall k :: 0 <= k < |t| ==> t[k] == c[k + 1];
      DropSame(t, a, b);
      assert Drop(c, a) == (if c[0] in a then [] else [c[0]]) + Drop(t, a);
      assert Drop(c, b) == (if c[0] in b then [] else [c[0]]) + Drop(t, b);
    }
  }

  /** Nothing gone keeps everything. */
  lemma {:induction false} DropNone(c: seq<int>)
    ensures Drop(c, {}) == c
  {
    if c != [] {
      var t := c[1..];
      DropNone(t);
      assert c[0] !in {};
      assert Drop(c, {}) == [c[0]] + Drop(t, {});
      assert c == [c[0]] + t;
    }
  }

  /** list.remove(k) past a first element that is not k. */
  lemma RemoveFirstPast(h: int, s: seq<int>, k: int)
    requires h != k && k in s
    ensures RemoveFirst([h] + s, k) == [h] + RemoveFirst(s, k)
  {
    var r := [h] + s;
    assert r[1..] == s;
    var j := IndexOf(s, k);
    assert IndexOf(r, k) == 1 + j;
    assert r[..1 + j] == [h] + s[..j];
    assert r[2 + j..] == s[j + 1..];
  }

  /** Removing k, not yet gone, from c without the gone chromosomes is c without them and k. */
  lemma {:induction false} DropRemove(c: seq<int>, gone: set<int>, k: int)
    requires NoDuplicates(c) && k in c && k !in gone
    ensures k in Drop(c, gone)
    ensures RemoveFirst(Drop(c, gone), k) == Drop(c, gone + {k})
    decreases |c|, 1
  {
    DropSpec(c, gone);
    if c[0] == k {
      DropRemoveHead(c, gone, k);
    } else {
      DropRemovePast(c, gone, k);
    }
  }

  /** The tail of a list without repeats has none. */
  lemma TailNoDuplicates(c: seq<int>)
    requires c != [] && NoDuplicates(c)
    ensures NoDuplicates(c[1..]) && c[0] !in c[1..]
  {
    var t := c[1..];
    forall i, j | 0 <= i < j < |t| ensures t[i] != t[j] {
      assert t[i] == c[i + 1] && t[j] == c[j + 1];
    }
    forall j | 0 <= j < |t| ensures t[j] != c[0] {
      assert t[j] == c[j + 1];
    }
  }

  /** DropRemove when k is the first chromosome: it is kept in front and removed from there. */
  lemma DropRemoveHead(c: seq<int>, gone: set<int>, k: int)
    requires NoDuplicates(c) && c != [] && c[0] == k && k !in gone
    requires k in Drop(c, gone)
    ensures RemoveFirst(Drop(c, gone), k) == Drop(c, gone + {k})
  {
    var t := c[1..];
    TailNoDuplicates(c);
    DropSame(t, gone + {k}, gone);
    assert Drop(c, gone) == [k] + Drop(t, gone);
    assert ([k] + Drop(t, gone))[1..] == Drop(t, gone);
  }

  /** DropRemove when k comes later: the first chromosome is kept or dropped alike on both sides. */
  lemma {:induction false} DropRemovePast(c: seq<int>, gone: set<int>, k: int)
    requires NoDuplicates(c) && k in c && c[0] != k && k !in gone
    requires k in Drop(c, gone)
    ensures RemoveFirst(Drop(c, gone), k) == Drop(c, gone + {k})
    decreases |c|, 0
  {
    var t := c[1..];
    TailNoDuplicates(c);
    assert k in t;
    DropRemove(t, gone, k);
    if c[0] in gone {
      assert Drop(c, gone) == Drop(t, gone);
      assert Drop(c, gone + {k}) == Drop(t, gone + {k});
    } else {
      assert Drop(c, gone) == [c[0]] + Drop(t, gone);
      assert Drop(c, gone + {k}) == [c[0]] + Drop(t, gone + {k});
      RemoveFirstPast(c[0], Drop(t, gone), k);
    }
  }

  /** With every chromosome of c gone, nothing is kept. */
  lemma {:induction false} DropAll(c: seq<int>, gone: set<int>)
    requires forall k :: 0 <= k < |c| ==> c[k] in gone
    ensures Drop(c, gone) == []
  {
    if c != [] {
      var t := c[1..];
      assert forall k :: 0 <= k < |t| ==> t[k] == c[k + 1];
      DropAll(t, gone);
      assert Drop(c, gone) == [] + Drop(t, gone);
    }
  }

  /** Over two lists without repeats, a chromosome occurs twice in both together exactly when it is in each. */
  lemma CountBoth(d: seq<int>, c: seq<int>, k: int)
    requires NoDuplicates(d) && NoDuplicates(c)
    ensures Count(d + c, k) > 1 <==> k in d && k in c
  {
    assert multiset(d + c) == multiset(d) + multiset(c);
    NoDuplicatesMultiset(d, k);
    NoDuplicatesMultiset(c, k);
  }

  /** One more key for the Counter loop without fixed: taken out of c when recorded and still there. */
  lemma OmitStep(d: seq<int>, c: seq<int>, gone: set<int>, k: int)
    requires NoDuplicates(d) && NoDuplicates(c) && k !in gone
    ensures var next := if k in d && k in c then gone + {k} else gone;
      (match Omitted(c, gone) case Err(e) => Err(e) case Ok(c') => Omit(c', d + c, k, false)) == Omitted(c, next)
  {
    var next := if k in d && k in c then gone + {k} else gone;
    CountBoth(d, c, k);
    DropSpec(c, gone);
    DropSpec(c, next);
    if k in d && k in c {
      DropRemove(c, gone, k);
    }
    if gone != {} && Drop(c, gone) == [] {
      assert forall k :: 0 <= k < |c| ==> c[k] in next;
      DropAll(c, next);
    }
  }

  /**
   * Without fixed, the Counter loop over keys without repeats takes out of c
   * each key that is both recorded (in d) and in c, and raises the emptied-list
   * error once that has taken out everything.
   */
  lemma {:induction false} MergeNotFixed(keys: seq<int>, d: seq<int>, c: seq<int>)
    requires NoDuplicates(keys) && NoDuplicates(d) && NoDuplicates(c)
    ensures Merge(keys, d + c, c, false) == Omitted(c, Hit(keys, d, c))
  {
    if keys == [] {
      assert Hit(keys, d, c) == {};
      DropNone(c);
    } else {
      var init := keys[..|keys| - 1];
      var k := keys[|keys| - 1];
      assert NoDuplicates(init) by {
        forall i, j | 0 <= i < j < |init| ensures init[i] != init[j] {
          assert init[i] == keys[i] && init[j] == keys[j];
        }
      }
      assert k !in init by {
        forall j | 0 <= j < |init| ensures init[j] != k {
          assert init[j] == keys[j];
        }
      }
      MergeNotFixed(init, d, c);
      assert forall x :: x in keys <==> x in init || x == k;
      assert Hit(keys, d, c) == if k in d && k in c then Hit(init, d, c) + {k} else Hit(init, d, c);
      OmitStep(d, c, Hit(init, d, c), k);
    }
  }

  /**
   * Without fixed, over a recorded list and a chrlist without repeats, the
   * Counter loop takes out of chrlist every chromosome the row records, and
   * raises the emptied-chrlist error when that leaves nothing.
   */
  lemma MergeRecorded(d: seq<int>, c: seq<int>)
    requires NoDuplicates(d) && NoDuplicates(c)
    ensures Merge(Dedup(d + c), d + c, c, false) ==
      if (exists x :: x in d && x in c) && Drop(c, set x | x in d) == [] then Err(WrongValue("chrlist"))
      else Ok(Drop(c, set x | x in d))
  {
    var keys := Dedup(d + c);
    MergeNotFixed(keys, d, c);
    var h := Hit(keys, d, c);
    assert forall x :: x in h <==> x in d && x in c;
    DropSame(c, h, set x | x in d);
    if exists x :: x in d && x in c {
      var x :| x in d && x in c;
      assert x in h;
    }
  }

  // ---------------------------------------------------------------- the rewritten row: properties

  /** make_chrstr of a non-empty list of positive numbers is text without a tab that ends with a digit. */
  lemma EncodeShape(s: seq<int>)
    requires s != [] && forall k :: 0 <= k < |s| ==> s[k] > 0
    ensures var e := Encode(s); |e| > 0 && IsDigit(e[|e| - 1]) && '\t' !in e
  {
    EncodeRuns(s);
    var rs := Runs(s);
    RunsAbove(s, 1);
    var ts := SpanTexts(rs);
    forall i | 0 <= i < |ts| ensures '\t' !in ts[i] {
      assert ts[i] == RenderSpan(rs[i]);
      RenderIsWord(rs[i].lo);
      RenderIsWord(rs[i].hi);
    }
    JoinAvoids(ts, ", ", '\t');
    SpanTextEnds(rs[|rs| - 1]);
    assert ts[|ts| - 1] == RenderSpan(rs[|rs| - 1]);
    JoinLast(ts, ", ");
  }

  /** The tab-ended fields are the fields joined by tabs, and one more tab. */
  lemma {:induction false} TabbedJoin(fs: seq<string>)
    requires |fs| > 0
    ensures Tabbed(fs) == Join(fs, "\t") + "\t"
  {
    var init := fs[..|fs| - 1];
    var last := fs[|fs| - 1];
    assert fs == init + [last];
    assert Tabbed(fs) == Tabbed(init) + last + "\t";
    JoinSnoc(init, last, "\t");
    if |init| > 0 {
      TabbedJoin(init);
      var j := Join(init, "\t");
      assert Join(fs, "\t") == j + "\t" + last;
      assert Tabbed(fs) == j + "\t" + last + "\t";
    } else {
      assert Tabbed(init) == "";
      assert Join(fs, "\t") == last;
    }
  }

  /** Written back as tab-ended fields and a newline, fields without tabs are read again as the same fields. */
  lemma RowFields(fs: seq<string>)
    requires |fs| >= 1 && forall k :: 0 <= k < |fs| ==> '\t' !in fs[k]
    requires |fs[0]| > 0 && !IsSpace(fs[0][0])
    requires var t := fs[|fs| - 1]; |t| > 0 && !IsSpace(t[|t| - 1])
    ensures Fields(Tabbed(fs) + "\n") == fs
  {
    TabbedJoin(fs);
    var j := Join(fs, "\t");
    JoinFirst(fs, "\t");
    JoinLast(fs, "\t");
    assert "" + j + "\t\n" == Tabbed(fs) + "\n";
    StripPadded("", j, "\t\n", IsSpace);
    assert "\t" == ['\t'];
    SplitJoin(fs, '\t');
  }

  /** The fields of a line with more than one: none holds a tab, and the first starts with other than whitespace. */
  lemma FieldsShape(line: string)
    requires |Fields(line)| >= 2
    ensures var f := Fields(line); |f[0]| > 0 && !IsSpace(f[0][0])
    ensures var f := Fields(line); forall k :: 0 <= k < |f| ==> '\t' !in f[k]
  {
    var s := Strip(line);
    assert s != "";
    StripEnds(line);
    SplitHead(s, '\t');
    SplitSpec(s, '\t');
  }

  /** The union written back for non-empty positive chromosome lists: tab-free text ending in a digit that read_chrstr reads back. */
  lemma MergedShape(all: seq<int>)
    requires all != [] && forall k :: 0 <= k < |all| ==> all[k] > 0
    ensures var e := Encode(SortedDistinct(all));
      |e| > 0 && !IsSpace(e[|e| - 1]) && '\t' !in e && Decode(e) == Ok(SortedDistinct(all))
  {
    var chrs := SortedDistinct(all);
    assert all[0] in chrs;
    forall k | 0 <= k < |chrs| ensures chrs[k] > 0 {
      assert chrs[k] in all;
    }
    EncodeShape(chrs);
    RoundTrip(chrs);
  }

  /** A row's fields with the last one replaced by e, tab-free text with a non-space end, are read again as exactly those fields. */
  lemma RowReadBack(line: string, e: string)
    requires |Fields(line)| >= 2
    requires |e| > 0 && !IsSpace(e[|e| - 1]) && '\t' !in e
    ensures var f := Fields(line); Fields(Tabbed(f[..|f| - 1] + [e]) + "\n") == f[..|f| - 1] + [e]
  {
    var f := Fields(line);
    var fs := f[..|f| - 1] + [e];
    FieldsShape(line);
    assert fs[0] == f[0];
    assert forall k :: 0 <= k < |fs| - 1 ==> fs[k] == f[k];
    RowFields(fs);
  }

  /**
   * The rewritten row is read by a later cont_run as the same fields, except
   * that its last one now decodes to the sorted distinct union of the recorded
   * chromosomes d and the incoming ones c.
   */
  lemma RewriteFields(line: string, c: seq<int>, fixed: bool, d: seq<int>)
    requires RewriteRow(line, c, fixed).Ok?
    requires var f := Fields(line); Decode(f[|f| - 1]) == Ok(d)
    requires d + c != [] && forall k :: 0 <= k < |d + c| ==> (d + c)[k] > 0
    ensures var f := Fields(line); var g := Fields(RewriteRow(line, c, fixed).value.row);
      |g| == |f| && g[..|g| - 1] == f[..|f| - 1] && Decode(g[|g| - 1]) == Ok(SortedDistinct(d + c))
  {
    var f := Fields(line);
    var e := Encode(SortedDistinct(d + c));
    assert RewriteRow(line, c, fixed).value.row == Tabbed(f[..|f| - 1] + [e]) + "\n";
    MergedShape(d + c);
    RowReadBack(line, e);
  }

  /**
   * Without fixed, a row whose recorded chromosomes d and the incoming chrlist
   * c have no repeats: every recorded chromosome is taken out of chrlist, and
   * the emptied-chrlist error is raised when that leaves nothing.
   */
  lemma RewriteRecorded(line: string, c: seq<int>, d: seq<int>)
    requires ReadRecord(Fields(line)).Ok?
    requires var f := Fields(line); Decode(f[|f| - 1]) == Ok(d)
    requires NoDuplicates(d) && NoDuplicates(c)
    ensures var w := RewriteRow(line, c, false);
      if (exists x :: x in d && x in c) && Drop(c, set x | x in d) == [] then w == Err(WrongValue("chrlist"))
      else w.Ok? && w.value.chrlist == Drop(c, set x | x in d)
  {
    MergeRecorded(d, c);
  }

  /**
   * With one row of the run, not fixed, and no repeats: cont_run takes the
   * chromosomes the row records out of chrlist, or raises the emptied-chrlist
   * error when that leaves nothing.
   */
  lemma ContAnalysed(chrlist: seq<int>, lines: seq<string>, run: int, k: nat, d: seq<int>)
    requires k < |lines| && OfRun(lines[k], run)
    requires forall j :: 0 <= j < |lines| && j != k ==> !OfRun(lines[j], run)
    requires ReadRecord(Fields(lines[k])).Ok?
    requires var f := Fields(lines[k]); Decode(f[|f| - 1]) == Ok(d)
    requires NoDuplicates(d) && NoDuplicates(chrlist)
    ensures var r := Continue(chrlist, false, lines, run);
      if (exists x :: x in d && x in chrlist) && Drop(chrlist, set x | x in d) == [] then r == Err(WrongValue("chrlist"))
      else r.Ok? && r.value.chrlist == Drop(chrlist, set x | x in d)
  {
    ContSingle(chrlist, false, lines, run, k);
    RewriteRecorded(lines[k], chrlist, d);
  }

  /**
   * With one row of the run that cont_run rewrites: the row stays in its place
   * and is read again as the same fields, its last now the union of the
   * recorded chromosomes d and the incoming chrlist.
   */
  lemma ContRewritesRow(chrlist: seq<int>, fixed: bool, lines: seq<string>, run: int, k: nat, d: seq<int>)
    requires k < |lines| && OfRun(lines[k], run)
    requires forall j :: 0 <= j < |lines| && j != k ==> !OfRun(lines[j], run)
    requires Continue(chrlist, fixed, lines, run).Ok?
    requires var f := Fields(lines[k]); Decode(f[|f| - 1]) == Ok(d)
    requires d + chrlist != [] && forall j :: 0 <= j < |d + chrlist| ==> (d + chrlist)[j] > 0
    ensures var t := Continue(chrlist, fixed, lines, run).value.towrite;
      |t| == |lines| &&
      var f := Fields(lines[k]); var g := Fields(t[k]);
      |g| == |f| && g[..|g| - 1] == f[..|f| - 1] && Decode(g[|g| - 1]) == Ok(SortedDistinct(d + chrlist))
  {
    ContSingle(chrlist, fixed, lines, run, k);
    var w := RewriteRow(lines[k], chrlist, fixed).value;
    RewriteFields(lines[k], chrlist, fixed, d);
    var t := lines[..k] + [w.row] + lines[k + 1..];
    assert t[k] == w.row;
  }

  // ---------------------------------------------------------------- perc and testpat: round trips

  /** One more piece that parses as v adds v to what the pieces before it read as. */
  lemma ParseIntsSnoc(parts: seq<string>, n: nat, l: seq<int>, v: int)
    requires 0 < n <= |parts|
    requires ParseInts(parts[..n - 1]) == Ok(l)
    requires ParseInt(parts[n - 1]) == Ok(v)
    ensures ParseInts(parts[..n]) == Ok(l + [v])
  {
    assert parts[..n][..n - 1] == parts[..n - 1];
  }

  /** When each piece parses as the matching number, the first n pieces are read as the first n numbers. */
  lemma {:induction false} ParseIntsUpTo(parts: seq<string>, ns: seq<int>, n: nat)
    requires n <= |parts| == |ns|
    requires forall k :: 0 <= k < |parts| ==> ParseInt(parts[k]) == Ok(ns[k])
    ensures ParseInts(parts[..n]) == Ok(ns[..n])
  {
    if n > 0 {
      ParseIntsUpTo(parts, ns, n - 1);
      ParseIntsSnoc(parts, n, ns[..n - 1], ns[n - 1]);
      assert ns[..n - 1] + [ns[n - 1]] == ns[..n];
    }
  }

  /** int() reads back every str(n). */
  lemma ParseIntsRenders(ns: seq<int>)
    ensures ParseInts(Renders(ns)) == Ok(ns)
  {
    var ts := Renders(ns);
    forall k | 0 <= k < |ts| ensures ParseInt(ts[k]) == Ok(ns[k]) {
      ParseRenderBare(ns[k]);
    }
    ParseIntsUpTo(ts, ns, |ts|);
    assert ts[..|ts|] == ts && ns[..|ts|] == ns;
  }

  /** A rendered number starts with a digit or '-' and ends with a digit. */
  lemma RenderEnds(n: int)
    ensures var r := Render(n); |r| > 0 && (IsDigit(r[0]) || r[0] == '-') && IsDigit(r[|r| - 1])
  {
    RenderSpec(n);
  }

  /** The first rendered level starts with a digit or '-', the last one ends with a digit. */
  lemma RendersEnds(perc: seq<int>)
    requires perc != []
    ensures var ts := Renders(perc); var a := ts[0]; var b := ts[|ts| - 1];
      |a| > 0 && |b| > 0 && (IsDigit(a[0]) || a[0] == '-') && IsDigit(b[|b| - 1])
  {
    RenderEnds(perc[0]);
    RenderEnds(perc[|perc| - 1]);
  }

  /** The perc text of a non-empty list starts with a digit or '-', ends with a digit, and so strips to itself. */
  lemma PercTextBare(perc: seq<int>)
    requires perc != []
    ensures var t := PercText(perc); |t| > 0 && t[0] != '[' && Strip(t) == t
  {
    var ts := Renders(perc);
    RendersEnds(perc);
    JoinEnds(ts, ",");
    var t := Join(ts, ",");
    DigitNotSpace(t[0]);
    DigitNotSpace(t[|t| - 1]);
    StripKeeps(t);
  }

  /** The perc field written for a new row is read back by cont_run as the same levels, a single level included. */
  lemma PercRoundTrip(perc: seq<int>)
    requires perc != []
    ensures ParsePerc(PercText(perc)) == Ok(perc)
  {
    var ts := Renders(perc);
    forall k | 0 <= k < |ts| ensures ',' !in ts[k] {
      RenderIsWord(perc[k]);
    }
    PercTextBare(perc);
    assert "," == [','];
    SplitJoin(ts, ',');
    ParseIntsRenders(perc);
  }

  /** One line of the held-out patients' file reads back as its number. */
  lemma TestPatLine(x: int)
    ensures ParseInt(Render(x) + "\n") == Ok(x)
  {
    ParseRender(x, "", "\n");
    assert "" + Render(x) + "\n" == Render(x) + "\n";
  }

  /** One more line that parses as v adds v to what the lines before it read as. */
  lemma ReadTestPatSnoc(lines: seq<string>, n: nat, l: seq<int>, v: int)
    requires 0 < n <= |lines|
    requires ReadTestPat(lines[..n - 1]) == Ok(l)
    requires ParseInt(lines[n - 1]) == Ok(v)
    ensures ReadTestPat(lines[..n]) == Ok(l + [v])
  {
    assert lines[..n][..n - 1] == lines[..n - 1];
  }

  /** When each line parses as the matching number, the lines are read as those numbers. */
  lemma {:induction false} ReadTestPatAll(lines: seq<string>, ns: seq<int>)
    requires |lines| == |ns|
    requires forall k :: 0 <= k < |lines| ==> ParseInt(lines[k]) == Ok(ns[k])
    ensures ReadTestPat(lines) == Ok(ns)
  {
    if lines != [] {
      var n := |lines| - 1;
      var front, init := lines[..n], ns[..n];
      assert forall k :: 0 <= k < n ==> front[k] == lines[k] && init[k] == ns[k];
      ReadTestPatAll(front, init);
      assert ParseInt(lines[n]) == Ok(ns[n]);
      assert init + [ns[n]] == ns;
    }
  }

  /** The test-size field decides whether the run kept a test set; a malformed one is float()'s ValueError, raised before perc is read. */
  lemma ReadRecordTestSize(f: seq<string>)
    requires |f| >= 5
    ensures FloatIsZero(f[4]).Err? ==> ReadRecord(f) == Err(ValueError)
    ensures ReadRecord(f).Ok? ==> FloatIsZero(f[4]).Ok? && ReadRecord(f).value.heldOut == !FloatIsZero(f[4]).value
  {
  }

  /**
   * A row whose test size is the '%.1f' text of t tenths: for t == 0 cont_run sets
   * testpat to None without opening testpat_<run>.txt; otherwise it reads back
   * exactly the patients first_run wrote, and a missing file is FileNotFoundError.
   */
  lemma HeldOutRoundTrip(f: seq<string>, t: int, testpat: seq<int>, file: Option<seq<string>>)
    requires |f| >= 5 && f[4] == Tenths(t) && ReadRecord(f).Ok?
    ensures ReadRecord(f).value.heldOut <==> t != 0
    ensures t == 0 ==> HeldOut(ReadRecord(f).value, file) == Ok(None)
    ensures t != 0 ==> HeldOut(ReadRecord(f).value, Some(TestPatLines(testpat))) == Ok(Some(testpat))
    ensures t != 0 ==> HeldOut(ReadRecord(f).value, None) == Err(FileNotFound)
  {
    FloatTenths(t);
    TestPatRoundTrip(testpat);
  }

  /**
   * A test size n / 10**d with 0 < n / 10**d < 0.05: first_run takes its
   * `testsize != 0` branch and writes testpat_<run>.txt, but the ledger row
   * written with '%.1f' holds "0.0", so a continuation of the run reads no
   * test set and sets testpat to None without opening that file.
   */
  lemma HeldOutLost(f: seq<string>, n: nat, d: nat, file: Option<seq<string>>)
    requires 0 < n && d >= 2 && Shift(n, d - 2) < 5
    requires |f| >= 5 && f[4] == Tenths(RoundTenths(n, d)) && ReadRecord(f).Ok?
    ensures f[4] == "0.0" && !ReadRecord(f).value.heldOut
    ensures HeldOut(ReadRecord(f).value, file) == Ok(None)
  {
    SmallRoundsToZero(n, d);
  }

  /**
   * With the test size written with all its decimals, a continuation keeps a
   * test set exactly when first_run held one out, and reads back its patients.
   */
  lemma HeldOutKept(f: seq<string>, n: nat, d: nat, testpat: seq<int>)
    requires |f| >= 5 && f[4] == Fixed(n, d) && ReadRecord(f).Ok?
    ensures ReadRecord(f).value.heldOut <==> n != 0
    ensures n == 0 ==> HeldOut(ReadRecord(f).value, Some(TestPatLines(testpat))) == Ok(None)
    ensures n != 0 ==> HeldOut(ReadRecord(f).value, Some(TestPatLines(testpat))) == Ok(Some(testpat))
    ensures n != 0 ==> HeldOut(ReadRecord(f).value, None) == Err(FileNotFound)
  {
    FloatFixed(n, d);
    TestPatRoundTrip(testpat);
  }

  /** cont_run reads back the held-out patients first_run wrote. */
  lemma TestPatRoundTrip(testpat: seq<int>)
    ensures ReadTestPat(TestPatLines(testpat)) == Ok(testpat)
  {
    var ls := TestPatLines(testpat);
    forall k | 0 <= k < |ls| ensures ParseInt(ls[k]) == Ok(testpat[k]) {
      TestPatLine(testpat[k]);
    }
    ReadTestPatAll(ls, testpat);
  }

}

