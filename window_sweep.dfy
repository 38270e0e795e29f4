/**
 * best_snps: the columns of a chromosome's genotype matrix are cut into
 * windows of r columns, and a feature selector (run_boruta) is run on each
 * window once per perc level, in the order of perc, until a
 * level chooses nothing. The window-local indices it returns are shifted back
 * by the window's first column and collected per level.
 */
module WindowSweep {
  import opened Outcomes
  import opened Seqs

  /** A genotype matrix: one row per patient, `width` SNP columns. */
  datatype Matrix = Matrix(width: nat, rows: seq<seq<int>>)

  /** row[lo:hi], which Python clips to the row. */
  function Slice(row: seq<int>, lo: nat, hi: nat): seq<int> {
    var a := if lo < |row| then lo else |row|;
    var b := if hi < |row| then hi else |row|;
    if a <= b then row[a..b] else []
  }

  /** X[:, lo:hi] for columns within the matrix. */
  function Window(X: Matrix, lo: nat, hi: nat): Matrix
    requires lo <= hi <= X.width
  {
    Matrix(hi - lo, seq(|X.rows|, i requires 0 <= i < |X.rows| => Slice(X.rows[i], lo, hi)))
  }

  /** run_boruta(X, y, perc): a choice of columns of X. */
  type Selector = (Matrix, seq<int>, int) -> seq<int>

  /** Column indices as run_boruta returns them: ascending, each a column of a matrix of this width. */
  predicate Chosen(c: seq<int>, width: int) {
    StrictlyAscending(c) && forall k :: 0 <= k < |c| ==> 0 <= c[k] < width
  }

  /** run_boruta enumerates `support_` in order and keeps the indices of the chosen columns. */
  ghost predicate IsSelector(sel: Selector) {
    forall m: Matrix, y: seq<int>, p: int :: Chosen(sel(m, y, p), m.width)
  }

  /** [el + off for el in c] */
  function Shift(c: seq<int>, off: int): seq<int> {
    seq(|c|, k requires 0 <= k < |c| => c[k] + off)
  }

  /** Every level of ps has a list. */
  predicate HasKeys(snps: map<int, seq<int>>, ps: seq<int>) {
    forall k :: 0 <= k < |ps| ==> ps[k] in snps
  }

  /** `{a: [] for a in perc}` */
  function Init(perc: seq<int>): (snps: map<int, seq<int>>)
    ensures HasKeys(snps, perc)
    ensures forall p :: p in snps <==> p in perc
  {
    map p | p in perc :: []
  }

  // ---------------------------------------------------------------- the level loop

  /**
   * The level loop on window xx with offset off, from the levels ps on: each
   * result is shifted and appended to its level's list, and the first empty
   * result ends the loop.
   */
  function Levels(sel: Selector, xx: Matrix, y: seq<int>, ps: seq<int>, off: int, snps: map<int, seq<int>>): map<int, seq<int>>
    requires HasKeys(snps, ps)
  {
    if ps == [] then snps
    else
      var res := sel(xx, y, ps[0]);
      if res == [] then snps
      else Levels(sel, xx, y, ps[1..], off, snps[ps[0] := snps[ps[0]] + Shift(res, off)])
  }

  /** How many levels the loop runs the selector on: up to and including the first empty result. */
  function Tried(sel: Selector, xx: Matrix, y: seq<int>, ps: seq<int>): (t: nat)
    ensures t <= |ps|
  {
    if ps == [] then 0
    else if sel(xx, y, ps[0]) == [] then 1
    else 1 + Tried(sel, xx, y, ps[1..])
  }

  // ---------------------------------------------------------------- Python's integer division

  /** `a // b`: Python rounds the quotient toward minus infinity, which Dafny's `/` does only for b > 0. */
  function FloorDiv(a: int, b: int): int
    requires b != 0
  {
    if b > 0 then a / b else (-a) / (-b)
  }

  /** `a % b`: Python's remainder takes the sign of b. */
  function FloorMod(a: int, b: int): int
    requires b != 0
  {
    if b > 0 then a % b else -((-a) % (-b))
  }

  /** Quotient and remainder recompose a, and the remainder lies between 0 and b. */
  lemma FloorDivMod(a: int, b: int)
    requires b != 0
    ensures a == b * FloorDiv(a, b) + FloorMod(a, b)
    ensures b > 0 ==> 0 <= FloorMod(a, b) < b
    ensures b < 0 ==> b < FloorMod(a, b) <= 0
  {
    if b < 0 {
      assert -a == (-b) * ((-a) / (-b)) + (-a) % (-b);
    }
  }

  /** For a negative window size, `snp // r` is negative unless snp is 0, where `snp // r` and `snp % r` are 0. */
  lemma FloorNegative(snp: nat, r: int)
    requires r < 0
    ensures FloorDiv(snp, r) < 0 <==> snp > 0
    ensures snp == 0 ==> FloorDiv(snp, r) == 0 && FloorMod(snp, r) == 0
  {
    var a := 0 - snp as int;
    var q := a / (-r);
    assert a == (-r) * q + a % (-r);
    MulNonNegative(q, -r);
  }

  /** A product of a non-negative and a positive number is non-negative. */
  lemma MulNonNegative(q: int, d: int)
    requires d > 0
    ensures q >= 0 ==> d * q >= 0
  {
  }

  /**
   * The loop cuts a window only for a positive r: with r < 0 it reaches at most
   * n == 0 == snp // r, with no columns and no remainder.
   */
  lemma CutNeedsPositive(n: nat, r: int, snp: nat)
    requires r != 0 && n <= FloorDiv(snp, r) && (n != FloorDiv(snp, r) || FloorMod(snp, r) != 0)
    ensures r > 0
  {
    if r < 0 {
      FloorNegative(snp, r);
    }
  }

  // ---------------------------------------------------------------- the window loop, as written

  /** Columns n*r .. n*r + r of a window that is not the last lie within the matrix. */
  lemma FullWindowFits(n: nat, r: nat, snp: nat)
    requires r > 0 && n < snp / r
    ensures n * r + r <= snp
  {
    MulLe(n + 1, snp / r, r);
    assert (snp / r) * r <= snp;
  }

  lemma MulLe(a: nat, b: nat, c: nat)
    requires a <= b
    ensures a * c <= b * c
  {
  }

  /** The last window starts within the matrix. */
  lemma LastWindowFits(r: nat, snp: nat)
    requires r > 0
    ensures (snp / r) * r <= snp
  {
  }

  /**
   * xx at iteration n of `for n in range(s + 1)`: a full window, the tail
   * window when snp % r != 0, and otherwise whatever xx held before.
   */
  function Pick(X: Matrix, r: int, snp: nat, n: nat, prev: Option<Matrix>): Option<Matrix>
    requires r != 0 && X.width == snp && n <= FloorDiv(snp, r)
  {
    if n != FloorDiv(snp, r) then
      CutNeedsPositive(n, r, snp);
      FullWindowFits(n, r, snp);
      Some(Window(X, n * r, n * r + r))
    else if FloorMod(snp, r) != 0 then
      CutNeedsPositive(n, r, snp);
      LastWindowFits(r, snp);
      Some(Window(X, n * r, snp))
    else prev
  }

  /**
   * The window loop `for n in range(snp // r + 1)` from iteration n on, with xx holding prev:
   * the lists, or the error of the level loop reading an unbound xx (it reads xx only when perc has a level).
   */
  function BestFrom(sel: Selector, X: Matrix, y: seq<int>, perc: seq<int>, r: int, snp: nat,
                    n: nat, prev: Option<Matrix>, snps: map<int, seq<int>>): Result<map<int, seq<int>>>
    requires r != 0 && X.width == snp && (n == 0 || n <= FloorDiv(snp, r) + 1) && HasKeys(snps, perc)
    decreases FloorDiv(snp, r) + 1 - n
  {
    if n >= FloorDiv(snp, r) + 1 then Ok(snps)
    else
      match Pick(X, r, snp, n, prev)
      case None =>
        if perc != [] then Err(UnboundLocal) else BestFrom(sel, X, y, perc, r, snp, n + 1, None, snps)
      case Some(xx) =>
        LevelsKeys(sel, xx, y, perc, perc, n * r, snps);
        BestFrom(sel, X, y, perc, r, snp, n + 1, Some(xx), Levels(sel, xx, y, perc, n * r, snps))
  }

  /** What `best_snps(ch, perc, r, snp, X, y)` returns, as written: `snp // r` raises ZeroDivisionError for r == 0. */
  function Best(sel: Selector, X: Matrix, y: seq<int>, perc: seq<int>, r: int, snp: nat): Result<map<int, seq<int>>>
    requires X.width == snp
  {
    if r == 0 then Err(ZeroDivision) else BestFrom(sel, X, y, perc, r, snp, 0, None, Init(perc))
  }

  /** The level loop keeps every list it had. */
  lemma {:induction false} LevelsKeys(sel: Selector, xx: Matrix, y: seq<int>, ps: seq<int>, qs: seq<int>,
                                      off: int, snps: map<int, seq<int>>)
    requires HasKeys(snps, ps) && HasKeys(snps, qs)
    ensures HasKeys(Levels(sel, xx, y, ps, off, snps), qs)
    ensures Levels(sel, xx, y, ps, off, snps).Keys == snps.Keys
  {
    if ps != [] && sel(xx, y, ps[0]) != [] {
      var next := snps[ps[0] := snps[ps[0]] + Shift(sel(xx, y, ps[0]), off)];
      LevelsKeys(sel, xx, y, ps[1..], qs, off, next);
    }
  }

  /** One turn of the window loop: the window picked at iteration n, then its level loop. */
  lemma BestStep(sel: Selector, X: Matrix, y: seq<int>, perc: seq<int>, r: int, snp: nat,
                 n: nat, prev: Option<Matrix>, snps: map<int, seq<int>>)
    requires r != 0 && X.width == snp && n <= FloorDiv(snp, r) && HasKeys(snps, perc)
    requires Pick(X, r, snp, n, prev).Some?
    ensures var xx := Pick(X, r, snp, n, prev).value;
      && HasKeys(Levels(sel, xx, y, perc, n * r, snps), perc)
      && BestFrom(sel, X, y, perc, r, snp, n, prev, snps)
         == BestFrom(sel, X, y, perc, r, snp, n + 1, Some(xx), Levels(sel, xx, y, perc, n * r, snps))
  {
    LevelsKeys(sel, Pick(X, r, snp, n, prev).value, y, perc, perc, n * r, snps);
  }

  /** best_snps' inner loop, `for p in perc`, on window xx. */
  method RunLevels(sel: Selector, xx: Matrix, y: seq<int>, perc: seq<int>, off: int, start: map<int, seq<int>>)
    returns (snps: map<int, seq<int>>)
    requires HasKeys(start, perc)
    ensures snps == Levels(sel, xx, y, perc, off, start)
  {
    snps := start;
    var j := 0;
    while j < |perc|
      invariant 0 <= j <= |perc| && HasKeys(snps, perc)
      invariant Levels(sel, xx, y, perc[j..], off, snps) == Levels(sel, xx, y, perc, off, start)
    {
      var result := sel(xx, y, perc[j]);
      if result == [] {
        break;
      }
      LevelsTail(sel, xx, y, perc, j, off, snps);
      snps := snps[perc[j] := snps[perc[j]] + Shift(result, off)];
      j := j + 1;
    }
  }

  /** The choice of xx at the head of the window loop; xx keeps its value when neither branch is taken. */
  method PickWindow(X: Matrix, r: int, snp: nat, n: nat, prev: Option<Matrix>) returns (xx: Option<Matrix>)
    requires r != 0 && X.width == snp && n <= FloorDiv(snp, r)
    ensures xx == Pick(X, r, snp, n, prev)
  {
    xx := prev;
    var s := FloorDiv(snp, r);
    if n != s {
      CutNeedsPositive(n, r, snp);
      FullWindowFits(n, r, snp);
      xx := Some(Window(X, n * r, n * r + r));
    } else if FloorMod(snp, r) != 0 {
      CutNeedsPositive(n, r, snp);
      LastWindowFits(r, snp);
      xx := Some(Window(X, n * r, snp));
    }
  }

  /** `best_snps(ch, perc, r, snp, X, y)`, with run_boruta as `sel`. */
  method BestSnps(sel: Selector, perc: seq<int>, r: int, snp: nat, X: Matrix, y: seq<int>)
    returns (res: Result<map<int, seq<int>>>)
    requires X.width == snp
    ensures res == Best(sel, X, y, perc, r, snp)
  {
    if r == 0 {
      return Err(ZeroDivision);
    }
    var s := FloorDiv(snp, r);
    var snps := map a | a in perc :: [];
    var xx: Option<Matrix> := None;
    var n := 0;
    while n < s + 1
      invariant (n == 0 || n <= s + 1) && HasKeys(snps, perc)
      invariant BestFrom(sel, X, y, perc, r, snp, n, xx, snps) == Best(sel, X, y, perc, r, snp)
      decreases s + 1 - n
    {
      ghost var prev := xx;
      xx := PickWindow(X, r, snp, n, xx);
      if xx.None? {
        if perc != [] {
          return Err(UnboundLocal);
        }
      } else {
        BestStep(sel, X, y, perc, r, snp, n, prev, snps);
        snps := RunLevels(sel, xx.value, y, perc, n * r, snps);
      }
      n := n + 1;
    }
    res := Ok(snps);
  }

  /** One turn of the level loop: a non-empty result at level j is appended and the loop goes on from j + 1. */
  lemma LevelsTail(sel: Selector, xx: Matrix, y: seq<int>, ps: seq<int>, j: nat, off: int, snps: map<int, seq<int>>)
    requires j < |ps| && HasKeys(snps, ps) && sel(xx, y, ps[j]) != []
    ensures Levels(sel, xx, y, ps[j..], off, snps)
         == Levels(sel, xx, y, ps[j + 1..], off, snps[ps[j] := snps[ps[j]] + Shift(sel(xx, y, ps[j]), off)])
  {
    assert ps[j..][1..] == ps[j + 1..];
  }

  // ---------------------------------------------------------------- what the level loop computes

  /** The level loop runs the selector on the first Tried levels: every one but the last chose something, and the last is either the end of the list or a level that chose nothing. */
  lemma {:induction false} TriedSpec(sel: Selector, xx: Matrix, y: seq<int>, ps: seq<int>)
    ensures var t := Tried(sel, xx, y, ps);
      && t <= |ps| && (t == 0 <==> ps == [])
      && (forall j :: 0 <= j < t - 1 ==> sel(xx, y, ps[j]) != [])
      && (t < |ps| ==> sel(xx, y, ps[t - 1]) == [])
  {
    if ps != [] && sel(xx, y, ps[0]) != [] {
      TriedSpec(sel, xx, y, ps[1..]);
      var t := Tried(sel, xx, y, ps);
      forall j | 0 <= j < t - 1 ensures sel(xx, y, ps[j]) != [] {
        if j > 0 {
          assert ps[j] == ps[1..][j - 1];
        }
      }
    }
  }

  /** Levels after the first empty result are never looked at. */
  lemma {:induction false} LevelsTried(sel: Selector, xx: Matrix, y: seq<int>, ps: seq<int>, off: int, snps: map<int, seq<int>>)
    requires HasKeys(snps, ps)
    ensures var t := Tried(sel, xx, y, ps); t <= |ps| && HasKeys(snps, ps[..t])
    ensures Levels(sel, xx, y, ps, off, snps) == Levels(sel, xx, y, ps[..Tried(sel, xx, y, ps)], off, snps)
  {
    TriedSpec(sel, xx, y, ps);
    var t := Tried(sel, xx, y, ps);
    assert HasKeys(snps, ps[..t]) by {
      forall k | 0 <= k < t ensures ps[..t][k] in snps {
        assert ps[..t][k] == ps[k];
      }
    }
    if ps != [] {
      var res := sel(xx, y, ps[0]);
      if res == [] {
        assert ps[..t] == [ps[0]];
      } else {
        var next := snps[ps[0] := snps[ps[0]] + Shift(res, off)];
        LevelsTried(sel, xx, y, ps[1..], off, next);
        assert ps[..t][1..] == ps[1..][..t - 1];
      }
    }
  }

  /** What level p's list gains on one window: its shifted result if the loop reached p, and nothing otherwise. */
  function Contribution(sel: Selector, xx: Matrix, y: seq<int>, ps: seq<int>, p: int, off: int): seq<int> {
    if p in ps[..Tried(sel, xx, y, ps)] then Shift(sel(xx, y, p), off) else []
  }

  /** With distinct levels, the level loop appends to each list exactly that level's contribution. */
  lemma {:induction false} LevelsContribution(sel: Selector, xx: Matrix, y: seq<int>, ps: seq<int>, off: int,
                                              snps: map<int, seq<int>>, p: int)
    requires NoDuplicates(ps) && HasKeys(snps, ps) && p in snps
    ensures var l := Levels(sel, xx, y, ps, off, snps);
      p in l && l[p] == snps[p] + Contribution(sel, xx, y, ps, p, off)
  {
    LevelsKeys(sel, xx, y, ps, ps, off, snps);
    if ps == [] {
      assert ps[..0] == [];
    } else {
      var res := sel(xx, y, ps[0]);
      var t := Tried(sel, xx, y, ps);
      if res == [] {
        assert ps[..t] == [ps[0]];
      } else {
        var next := snps[ps[0] := snps[ps[0]] + Shift(res, off)];
        assert NoDuplicates(ps[1..]);
        LevelsContribution(sel, xx, y, ps[1..], off, next, p);
        assert ps[..t] == [ps[0]] + ps[1..][..t - 1];
        if p == ps[0] {
          assert p !in ps[1..];
          assert p !in ps[1..][..t - 1];
        }
      }
    }
  }

  // ---------------------------------------------------------------- the windows as intended

  /** The number of windows [n*r, min(n*r + r, snp)) that cover snp columns: ceil(snp / r). */
  function NumWindows(snp: nat, r: nat): nat
    requires r > 0
  {
    (snp + r - 1) / r
  }

  /** The end of window n: r columns on, or snp for a shorter last window. */
  function WindowEnd(n: nat, r: nat, snp: nat): nat {
    if n * r + r <= snp then n * r + r else snp
  }

  lemma DivUnique(a: int, r: int, q: int, m: int)
    requires r > 0 && 0 <= m < r && a == q * r + m
    ensures a / r == q
  {
    var d := a / r - q;
    assert d * r == (a / r) * r - q * r;
    assert d * r == m - a % r;
    if d >= 1 {
      MulLe(1, d, r);
    } else if d <= -1 {
      MulLe(1, -d, r);
    }
  }

  /** Without a remainder, the intended windows are exactly the s full ones. */
  lemma NumWindowsExact(snp: nat, r: nat)
    requires r > 0 && snp % r == 0
    ensures NumWindows(snp, r) == snp / r
  {
    DivUnique(snp + r - 1, r, snp / r, r - 1);
  }

  /** With a remainder, there is one shorter window after the s full ones. */
  lemma NumWindowsInexact(snp: nat, r: nat)
    requires r > 0 && snp % r != 0
    ensures NumWindows(snp, r) == snp / r + 1
  {
    DivUnique(snp + r - 1, r, snp / r + 1, snp % r - 1);
  }

  /** Every intended window starts inside the matrix and ends at or before its last column. */
  lemma WindowInside(n: nat, r: nat, snp: nat)
    requires r > 0 && n < NumWindows(snp, r)
    ensures n * r < snp && n * r <= WindowEnd(n, r, snp) <= snp
  {
    MulLe(n + 1, NumWindows(snp, r), r);
    assert NumWindows(snp, r) * r <= snp + r - 1;
  }

  /** Once the windows are used up the columns are too. */
  lemma WindowsUsedUp(r: nat, snp: nat)
    requires r > 0
    ensures NumWindows(snp, r) * r >= snp
  {
    var q := NumWindows(snp, r);
    assert q * r + (snp + r - 1) % r == snp + r - 1;
  }

  /** The window after window n starts where window n ends, unless window n is the last. */
  lemma NextWindowStart(n: nat, r: nat, snp: nat)
    requires r > 0 && n + 1 < NumWindows(snp, r)
    ensures WindowEnd(n, r, snp) == (n + 1) * r
  {
    WindowInside(n + 1, r, snp);
    assert (n + 1) * r == n * r + r;
  }

  /** The last window ends at the last column. */
  lemma LastWindowEnd(n: nat, r: nat, snp: nat)
    requires r > 0 && n + 1 == NumWindows(snp, r)
    ensures WindowEnd(n, r, snp) == snp
  {
    WindowsUsedUp(r, snp);
    assert (n + 1) * r == n * r + r;
  }

  /** The window loop over ceil(snp / r) windows, each window's level loop applied in order. */
  function FixedFrom(sel: Selector, X: Matrix, y: seq<int>, perc: seq<int>, r: nat, snp: nat,
                     n: nat, snps: map<int, seq<int>>): map<int, seq<int>>
    requires r > 0 && X.width == snp && n <= NumWindows(snp, r) && HasKeys(snps, perc)
    decreases NumWindows(snp, r) - n
  {
    if n == NumWindows(snp, r) then snps
    else
      WindowInside(n, r, snp);
      var xx := Window(X, n * r, WindowEnd(n, r, snp));
      LevelsKeys(sel, xx, y, perc, perc, n * r, snps);
      FixedFrom(sel, X, y, perc, r, snp, n + 1, Levels(sel, xx, y, perc, n * r, snps))
  }

  /** best_snps as intended: the windows [n*r, min(n*r + r, snp)) for n below ceil(snp / r). */
  function Sweep(sel: Selector, X: Matrix, y: seq<int>, perc: seq<int>, r: nat, snp: nat): map<int, seq<int>>
    requires r > 0 && X.width == snp
  {
    FixedFrom(sel, X, y, perc, r, snp, 0, Init(perc))
  }

  /** The columns of the intended windows from window n on, in order. */
  function Covered(r: nat, snp: nat, n: nat): seq<int>
    requires r > 0 && n <= NumWindows(snp, r)
    decreases NumWindows(snp, r) - n
  {
    if n == NumWindows(snp, r) then [] else Range(n * r, WindowEnd(n, r, snp)) + Covered(r, snp, n + 1)
  }

  /** The windows from window n on cover the columns from n*r to the end, each once, in order. */
  lemma {:induction false} CoveredFrom(r: nat, snp: nat, n: nat)
    requires r > 0 && n < NumWindows(snp, r)
    ensures Covered(r, snp, n) == Range(n * r, snp)
    decreases NumWindows(snp, r) - n
  {
    WindowInside(n, r, snp);
    if n + 1 < NumWindows(snp, r) {
      CoveredFrom(r, snp, n + 1);
      NextWindowStart(n, r, snp);
      RangeConcat(n * r, WindowEnd(n, r, snp), snp);
    } else {
      LastWindowEnd(n, r, snp);
      assert Covered(r, snp, n) == Range(n * r, snp) + [];
    }
  }

  /** The intended windows partition the columns [0, snp): each column lies in exactly one window, and the windows come in column order. */
  lemma WindowsPartition(r: nat, snp: nat)
    requires r > 0
    ensures Covered(r, snp, 0) == Range(0, snp)
  {
    if snp == 0 {
      assert NumWindows(snp, r) == 0;
    } else {
      assert NumWindows(snp, r) > 0;
      CoveredFrom(r, snp, 0);
    }
  }

  // ---------------------------------------------------------------- as written against as intended

  /** With a remainder, iteration n of the loop as written picks intended window n. */
  lemma PickInexact(X: Matrix, r: nat, snp: nat, n: nat, prev: Option<Matrix>)
    requires r > 0 && X.width == snp && snp % r != 0 && n <= snp / r
    ensures NumWindows(snp, r) == snp / r + 1
    ensures n * r <= WindowEnd(n, r, snp) <= snp && Pick(X, r, snp, n, prev) == Some(Window(X, n * r, WindowEnd(n, r, snp)))
  {
    NumWindowsInexact(snp, r);
    WindowInside(n, r, snp);
    if n < snp / r {
      FullWindowFits(n, r, snp);
    } else {
      assert snp == n * r + snp % r;
    }
  }

  /** With a remainder, the loop as written from iteration n computes the intended windows from n. */
  lemma {:induction false} BestFromInexact(sel: Selector, X: Matrix, y: seq<int>, perc: seq<int>, r: nat, snp: nat,
                                           n: nat, prev: Option<Matrix>, snps: map<int, seq<int>>)
    requires r > 0 && X.width == snp && snp % r != 0 && n <= snp / r + 1 && HasKeys(snps, perc)
    ensures NumWindows(snp, r) == snp / r + 1
    ensures BestFrom(sel, X, y, perc, r, snp, n, prev, snps) == Ok(FixedFrom(sel, X, y, perc, r, snp, n, snps))
    decreases snp / r + 1 - n
  {
    NumWindowsInexact(snp, r);
    if n <= snp / r {
      PickInexact(X, r, snp, n, prev);
      var xx := Window(X, n * r, WindowEnd(n, r, snp));
      BestStep(sel, X, y, perc, r, snp, n, prev, snps);
      BestFromInexact(sel, X, y, perc, r, snp, n + 1, Some(xx), Levels(sel, xx, y, perc, n * r, snps));
    }
  }

  /** When snp % r != 0, best_snps computes exactly the intended sweep. */
  lemma BestInexact(sel: Selector, X: Matrix, y: seq<int>, perc: seq<int>, r: nat, snp: nat)
    requires r > 0 && X.width == snp && snp % r != 0
    ensures Best(sel, X, y, perc, r, snp) == Ok(Sweep(sel, X, y, perc, r, snp))
  {
    BestFromInexact(sel, X, y, perc, r, snp, 0, None, Init(perc));
  }

  /** With no columns and at least one level, best_snps reads xx before anything was assigned to it, whatever the sign of r. */
  lemma BestEmptyUnbound(sel: Selector, X: Matrix, y: seq<int>, perc: seq<int>, r: int)
    requires r != 0 && X.width == 0 && perc != []
    ensures Best(sel, X, y, perc, r, 0) == Err(UnboundLocal)
  {
    if r < 0 {
      FloorNegative(0, r);
    }
  }

  /** Without levels the level loop never reads xx, so the window loop leaves `{}` as it is. */
  lemma {:induction false} BestFromNoLevels(sel: Selector, X: Matrix, y: seq<int>, r: int, snp: nat,
                                            n: nat, prev: Option<Matrix>, snps: map<int, seq<int>>)
    requires r != 0 && X.width == snp && (n == 0 || n <= FloorDiv(snp, r) + 1)
    ensures BestFrom(sel, X, y, [], r, snp, n, prev, snps) == Ok(snps)
    decreases FloorDiv(snp, r) + 1 - n
  {
    if n < FloorDiv(snp, r) + 1 {
      var xx := Pick(X, r, snp, n, prev);
      BestFromNoLevels(sel, X, y, r, snp, n + 1, xx, snps);
    }
  }

  /** With perc empty, best_snps returns `{}` for every r but 0, where `snp // r` raises ZeroDivisionError; with no columns this holds too. */
  lemma BestNoLevels(sel: Selector, X: Matrix, y: seq<int>, r: int, snp: nat)
    requires X.width == snp
    ensures Best(sel, X, y, [], r, snp) == if r == 0 then Err(ZeroDivision) else Ok(map[])
  {
    if r != 0 {
      BestFromNoLevels(sel, X, y, r, snp, 0, None, Init([]));
    }
  }

  /**
   * For r <= 0 no window is ever cut. r == 0 is ZeroDivisionError; for r < 0 and snp > 0,
   * `range(snp // r + 1)` is empty and every list stays empty; for r < 0 and snp == 0 the one
   * iteration reads the unbound xx unless perc is empty.
   */
  lemma BestNonPositive(sel: Selector, X: Matrix, y: seq<int>, perc: seq<int>, r: int, snp: nat)
    requires r <= 0 && X.width == snp
    ensures r == 0 ==> Best(sel, X, y, perc, r, snp) == Err(ZeroDivision)
    ensures r < 0 && (snp > 0 || perc == []) ==> Best(sel, X, y, perc, r, snp) == Ok(Init(perc))
    ensures r < 0 && snp == 0 && perc != [] ==> Best(sel, X, y, perc, r, snp) == Err(UnboundLocal)
  {
    if r < 0 {
      FloorNegative(snp, r);
      if snp == 0 && perc == [] {
        BestFromNoLevels(sel, X, y, r, snp, 0, None, Init(perc));
      }
    }
  }

  /** Without a remainder, a full window n before the last is picked as the intended window n. */
  lemma PickExact(X: Matrix, r: nat, snp: nat, n: nat, prev: Option<Matrix>)
    requires r > 0 && X.width == snp && snp % r == 0 && n < snp / r
    ensures NumWindows(snp, r) == snp / r
    ensures n * r <= WindowEnd(n, r, snp) <= snp && Pick(X, r, snp, n, prev) == Some(Window(X, n * r, WindowEnd(n, r, snp)))
  {
    NumWindowsExact(snp, r);
    WindowInside(n, r, snp);
    FullWindowFits(n, r, snp);
  }

  /** The last full window: columns snp - r .. snp when r divides snp. */
  function StaleWindow(X: Matrix, r: nat, snp: nat): Matrix
    requires 0 < r <= snp && X.width == snp
  {
    Window(X, snp - r, snp)
  }

  /**
   * Without a remainder, from a window n before the last the loop as written
   * computes the intended windows and then runs the level loop once more on
   * the last full window, shifted by snp.
   */
  lemma {:induction false} BestFromExact(sel: Selector, X: Matrix, y: seq<int>, perc: seq<int>, r: nat, snp: nat,
                                         n: nat, prev: Option<Matrix>, snps: map<int, seq<int>>)
    requires r > 0 && X.width == snp && snp % r == 0 && n < snp / r && HasKeys(snps, perc)
    ensures NumWindows(snp, r) == snp / r && r <= snp
    ensures var fixed := FixedFrom(sel, X, y, perc, r, snp, n, snps);
      && HasKeys(fixed, perc)
      && BestFrom(sel, X, y, perc, r, snp, n, prev, snps) == Ok(Levels(sel, StaleWindow(X, r, snp), y, perc, snp, fixed))
    decreases snp / r - n
  {
    PickExact(X, r, snp, n, prev);
    var xx := Window(X, n * r, WindowEnd(n, r, snp));
    BestStep(sel, X, y, perc, r, snp, n, prev, snps);
    var next := Levels(sel, xx, y, perc, n * r, snps);
    if n + 1 < snp / r {
      BestFromExact(sel, X, y, perc, r, snp, n + 1, Some(xx), next);
    } else {
      assert snp == (snp / r) * r;
      assert n * r == snp - r;
      LastWindowEnd(n, r, snp);
      assert Some(xx) == Some(StaleWindow(X, r, snp));
      LevelsKeys(sel, xx, y, perc, perc, snp, next);
    }
  }

  /** When r divides snp and snp > 0, best_snps adds to the intended sweep a second pass over the last full window, with every index shifted to snp or beyond. */
  lemma BestExact(sel: Selector, X: Matrix, y: seq<int>, perc: seq<int>, r: nat, snp: nat)
    requires r > 0 && X.width == snp && snp % r == 0 && snp > 0
    ensures r <= snp && HasKeys(Sweep(sel, X, y, perc, r, snp), perc)
    ensures Best(sel, X, y, perc, r, snp) == Ok(Levels(sel, StaleWindow(X, r, snp), y, perc, snp, Sweep(sel, X, y, perc, r, snp)))
  {
    assert snp / r > 0;
    BestFromExact(sel, X, y, perc, r, snp, 0, None, Init(perc));
  }

  // ---------------------------------------------------------------- what the intended sweep gives

  /** Every list holds ascending column indices below width. */
  predicate AllChosen(snps: map<int, seq<int>>, width: int) {
    forall q :: q in snps ==> Chosen(snps[q], width)
  }

  /** Indices below lo are below any wider bound. */
  lemma ChosenWider(a: seq<int>, lo: int, hi: int)
    requires Chosen(a, lo) && lo <= hi
    ensures Chosen(a, hi)
  {
  }

  /** Ascending indices below off, followed by a choice on a window of width w shifted by off, are ascending indices below off + w. */
  lemma AppendShift(a: seq<int>, c: seq<int>, off: nat, w: nat)
    requires Chosen(a, off) && Chosen(c, w)
    ensures Chosen(a + Shift(c, off), off + w)
  {
    var b := Shift(c, off);
    var ab := a + b;
    forall i, j | 0 <= i < j < |ab| ensures ab[i] < ab[j] {
      if j < |a| {
        assert ab[i] == a[i] && ab[j] == a[j];
      } else if i < |a| {
        assert ab[j] == c[j - |a|] + off;
      } else {
        assert ab[i] == c[i - |a|] + off && ab[j] == c[j - |a|] + off;
      }
    }
    forall k | 0 <= k < |ab| ensures 0 <= ab[k] < off + w {
      if k >= |a| {
        assert ab[k] == c[k - |a|] + off;
      } else {
        assert ab[k] == a[k];
      }
    }
  }

  /** The level loop on a window of width xx.width at offset off keeps every list ascending, now below off + xx.width. */
  lemma LevelsChosen(sel: Selector, xx: Matrix, y: seq<int>, ps: seq<int>, off: nat, snps: map<int, seq<int>>)
    requires IsSelector(sel) && NoDuplicates(ps) && HasKeys(snps, ps) && AllChosen(snps, off)
    ensures AllChosen(Levels(sel, xx, y, ps, off, snps), off + xx.width)
  {
    var l := Levels(sel, xx, y, ps, off, snps);
    LevelsKeys(sel, xx, y, ps, ps, off, snps);
    forall q | q in l ensures Chosen(l[q], off + xx.width) {
      LevelsContribution(sel, xx, y, ps, off, snps, q);
      if q in ps[..Tried(sel, xx, y, ps)] {
        AppendShift(snps[q], sel(xx, y, q), off, xx.width);
      } else {
        assert l[q] == snps[q] + [];
        ChosenWider(snps[q], off, off + xx.width);
      }
    }
  }

  /** From window n on, the intended sweep keeps every list ascending and ends with indices below snp. */
  lemma {:induction false} FixedChosen(sel: Selector, X: Matrix, y: seq<int>, perc: seq<int>, r: nat, snp: nat,
                                       n: nat, snps: map<int, seq<int>>)
    requires r > 0 && X.width == snp && n < NumWindows(snp, r) && HasKeys(snps, perc)
    requires IsSelector(sel) && NoDuplicates(perc) && AllChosen(snps, n * r)
    ensures AllChosen(FixedFrom(sel, X, y, perc, r, snp, n, snps), snp)
    decreases NumWindows(snp, r) - n
  {
    WindowInside(n, r, snp);
    var xx := Window(X, n * r, WindowEnd(n, r, snp));
    LevelsKeys(sel, xx, y, perc, perc, n * r, snps);
    LevelsChosen(sel, xx, y, perc, n * r, snps);
    var next := Levels(sel, xx, y, perc, n * r, snps);
    if n + 1 < NumWindows(snp, r) {
      NextWindowStart(n, r, snp);
      FixedChosen(sel, X, y, perc, r, snp, n + 1, next);
    } else {
      LastWindowEnd(n, r, snp);
    }
  }

  /** From window n on, the intended sweep keeps exactly the levels it has lists for. */
  lemma {:induction false} FixedKeys(sel: Selector, X: Matrix, y: seq<int>, perc: seq<int>, r: nat, snp: nat,
                                     n: nat, snps: map<int, seq<int>>)
    requires r > 0 && X.width == snp && n <= NumWindows(snp, r) && HasKeys(snps, perc)
    ensures FixedFrom(sel, X, y, perc, r, snp, n, snps).Keys == snps.Keys
    decreases NumWindows(snp, r) - n
  {
    if n < NumWindows(snp, r) {
      WindowInside(n, r, snp);
      var xx := Window(X, n * r, WindowEnd(n, r, snp));
      LevelsKeys(sel, xx, y, perc, perc, n * r, snps);
      FixedKeys(sel, X, y, perc, r, snp, n + 1, Levels(sel, xx, y, perc, n * r, snps));
    }
  }

  /**
   * The intended sweep has a list for exactly the levels of perc, and, for a
   * run_boruta that returns ascending column indices of its window and
   * distinct levels, each list holds ascending column indices of X.
   */
  lemma SweepChosen(sel: Selector, X: Matrix, y: seq<int>, perc: seq<int>, r: nat, snp: nat)
    requires r > 0 && X.width == snp
    ensures forall p :: p in Sweep(sel, X, y, perc, r, snp) <==> p in perc
    ensures IsSelector(sel) && NoDuplicates(perc) ==> AllChosen(Sweep(sel, X, y, perc, r, snp), snp)
  {
    FixedKeys(sel, X, y, perc, r, snp, 0, Init(perc));
    if IsSelector(sel) && NoDuplicates(perc) {
      if snp == 0 {
        assert NumWindows(snp, r) == 0;
      } else {
        assert NumWindows(snp, r) > 0;
        FixedChosen(sel, X, y, perc, r, snp, 0, Init(perc));
      }
    }
  }

  /**
   * best_snps with its window loop corrected: ceil(snp / r) windows, the last one
   * ending at column snp. Every list it returns holds column indices of X only.
   */
  method BestSnpsFixed(sel: Selector, perc: seq<int>, r: nat, snp: nat, X: Matrix, y: seq<int>)
    returns (snps: map<int, seq<int>>)
    requires r > 0 && X.width == snp
    ensures snps == Sweep(sel, X, y, perc, r, snp)
    ensures forall p :: p in snps <==> p in perc
    ensures IsSelector(sel) && NoDuplicates(perc) ==> AllChosen(snps, snp)
  {
    var w := (snp + r - 1) / r;
    snps := map a | a in perc :: [];
    var n := 0;
    while n < w
      invariant 0 <= n <= w == NumWindows(snp, r) && HasKeys(snps, perc)
      invariant FixedFrom(sel, X, y, perc, r, snp, n, snps) == Sweep(sel, X, y, perc, r, snp)
    {
      WindowInside(n, r, snp);
      var hi := if n * r + r <= snp then n * r + r else snp;
      var xx := Window(X, n * r, hi);
      LevelsKeys(sel, xx, y, perc, perc, n * r, snps);
      snps := RunLevels(sel, xx, y, perc, n * r, snps);
      n := n + 1;
    }
    SweepChosen(sel, X, y, perc, r, snp);
  }

  // ---------------------------------------------------------------- the finding

  /**
   * When r divides snp and run_boruta chooses anything for the first level
   * on the last full window, best_snps as written reports for that level a
   * column index at or beyond snp: there is no such column.
   */
  lemma StaleBeyond(sel: Selector, X: Matrix, y: seq<int>, perc: seq<int>, r: nat, snp: nat)
    requires r > 0 && X.width == snp && snp % r == 0 && snp > 0 && perc != []
    requires IsSelector(sel) && NoDuplicates(perc) && r <= snp
    requires sel(StaleWindow(X, r, snp), y, perc[0]) != []
    ensures var res := Best(sel, X, y, perc, r, snp);
      res.Ok? && perc[0] in res.value && exists k :: 0 <= k < |res.value[perc[0]]| && res.value[perc[0]][k] >= snp
  {
    BestExact(sel, X, y, perc, r, snp);
    var m := Sweep(sel, X, y, perc, r, snp);
    var xx := StaleWindow(X, r, snp);
    var c := sel(xx, y, perc[0]);
    LevelsContribution(sel, xx, y, perc, snp, m, perc[0]);
    TriedSpec(sel, xx, y, perc);
    assert perc[0] in perc[..Tried(sel, xx, y, perc)];
    var l := Levels(sel, xx, y, perc, snp, m);
    assert l[perc[0]] == m[perc[0]] + Shift(c, snp);
    assert l[perc[0]][|m[perc[0]]|] == c[0] + snp;
  }

  /** A run_boruta that keeps column 0 of any non-empty window. */
  function KeepFirst(): Selector {
    (m: Matrix, y: seq<int>, p: int) => if m.width > 0 then [0] else []
  }

  /** KeepFirst returns ascending column indices of its window. */
  lemma KeepFirstSelector()
    ensures IsSelector(KeepFirst())
  {
    forall m: Matrix, y: seq<int>, p: int ensures Chosen(KeepFirst()(m, y, p), m.width) {
      if m.width > 0 {
        assert KeepFirst()(m, y, p) == [0];
      } else {
        assert KeepFirst()(m, y, p) == [];
      }
    }
  }

  /**
   * On one column, in one window of one column, with the one level 5 and a
   * run_boruta that keeps column 0, best_snps as written reports for level 5
   * a column at index 1 or beyond, which does not exist; the intended sweep
   * reports only columns of X.
   */
  lemma StaleOutOfRange(X: Matrix, y: seq<int>)
    requires X.width == 1
    ensures IsSelector(KeepFirst())
    ensures var res := Best(KeepFirst(), X, y, [5], 1, 1);
      res.Ok? && 5 in res.value && exists k :: 0 <= k < |res.value[5]| && res.value[5][k] >= 1
    ensures AllChosen(Sweep(KeepFirst(), X, y, [5], 1, 1), 1)
  {
    KeepFirstSelector();
    assert StaleWindow(X, 1, 1).width == 1;
    StaleBeyond(KeepFirst(), X, y, [5], 1, 1);
    SweepChosen(KeepFirst(), X, y, [5], 1, 1);
  }
}
