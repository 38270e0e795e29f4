/**
 * The chromosome-range strings of the run ledger: make_chrstr renders a list of
 * chromosome numbers as "1-3, 5, 7-9", read_chrstr reads such a string back.
 */
module RangeCodec {
  import opened Outcomes
  import opened PyStr
  import opened Seqs

  /** A run lo, lo+1, ..., hi of chromosome numbers. */
  datatype Span = Span(lo: int, hi: int)

  /** The numbers a span stands for, `range(lo, hi + 1)`. */
  function Members(sp: Span): seq<int> {
    Range(sp.lo, sp.hi + 1)
  }

  /** The numbers of the spans, span after span. */
  function Expand(rs: seq<Span>): seq<int> {
    if rs == [] then [] else Expand(rs[..|rs| - 1]) + Members(rs[|rs| - 1])
  }

  /** Span k does not start right after span k - 1 ends. */
  predicate NotAdjacent(rs: seq<Span>, k: int)
    requires 0 < k < |rs|
  {
    rs[k].lo != rs[k - 1].hi + 1
  }

  /** Span k starts more than one past the end of span k - 1. */
  predicate Apart(rs: seq<Span>, k: int)
    requires 0 < k < |rs|
  {
    rs[k - 1].hi + 1 < rs[k].lo
  }

  /**
   * The runs of a list: a run goes on while each element is one more than the
   * one before it, and every other element starts a new run.
   */
  function Runs(s: seq<int>): (rs: seq<Span>)
    ensures s != [] ==> |rs| > 0 && rs[|rs| - 1].hi == s[|s| - 1]
    ensures forall k :: 0 <= k < |rs| ==> rs[k].lo <= rs[k].hi
  {
    if s == [] then []
    else
      var rs := Runs(s[..|s| - 1]);
      var x := s[|s| - 1];
      if rs != [] && rs[|rs| - 1].hi + 1 == x then rs[..|rs| - 1] + [Span(rs[|rs| - 1].lo, x)]
      else rs + [Span(x, x)]
  }

  /** Runs(s) is Runs of all but the last element, with that element joined to the last span or added as a new one. */
  lemma RunsSnoc(s: seq<int>)
    requires s != []
    ensures var rs := Runs(s[..|s| - 1]); var x := s[|s| - 1];
      Runs(s) == if rs != [] && rs[|rs| - 1].hi + 1 == x then rs[..|rs| - 1] + [Span(rs[|rs| - 1].lo, x)] else rs + [Span(x, x)]
  {
  }

  /** The members of one more span come after the others'. */
  lemma ExpandSnoc(rs: seq<Span>, sp: Span)
    ensures Expand(rs + [sp]) == Expand(rs) + Members(sp)
  {
    assert (rs + [sp])[..|rs|] == rs;
  }

  /** Extending the last span by the number after its end appends that number. */
  lemma ExpandExtendLast(rs: seq<Span>, x: int)
    requires rs != [] && rs[|rs| - 1].lo <= rs[|rs| - 1].hi && rs[|rs| - 1].hi + 1 == x
    ensures Expand(rs[..|rs| - 1] + [Span(rs[|rs| - 1].lo, x)]) == Expand(rs) + [x]
  {
    var init := rs[..|rs| - 1];
    var last := rs[|rs| - 1];
    ExpandSnoc(init, Span(last.lo, x));
    RangeSnoc(last.lo, x);
    AppendAssoc(Expand(init), Members(last), x);
  }

  lemma AppendAssoc(a: seq<int>, b: seq<int>, x: int)
    ensures a + (b + [x]) == (a + b) + [x]
  {
  }

  /** The runs cover the list exactly: their members, in order, are the list. */
  lemma {:induction false} RunsExpand(s: seq<int>)
    ensures Expand(Runs(s)) == s
  {
    if s != [] {
      RunsExpand(s[..|s| - 1]);
      RunsExpandLast(s);
    }
  }

  /** The runs of s cover s when those of all but its last element cover them. */
  lemma RunsExpandLast(s: seq<int>)
    requires s != [] && Expand(Runs(s[..|s| - 1])) == s[..|s| - 1]
    ensures Expand(Runs(s)) == s
  {
    var p := s[..|s| - 1];
    var x := s[|s| - 1];
    SnocSplit(s);
    RunsSnoc(s);
    ExpandGrow(Runs(p), Runs(s), p, x);
  }

  /** Extending the last span by x, or adding the span of x alone, adds x to the members. */
  lemma ExpandGrow(rs: seq<Span>, r: seq<Span>, p: seq<int>, x: int)
    requires Expand(rs) == p && (rs != [] ==> rs[|rs| - 1].lo <= rs[|rs| - 1].hi)
    requires r == if rs != [] && rs[|rs| - 1].hi + 1 == x then rs[..|rs| - 1] + [Span(rs[|rs| - 1].lo, x)] else rs + [Span(x, x)]
    ensures Expand(r) == p + [x]
  {
    if rs != [] && rs[|rs| - 1].hi + 1 == x {
      ExpandExtendLast(rs, x);
    } else {
      ExpandSnoc(rs, Span(x, x));
      RangeSnoc(x, x);
    }
  }

  /** No run could be joined to the one before it: the runs are maximal. */
  lemma {:induction false} RunsMaximal(s: seq<int>)
    ensures var rs := Runs(s); forall k :: 0 < k < |rs| ==> NotAdjacent(rs, k)
  {
    if s != [] {
      var p := s[..|s| - 1];
      var x := s[|s| - 1];
      RunsMaximal(p);
      RunsSnoc(s);
      var rs := Runs(p);
      var r := Runs(s);
      forall k | 0 < k < |r| ensures NotAdjacent(r, k) {
        if k < |rs| {
          assert NotAdjacent(rs, k);
        }
      }
    }
  }

  /** For a strictly ascending list a gap of at least one number separates consecutive runs. */
  lemma {:induction false} RunsSeparated(s: seq<int>)
    requires StrictlyAscending(s)
    ensures var rs := Runs(s); forall k :: 0 < k < |rs| ==> Apart(rs, k)
  {
    if s != [] {
      var p := s[..|s| - 1];
      var x := s[|s| - 1];
      RunsSeparated(p);
      RunsSnoc(s);
      var rs := Runs(p);
      var r := Runs(s);
      forall k | 0 < k < |r| ensures Apart(r, k) {
        if k < |rs| {
          assert Apart(rs, k);
        } else {
          assert rs[|rs| - 1].hi == p[|p| - 1] == s[|s| - 2];
        }
      }
    }
  }

  /** A lower bound of the list bounds every span. */
  lemma {:induction false} RunsAbove(s: seq<int>, m: int)
    requires forall k :: 0 <= k < |s| ==> s[k] >= m
    ensures var rs := Runs(s); forall k :: 0 <= k < |rs| ==> m <= rs[k].lo
  {
    if s != [] {
      var p := s[..|s| - 1];
      RunsAbove(p, m);
      RunsSnoc(s);
    }
  }

  /** How make_chrstr renders a span: "N" for a single number, "N-M" otherwise. */
  function RenderSpan(sp: Span): string {
    if sp.lo == sp.hi then Render(sp.lo) else Render(sp.lo) + "-" + Render(sp.hi)
  }

  function SpanTexts(rs: seq<Span>): (ts: seq<string>)
    ensures |ts| == |rs|
  {
    seq(|rs|, k requires 0 <= k < |rs| => RenderSpan(rs[k]))
  }

  /** The spans rendered and joined by ", ". */
  function RenderRuns(rs: seq<Span>): string {
    Join(SpanTexts(rs), ", ")
  }

  // ---------------------------------------------------------------- make_chrstr

  /** make_chrstr's loop variables: the start of the current run, the number that would extend it, the text so far. */
  datatype EncState = EncState(first: int, och: int, text: string)

  /** `if len(chrstr) != 0: chrstr += ', '` */
  function Comma(text: string): string {
    if |text| != 0 then text + ", " else text
  }

  /** One turn of make_chrstr's loop on element ch. */
  function Step(st: EncState, ch: int): EncState {
    if ch == st.och then st.(och := st.och + 1)
    else if st.first != st.och - 1 then
      EncState(ch, ch + 1, Comma(st.text) + Render(st.first) + "-" + Render(st.och - 1))
    else EncState(ch, ch + 1, Comma(st.text) + Render(st.first))
  }

  /** The loop's state after it has visited the elements of cl in order. */
  function Visit(st: EncState, cl: seq<int>): EncState {
    if cl == [] then st else Step(Visit(st, cl[..|cl| - 1]), cl[|cl| - 1])
  }

  /** What make_chrstr returns: its loop run over the list and the 0 appended to it. */
  function Encode(chrlist: seq<int>): string {
    var cl := chrlist + [0];
    Visit(EncState(cl[0], cl[0], ""), cl).text
  }

  /** Appending a span to the spans appends ", " (after a first span) and its text. */
  lemma RenderRunsSnoc(rs: seq<Span>, sp: Span)
    ensures RenderRuns(rs + [sp]) == Comma(RenderRuns(rs)) + RenderSpan(sp)
  {
    assert SpanTexts(rs + [sp]) == SpanTexts(rs) + [RenderSpan(sp)];
    JoinSnoc(SpanTexts(rs), RenderSpan(sp), ", ");
    if rs != [] {
      JoinNonEmpty(SpanTexts(rs), ", ");
    }
  }

  /** A number that does not extend the current run closes it: the run's text is appended and a new run starts. */
  lemma StepFlush(sp: Span, text: string, ch: int)
    requires sp.lo <= sp.hi && ch != sp.hi + 1
    ensures Step(EncState(sp.lo, sp.hi + 1, text), ch) == EncState(ch, ch + 1, Comma(text) + RenderSpan(sp))
  {
    if sp.lo != sp.hi {
      assert Comma(text) + Render(sp.lo) + "-" + Render(sp.hi) == Comma(text) + (Render(sp.lo) + "-" + Render(sp.hi));
    }
  }

  /** A number one past the current run extends it. */
  lemma StepExtend(st: EncState, ch: int)
    requires ch == st.och
    ensures Step(st, ch) == st.(och := ch + 1)
  {
  }

  /** The state after a prefix of k elements is the step on element k - 1 from the state after k - 1 elements. */
  lemma VisitSnoc(init: EncState, s: seq<int>, k: nat)
    requires 1 <= k <= |s|
    ensures Visit(init, s[..k]) == Step(Visit(init, s[..k - 1]), s[k - 1])
  {
    assert s[..k][..k - 1] == s[..k - 1];
  }

  /** The loop's state in terms of the runs of the prefix it has visited. */
  ghost predicate InRun(s: seq<int>, k: nat)
    requires 1 <= k <= |s|
  {
    var rs := Runs(s[..k]);
    Visit(EncState(s[0], s[0], ""), s[..k]) == EncState(rs[|rs| - 1].lo, s[k - 1] + 1, RenderRuns(rs[..|rs| - 1]))
  }

  lemma VisitFirst(s: seq<int>)
    requires 1 <= |s|
    ensures InRun(s, 1)
  {
    var init := EncState(s[0], s[0], "");
    VisitSnoc(init, s, 1);
    assert s[..0] == [];
    StepExtend(init, s[0]);
    RunsSnoc(s[..1]);
    assert s[..1][..0] == [];
    assert Runs(s[..1])[..0] == [];
    assert SpanTexts([]) == [];
  }

  /** The runs of a prefix one longer: the new element extends the last run or starts a new one. */
  lemma RunsOfLonger(s: seq<int>, k: nat)
    requires 2 <= k <= |s|
    ensures var rs := Runs(s[..k - 1]); var last := rs[|rs| - 1];
      && last.hi == s[k - 2]
      && Runs(s[..k]) == if s[k - 1] == last.hi + 1 then rs[..|rs| - 1] + [Span(last.lo, s[k - 1])] else rs + [Span(s[k - 1], s[k - 1])]
  {
    RunsSnoc(s[..k]);
    assert s[..k][..k - 1] == s[..k - 1];
  }

  lemma VisitNext(s: seq<int>, k: nat)
    requires 2 <= k <= |s| && InRun(s, k - 1)
    ensures InRun(s, k)
  {
    var init := EncState(s[0], s[0], "");
    var rs := Runs(s[..k - 1]);
    var last := rs[|rs| - 1];
    var text := RenderRuns(rs[..|rs| - 1]);
    var x := s[k - 1];
    RunsOfLonger(s, k);
    VisitSnoc(init, s, k);
    assert Visit(init, s[..k]) == Step(EncState(last.lo, last.hi + 1, text), x);
    if x != last.hi + 1 {
      StepFlush(last, text, x);
      assert rs == rs[..|rs| - 1] + [last];
      RenderRunsSnoc(rs[..|rs| - 1], last);
      assert (rs + [Span(x, x)])[..|rs|] == rs;
    } else {
      StepExtend(EncState(last.lo, last.hi + 1, text), x);
      var r := rs[..|rs| - 1] + [Span(last.lo, x)];
      assert r[..|r| - 1] == rs[..|rs| - 1];
    }
  }

  /**
   * After the first k elements the loop is inside the last run of those
   * elements, and its text renders every run before that one.
   */
  lemma {:induction false} VisitPrefix(s: seq<int>, k: nat)
    requires 1 <= k <= |s|
    ensures InRun(s, k)
  {
    if k == 1 {
      VisitFirst(s);
    } else {
      VisitPrefix(s, k - 1);
      VisitNext(s, k);
    }
  }

  /** make_chrstr([]) is the empty string. */
  lemma EncodeEmpty()
    ensures Encode([]) == ""
  {
    var cl: seq<int> := [0];
    assert [] + [0] == cl && cl[..0] == [];
    assert Visit(EncState(0, 0, ""), cl) == Step(EncState(0, 0, ""), 0);
  }

  /** make_chrstr's result is its loop's state after the list, moved on by the 0 sentinel. */
  lemma EncodeVisit(s: seq<int>)
    requires s != []
    ensures Encode(s) == Step(Visit(EncState(s[0], s[0], ""), s), 0).text
  {
    var cl := s + [0];
    assert cl[..|cl| - 1] == s && cl[0] == s[0];
  }

  lemma EncodeRunsNonEmpty(s: seq<int>)
    requires s != [] && s[|s| - 1] != -1
    ensures Encode(s) == RenderRuns(Runs(s))
  {
    var rs := Runs(s);
    var last := rs[|rs| - 1];
    var text := RenderRuns(rs[..|rs| - 1]);
    var init := EncState(s[0], s[0], "");
    assert Visit(init, s) == EncState(last.lo, last.hi + 1, text) by {
      VisitPrefix(s, |s|);
      assert s[..|s|] == s;
    }
    assert Encode(s) == Comma(text) + RenderSpan(last) by {
      EncodeVisit(s);
      StepFlush(last, text, 0);
    }
    assert RenderRuns(rs) == Comma(text) + RenderSpan(last) by {
      assert rs == rs[..|rs| - 1] + [last];
      RenderRunsSnoc(rs[..|rs| - 1], last);
    }
  }

  /** make_chrstr renders the runs of its list, unless the last run ends at -1 and absorbs the 0 sentinel. */
  lemma EncodeRuns(s: seq<int>)
    requires s == [] || s[|s| - 1] != -1
    ensures Encode(s) == RenderRuns(Runs(s))
  {
    if s == [] {
      EncodeEmpty();
      assert SpanTexts(Runs(s)) == [];
    } else {
      EncodeRunsNonEmpty(s);
    }
  }

  /**
   * make_chrstr on a strictly ascending list of chromosome numbers: the list is
   * cut into maximal runs of consecutive numbers, each rendered as "N" or "N-M",
   * joined by ", " ("" for the empty list).
   */
  lemma EncodeMaximalRuns(s: seq<int>)
    requires StrictlyAscending(s) && forall k :: 0 <= k < |s| ==> s[k] > 0
    ensures var rs := Runs(s);
      && Encode(s) == RenderRuns(rs)
      && Expand(rs) == s
      && (forall k :: 0 <= k < |rs| ==> rs[k].lo <= rs[k].hi)
      && (forall k :: 0 < k < |rs| ==> Apart(rs, k))
  {
    EncodeRuns(s);
    RunsExpand(s);
    RunsSeparated(s);
  }

  /** The body of make_chrstr's loop on element ch. */
  method Turn(first: int, och: int, chrstr: string, ch: int) returns (first': int, och': int, chrstr': string)
    ensures EncState(first', och', chrstr') == Step(EncState(first, och, chrstr), ch)
  {
    first', och', chrstr' := first, och, chrstr;
    if ch == och {
      och' := och + 1;
    } else if first != och - 1 {
      if |chrstr'| != 0 {
        chrstr' := chrstr' + ", ";
      }
      chrstr' := chrstr' + Render(first) + "-" + Render(och - 1);
      first' := ch;
      och' := ch + 1;
    } else {
      if |chrstr'| != 0 {
        chrstr' := chrstr' + ", ";
      }
      chrstr' := chrstr' + Render(first);
      first' := ch;
      och' := ch + 1;
    }
  }

  /** `make_chrstr(chrlist)` */
  method MakeChrStr(chrlist: seq<int>) returns (chrstr: string)
    ensures chrstr == Encode(chrlist)
    ensures (chrlist == [] || chrlist[|chrlist| - 1] != -1) ==> chrstr == RenderRuns(Runs(chrlist))
  {
    var cl := chrlist + [0];
    chrstr := "";
    var first := cl[0];
    var och := first;
    var i := 0;
    while i < |cl|
      invariant 0 <= i <= |cl|
      invariant EncState(first, och, chrstr) == Visit(EncState(cl[0], cl[0], ""), cl[..i])
    {
      first, och, chrstr := Turn(first, och, chrstr, cl[i]);
      VisitSnoc(EncState(cl[0], cl[0], ""), cl, i + 1);
      i := i + 1;
    }
    assert cl[..|cl|] == cl;
    if chrlist == [] || chrlist[|chrlist| - 1] != -1 {
      EncodeRuns(chrlist);
    }
  }

  // ---------------------------------------------------------------- read_chrstr

  /** One comma-separated piece: "N" gives [N]; "A-B" (and "A-B-…") gives range(A, B + 1). */
  function DecodePiece(el: string): Result<seq<int>> {
    DecodeParts(Split(el, '-'))
  }

  /** A piece cut at '-': one part is a number, otherwise the first two parts bound a range. */
  function DecodeParts(parts: seq<string>): Result<seq<int>>
    requires |parts| >= 1
  {
    if |parts| == 1 then
      match ParseInt(parts[0])
      case Err(e) => Err(e)
      case Ok(v) => Ok([v])
    else
      match ParseInt(parts[0])
      case Err(e) => Err(e)
      case Ok(a) =>
        match ParseInt(parts[1])
        case Err(e) => Err(e)
        case Ok(b) => Ok(Range(a, b + 1))
  }

  /** The pieces' numbers in order, or the first piece's error. */
  function DecodePieces(c: seq<string>): Result<seq<int>> {
    if c == [] then Ok([])
    else
      match DecodePieces(c[..|c| - 1])
      case Err(e) => Err(e)
      case Ok(l) =>
        match DecodePiece(c[|c| - 1])
        case Err(e) => Err(e)
        case Ok(v) => Ok(l + v)
  }

  /** `chrstr.strip('[]').split(',')` */
  function Pieces(chrstr: string): seq<string> {
    Split(StripChars(chrstr, IsBracket), ',')
  }

  /** What read_chrstr returns. */
  function Decode(chrstr: string): Result<seq<int>> {
    match DecodePieces(Pieces(chrstr))
    case Err(e) => Err(e)
    case Ok(l) => Ok(Sort(l))
  }

  /** An error in some piece is the error of every longer prefix. */
  lemma {:induction false} DecodePiecesErr(c: seq<string>, j: nat, e: Error)
    requires j <= |c| && DecodePieces(c[..j]) == Err(e)
    ensures DecodePieces(c) == Err(e)
    decreases |c| - j
  {
    if j < |c| {
      assert c[..j + 1][..j] == c[..j];
      DecodePiecesErr(c, j + 1, e);
    } else {
      assert c[..j] == c;
    }
  }

  /** One more piece: its numbers are appended, or its error ends the reading. */
  lemma DecodePiecesStep(c: seq<string>, i: nat, l: seq<int>)
    requires i < |c| && DecodePieces(c[..i]) == Ok(l)
    ensures DecodePieces(c[..i + 1]) == match DecodePiece(c[i]) case Err(e) => Err(e) case Ok(v) => Ok(l + v)
  {
    assert c[..i + 1][..i] == c[..i];
  }

  /** The body of read_chrstr's loop on one comma-separated piece. */
  method ReadPiece(el: string) returns (r: Result<seq<int>>)
    ensures r == DecodePiece(el)
  {
    var parts := Split(el, '-');
    if |parts| == 1 {
      var v := ParseInt(parts[0]);
      if v.Err? {
        return Err(v.error);
      }
      r := Ok([v.value]);
    } else {
      var a := ParseInt(parts[0]);
      if a.Err? {
        return Err(a.error);
      }
      var b := ParseInt(parts[1]);
      if b.Err? {
        return Err(b.error);
      }
      r := Ok(Range(a.value, b.value + 1));
    }
  }

  /** A piece that reads as v extends the numbers of the pieces before it by v. */
  lemma DecodeOkStep(c: seq<string>, i: nat, l: seq<int>, v: seq<int>)
    requires i < |c| && DecodePieces(c[..i]) == Ok(l) && DecodePiece(c[i]) == Ok(v)
    ensures DecodePieces(c[..i + 1]) == Ok(l + v)
  {
    DecodePiecesStep(c, i, l);
  }

  /** A piece that fails after pieces that read makes the whole list fail with its error. */
  lemma DecodeErrStep(c: seq<string>, i: nat, l: seq<int>, e: Error)
    requires i < |c| && DecodePieces(c[..i]) == Ok(l) && DecodePiece(c[i]) == Err(e)
    ensures DecodePieces(c) == Err(e)
  {
    DecodePiecesStep(c, i, l);
    DecodePiecesErr(c, i + 1, e);
  }

  /** read_chrstr's loop: the numbers of the pieces in order, or the error of the first piece that fails. */
  method ReadPieces(c: seq<string>) returns (r: Result<seq<int>>)
    ensures r == DecodePieces(c)
  {
    var chrlist: seq<int> := [];
    var i := 0;
    while i < |c|
      invariant 0 <= i <= |c|
      invariant DecodePieces(c[..i]) == Ok(chrlist)
    {
      var piece := ReadPiece(c[i]);
      if piece.Err? {
        DecodeErrStep(c, i, chrlist, piece.error);
        return Err(piece.error);
      }
      DecodeOkStep(c, i, chrlist, piece.value);
      chrlist := chrlist + piece.value;
      i := i + 1;
    }
    assert c[..|c|] == c;
    r := Ok(chrlist);
  }

  /** `read_chrstr(chrstr)` */
  method ReadChrStr(chrstr: string) returns (r: Result<seq<int>>)
    ensures r == Decode(chrstr)
    ensures r.Ok? ==> Sorted(r.value)
  {
    var c := Split(StripChars(chrstr, IsBracket), ',');
    var chrlist := ReadPieces(c);
    if chrlist.Err? {
      return Err(chrlist.error);
    }
    SortSpec(chrlist.value);
    r := Ok(Sort(chrlist.value));
  }

  lemma PiecesOfEmpty()
    ensures Pieces("") == [""]
  {
    assert StripChars("", IsBracket) == "";
  }

  lemma PieceOfEmpty()
    ensures DecodePiece("") == Err(ValueError)
  {
    assert Split("", '-') == [""];
  }

  /** read_chrstr("") fails: int('') raises ValueError. */
  lemma DecodeEmptyFails()
    ensures Decode("") == Err(ValueError)
  {
    PiecesOfEmpty();
    PieceOfEmpty();
    assert [""][..0] == [];
  }

  /** "N", perhaps after a blank, reads as [N]. */
  lemma DecodeSingle(n: int, pre: string)
    requires n >= 0 && (pre == "" || pre == " ")
    ensures DecodePiece(pre + Render(n)) == Ok([n])
  {
    RenderIsWord(n);
    var t := pre + Render(n);
    assert '-' !in t;
    SplitOne(t, '-');
    ParseRenderAfter(n, pre);
  }

  lemma DecodePartsPair(a: string, b: string, x: int, y: int)
    requires ParseInt(a) == Ok(x) && ParseInt(b) == Ok(y)
    ensures DecodeParts([a, b]) == Ok(Range(x, y + 1))
  {
    assert [a, b][0] == a && [a, b][1] == b;
  }

  /** A piece reads as its parts at '-' read. */
  lemma DecodePieceParts(t: string, parts: seq<string>)
    requires Split(t, '-') == parts
    ensures |parts| >= 1 && DecodePiece(t) == DecodeParts(parts)
  {
  }

  /** "A-B", perhaps after a blank, cuts at '-' into its two numerals. */
  lemma SplitPair(lo: int, hi: int, pre: string)
    requires lo >= 0 && hi >= 0 && (pre == "" || pre == " ")
    ensures Split(pre + (Render(lo) + "-" + Render(hi)), '-') == [pre + Render(lo), Render(hi)]
  {
    var a := pre + Render(lo);
    var b := Render(hi);
    NoDashAfterLead(lo, pre);
    RenderIsWord(hi);
    SplitTwo(a, b, '-');
    Regroup(pre, Render(lo), b);
  }

  lemma NoDashAfterLead(n: int, pre: string)
    requires n >= 0 && (pre == "" || pre == " ")
    ensures '-' !in pre + Render(n)
  {
    RenderIsWord(n);
  }

  lemma Regroup(p: string, a: string, b: string)
    ensures p + (a + "-" + b) == (p + a) + ['-'] + b
  {
  }

  /** "A-B", perhaps after a blank, reads as range(A, B + 1). */
  lemma DecodePair(lo: int, hi: int, pre: string)
    requires lo >= 0 && hi >= 0 && (pre == "" || pre == " ")
    ensures DecodePiece(pre + (Render(lo) + "-" + Render(hi))) == Ok(Range(lo, hi + 1))
  {
    var a := pre + Render(lo);
    var b := Render(hi);
    SplitPair(lo, hi, pre);
    DecodePieceParts(pre + (Render(lo) + "-" + Render(hi)), [a, b]);
    ParseRenderAfter(lo, pre);
    ParseRenderBare(hi);
    DecodePartsPair(a, b, lo, hi);
  }

  /** The text of a span of one number. */
  lemma RenderSingle(sp: Span)
    requires sp.lo == sp.hi
    ensures RenderSpan(sp) == Render(sp.lo)
  {
  }

  /** The text of a span of several numbers. */
  lemma RenderPair(sp: Span)
    requires sp.lo != sp.hi
    ensures RenderSpan(sp) == Render(sp.lo) + "-" + Render(sp.hi)
  {
  }

  lemma DecodeSingleSpan(sp: Span, pre: string)
    requires 0 <= sp.lo == sp.hi
    requires pre == "" || pre == " "
    ensures DecodePiece(pre + RenderSpan(sp)) == Ok(Members(sp))
  {
    RenderSingle(sp);
    DecodeSingle(sp.lo, pre);
    assert Members(sp) == [sp.lo];
  }

  lemma DecodePairSpan(sp: Span, pre: string)
    requires sp.lo >= 0 && sp.hi >= 0 && sp.lo != sp.hi
    requires pre == "" || pre == " "
    ensures DecodePiece(pre + RenderSpan(sp)) == Ok(Members(sp))
  {
    DecodePair(sp.lo, sp.hi, pre);
    RenderPair(sp);
  }

  /** A span of non-negative numbers, perhaps after a blank, reads back as its members. */
  lemma DecodeSpanText(sp: Span, pre: string)
    requires sp.lo >= 0 && sp.hi >= 0
    requires pre == "" || pre == " "
    ensures DecodePiece(pre + RenderSpan(sp)) == Ok(Members(sp))
  {
    if sp.lo == sp.hi {
      DecodeSingleSpan(sp, pre);
    } else {
      DecodePairSpan(sp, pre);
    }
  }

  /** What comes before piece i of a ", "-joined text once it is cut at ',': nothing for the first, a blank for the rest. */
  function Lead(i: int): string {
    if i == 0 then "" else " "
  }

  /** The spans of a prefix one longer. */
  lemma ExpandPrefix(rs: seq<Span>, k: nat)
    requires 1 <= k <= |rs|
    ensures Expand(rs[..k]) == Expand(rs[..k - 1]) + Members(rs[k - 1])
  {
    assert rs[..k][..k - 1] == rs[..k - 1];
  }

  /** The pieces of rendered spans read back as the spans' members, in order. */
  lemma {:induction false} DecodeSpanPieces(rs: seq<Span>, c: seq<string>, k: nat)
    requires forall i :: 0 <= i < |rs| ==> rs[i].lo >= 0 && rs[i].hi >= 0
    requires |c| == |rs| && k <= |rs|
    requires forall i :: 0 <= i < |c| ==> c[i] == Lead(i) + RenderSpan(rs[i])
    ensures DecodePieces(c[..k]) == Ok(Expand(rs[..k]))
  {
    if k == 0 {
      assert c[..0] == [] && rs[..0] == [];
    } else {
      DecodeSpanPieces(rs, c, k - 1);
      DecodePiecesStep(c, k - 1, Expand(rs[..k - 1]));
      DecodeSpanText(rs[k - 1], Lead(k - 1));
      ExpandPrefix(rs, k);
    }
  }

  /** The ", "-joined span texts hold no bracket at either end, so strip('[]') keeps them. */
  lemma StripRenderRuns(rs: seq<Span>)
    requires |rs| > 0
    requires forall i :: 0 <= i < |rs| ==> rs[i].lo >= 0 && rs[i].hi >= 0
    ensures StripChars(RenderRuns(rs), IsBracket) == RenderRuns(rs)
  {
    var ts := SpanTexts(rs);
    var text := RenderRuns(rs);
    SpanTextEnds(rs[0]);
    SpanTextEnds(rs[|rs| - 1]);
    assert ts[0] == RenderSpan(rs[0]);
    assert ts[|ts| - 1] == RenderSpan(rs[|rs| - 1]);
    JoinFirst(ts, ", ");
    JoinLast(ts, ", ");
    assert IsDigit(text[0]) && IsDigit(text[|text| - 1]);
    StripBare(text, IsBracket);
  }

  /** The text of a span of non-negative numbers starts and ends with a digit. */
  lemma SpanTextEnds(sp: Span)
    requires sp.lo >= 0 && sp.hi >= 0
    ensures var t := RenderSpan(sp); |t| > 0 && IsDigit(t[0]) && IsDigit(t[|t| - 1])
  {
    RenderSpec(sp.lo);
    RenderSpec(sp.hi);
  }

  /** A span of non-negative numbers is written without a comma. */
  lemma SpanNoComma(sp: Span)
    requires sp.lo >= 0 && sp.hi >= 0
    ensures ',' !in RenderSpan(sp)
  {
    RenderIsWord(sp.lo);
    RenderIsWord(sp.hi);
  }

  /** Cutting the ", "-joined span texts at ',' gives each span's text, after a blank for all but the first. */
  lemma SplitRenderRuns(rs: seq<Span>)
    requires |rs| > 0
    requires forall i :: 0 <= i < |rs| ==> rs[i].lo >= 0 && rs[i].hi >= 0
    ensures var c := Split(RenderRuns(rs), ',');
      |c| == |rs| && forall i :: 0 <= i < |c| ==> c[i] == Lead(i) + RenderSpan(rs[i])
  {
    var ts := SpanTexts(rs);
    forall i | 0 <= i < |ts| ensures ',' !in ts[i] {
      assert ts[i] == RenderSpan(rs[i]);
      SpanNoComma(rs[i]);
    }
    assert ", " == [','] + " ";
    SplitJoinWide(ts, ',', " ");
    var c := Split(RenderRuns(rs), ',');
    var w := [ts[0]] + seq(|ts| - 1, i requires 0 <= i < |ts| - 1 => " " + ts[i + 1]);
    assert c == w;
    forall i | 0 <= i < |c| ensures c[i] == Lead(i) + RenderSpan(rs[i]) {
      assert ts[i] == RenderSpan(rs[i]);
      if i == 0 {
        assert c[0] == ts[0] == "" + ts[0];
      } else {
        assert c[i] == w[i] == " " + ts[i];
      }
    }
  }

  /**
   * read_chrstr of rendered spans of non-negative numbers: every "A-B" piece is
   * expanded inclusively and the numbers come back sorted, duplicates kept.
   */
  lemma DecodeRenderRuns(rs: seq<Span>)
    requires |rs| > 0
    requires forall i :: 0 <= i < |rs| ==> rs[i].lo >= 0 && rs[i].hi >= 0
    ensures Decode(RenderRuns(rs)) == Ok(Sort(Expand(rs)))
  {
    StripRenderRuns(rs);
    SplitRenderRuns(rs);
    var c := Pieces(RenderRuns(rs));
    DecodeSpanPieces(rs, c, |rs|);
    assert c[..|c|] == c && rs[..|rs|] == rs;
  }

  /**
   * The round trip of the ledger's chromosome field: read_chrstr(make_chrstr(L))
   * is L sorted, for every non-empty list of positive chromosome numbers.
   */
  lemma DecodeEncode(s: seq<int>)
    requires |s| > 0 && forall k :: 0 <= k < |s| ==> s[k] > 0
    ensures Decode(Encode(s)) == Ok(Sort(s))
  {
    EncodeRuns(s);
    RunsAbove(s, 1);
    RunsExpand(s);
    DecodeRenderRuns(Runs(s));
  }

  /** For a strictly ascending non-empty list of positive numbers the round trip is the identity. */
  lemma RoundTrip(s: seq<int>)
    requires |s| > 0 && StrictlyAscending(s) && forall k :: 0 <= k < |s| ==> s[k] > 0
    ensures Decode(Encode(s)) == Ok(s)
  {
    DecodeEncode(s);
    SortOfSorted(s);
  }

  lemma RenderDigit(d: nat)
    requires d < 10
    ensures Render(d) == [('0' as int + d) as char]
  {
  }

  lemma TextOfOverlap()
    ensures RenderRuns([Span(1, 3), Span(2, 2)]) == "1-3, 2"
  {
    var rs := [Span(1, 3), Span(2, 2)];
    RenderDigit(1);
    RenderDigit(2);
    RenderDigit(3);
    var ts := SpanTexts(rs);
    assert ts[0] == "1-3";
    assert ts[1] == "2";
    assert ts == ["1-3", "2"];
    assert ts[1..] == ["2"];
  }

  lemma ExpandOverlap()
    ensures Expand([Span(1, 3), Span(2, 2)]) == [1, 2, 3, 2]
  {
    var rs := [Span(1, 3), Span(2, 2)];
    assert rs[..1] == [Span(1, 3)] && [Span(1, 3)][..0] == [];
    assert Range(1, 4) == [1, 2, 3];
    assert Range(2, 3) == [2];
  }

  /** read_chrstr sorts but does not deduplicate: "1-3, 2" reads as [1, 2, 2, 3]. */
  lemma DecodeKeepsRepeats()
    ensures Decode("1-3, 2") == Ok([1, 2, 2, 3])
  {
    TextOfOverlap();
    DecodeRenderRuns([Span(1, 3), Span(2, 2)]);
    ExpandOverlap();
    SortOverlap();
  }

  lemma SortOverlap()
    ensures Sort([1, 2, 3, 2]) == [1, 2, 2, 3]
  {
    assert Sort([2]) == [2];
    assert Sort([3, 2]) == [2, 3];
    assert Sort([2, 3, 2]) == [2, 2, 3];
  }
}
