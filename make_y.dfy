/**
 * makeY.py: the label file Y_chr.csv built from the patients' diagnoses, and the
 * rewrite of genome_stats.txt that adds the patient count to every line.
 *
 * Files are given as their lines, each with its line end, as iterating over a file
 * yields them; a written file is the sequence of the lines written to it.
 */
module MakeY {
  import opened Outcomes
  import opened PyStr
  import Loader
  import PatientCounts

  /** The class makeY writes for one line of diagnoses.txt: 1 and 0 as given, 2 for anything else. */
  function Label(dline: string): nat {
    var d := Strip(dline);
    if d == "1" then 1 else if d == "0" then 0 else 2
  }

  /** The line '%d,%d\n' of Y_chr.csv for the i-th pair. */
  function YLine(i: int, dline: string): string {
    Render(i) + "," + Render(Label(dline)) + "\n"
  }

  /** Y_chr.csv after the first n pairs. */
  function YLines(diag: seq<string>, n: nat): seq<string>
    requires n <= |diag|
  {
    if n == 0 then [] else YLines(diag, n - 1) + [YLine(n - 1, diag[n - 1])]
  }

  /** The number of pairs zip(pid, diag) yields: the length of the shorter file. */
  function Pairs(pid: seq<string>, diag: seq<string>): nat {
    if |pid| < |diag| then |pid| else |diag|
  }

  /** What makeY leaves: the count it returns, Y_chr.csv and dif_chr.txt. */
  datatype Encoded = Encoded(count: nat, y: seq<string>, dif: seq<string>)

  function Encode(pid: seq<string>, diag: seq<string>): Encoded {
    var n := Pairs(pid, diag);
    Encoded(n, YLines(diag, n), [])
  }

  lemma {:induction false} YLinesSpec(diag: seq<string>, n: nat)
    requires n <= |diag|
    ensures |YLines(diag, n)| == n
    ensures forall k :: 0 <= k < n ==> YLines(diag, n)[k] == YLine(k, diag[k])
  {
    if n > 0 {
      YLinesSpec(diag, n - 1);
    }
  }

  /** A line of Y_chr.csv splits at its comma into the pair's index and its class, both read back by int(). */
  lemma YLineRead(i: int, dline: string)
    ensures Split(YLine(i, dline), ',') == [Render(i), Render(Label(dline)) + "\n"]
    ensures ParseInt(Render(i)) == Ok(i) && ParseInt(Render(Label(dline)) + "\n") == Ok(Label(dline))
  {
    var c := Label(dline);
    RenderIsWord(i);
    RenderIsWord(c);
    assert ',' !in Render(c) + "\n";
    SplitTwo(Render(i), Render(c) + "\n", ',');
    assert YLine(i, dline) == Render(i) + [','] + (Render(c) + "\n");
    ParseRenderBare(i);
    assert IsSpace('\n');
    ParseRender(c, "", "\n");
    assert "" + Render(c) + "\n" == Render(c) + "\n";
  }

  /**
   * makeY returns the number of pairs, the shorter of the two files' lengths, counting
   * the pairs of class 2 too; it writes one line per pair, the k-th reading back as k
   * and as class 1 exactly when the stripped diagnosis is "1", class 0 exactly when it is
   * "0" and class 2 otherwise; dif_chr.txt stays empty.
   */
  lemma EncodeSpec(pid: seq<string>, diag: seq<string>)
    ensures var e := Encode(pid, diag);
      && e.count <= |pid| && e.count <= |diag| && (e.count == |pid| || e.count == |diag|)
      && |e.y| == e.count && e.dif == []
      && forall k :: 0 <= k < e.count ==>
           var parts := Split(e.y[k], ',');
           && |parts| == 2 && ParseInt(parts[0]) == Ok(k)
           && (ParseInt(parts[1]) == Ok(1) <==> Strip(diag[k]) == "1")
           && (ParseInt(parts[1]) == Ok(0) <==> Strip(diag[k]) == "0")
           && (ParseInt(parts[1]) == Ok(2) <==> Strip(diag[k]) != "1" && Strip(diag[k]) != "0")
  {
    var e := Encode(pid, diag);
    YLinesSpec(diag, e.count);
    forall k | 0 <= k < e.count
      ensures var parts := Split(e.y[k], ',');
        && |parts| == 2 && ParseInt(parts[0]) == Ok(k)
        && (ParseInt(parts[1]) == Ok(1) <==> Strip(diag[k]) == "1")
        && (ParseInt(parts[1]) == Ok(0) <==> Strip(diag[k]) == "0")
        && (ParseInt(parts[1]) == Ok(2) <==> Strip(diag[k]) != "1" && Strip(diag[k]) != "0")
    {
      YLineRead(k, diag[k]);
    }
  }

  /** The pid lines are never written: only their number matters. */
  lemma EncodeIgnoresPid(pid: seq<string>, other: seq<string>, diag: seq<string>)
    requires |pid| == |other|
    ensures Encode(pid, diag) == Encode(other, diag)
  {
  }

  /** makeY: one line per pair of zip(pid, diag), numbered from 0. */
  method MakeYFile(pid: seq<string>, diag: seq<string>) returns (e: Encoded)
    ensures e == Encode(pid, diag)
  {
    var y: seq<string> := [];
    var dif: seq<string> := [];
    var i := 0;
    while i < |pid| && i < |diag|
      invariant 0 <= i <= Pairs(pid, diag)
      invariant y == YLines(diag, i)
    {
      var dline := diag[i];
      if Strip(dline) == "1" {
        y := y + [Render(i) + "," + "1" + "\n"];
      } else if Strip(dline) == "0" {
        y := y + [Render(i) + "," + "0" + "\n"];
      } else {
        y := y + [Render(i) + "," + "2" + "\n"];
      }
      i := i + 1;
    }
    e := Encoded(i, y, dif);
  }

  /** The line update_genome_stats writes for a stats line: its stripped text, a tab and the patient count. */
  function StatsLine(line: string, pat: int): string {
    Strip(line) + "\t" + Render(pat) + "\n"
  }

  /** genome_stats.txt after update_genome_stats: the same lines in the same order, each rewritten. */
  function Updated(lines: seq<string>, pat: int): seq<string> {
    seq(|lines|, k requires 0 <= k < |lines| => StatsLine(lines[k], pat))
  }

  /** A word between a tab and a line end is the only word there. */
  lemma TailWords(w: string)
    requires IsWord(w)
    ensures SplitWs("\t" + w + "\n") == [w]
  {
    var tail := "\t" + w + "\n";
    assert IsSpace(tail[0]) && tail[1..] == w + "\n";
    assert IsSpace('\n');
    SplitWsWord(w, "\n");
    assert SplitWs("\n") == SplitWs("\n"[1..]) == [];
  }

  /** The rewritten line has the words of the old one followed by the patient count. */
  lemma StatsLineWords(line: string, pat: int)
    ensures SplitWs(StatsLine(line, pat)) == SplitWs(line) + [Render(pat)]
  {
    var tail := "\t" + Render(pat) + "\n";
    RenderIsWord(pat);
    TailWords(Render(pat));
    assert StatsLine(line, pat) == Strip(line) + tail;
    SplitWsAppend(Strip(line), tail);
    StripSplitWs(line);
  }

  /**
   * After the rewrite the last field of every line is the patient count: it is what
   * load_data's split()[-1] then reads from a chromosome's line.
   */
  lemma StatsLineLast(line: string, pat: int)
    ensures Loader.LastField(StatsLine(line, pat)) == Ok(pat)
  {
    StatsLineWords(line, pat);
    ParseRenderBare(pat);
  }

  /**
   * A line of two words or more keeps its second field, the one patients reads; a line of
   * one word gets the patient count as its second field.
   */
  lemma StatsLineSecond(line: string, pat: int)
    ensures |SplitWs(line)| >= 2 ==> PatientCounts.SecondField(StatsLine(line, pat)) == PatientCounts.SecondField(line)
    ensures |SplitWs(line)| == 1 ==> PatientCounts.SecondField(StatsLine(line, pat)) == Ok(pat)
  {
    StatsLineWords(line, pat);
    ParseRenderBare(pat);
  }

  /** update_genome_stats: the loop over the lines read. */
  method UpdateGenomeStats(lines: seq<string>, pat: int) returns (out: seq<string>)
    ensures out == Updated(lines, pat)
  {
    out := [];
    var i := 0;
    while i < |lines|
      invariant 0 <= i <= |lines|
      invariant |out| == i && forall k :: 0 <= k < i ==> out[k] == StatsLine(lines[k], pat)
    {
      out := out + [Strip(lines[i]) + "\t" + Render(pat) + "\n"];
      i := i + 1;
    }
  }
}
