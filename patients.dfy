/**
 * patients: the number of patients of every data set, read from the second field of the
 * lines of its genome_stats.txt, which must agree for all chromosomes.
 */
module PatientCounts {
  import opened Outcomes
  import opened PyStr
  import opened Loader

  /** `int(line.split()[1])` */
  function SecondField(line: string): Result<int> {
    var w := SplitWs(line);
    if |w| < 2 then Err(IndexError) else ParseInt(w[1])
  }

  /** The check of one later line: its field must read as the first line's p. */
  function Agrees(field: string -> Result<int>, line: string, p: int): Result<int> {
    match field(line)
    case Err(e) => Err(e)
    case Ok(v) => if v != p then Err(PatientCountMismatch) else Ok(v)
  }

  /**
   * The first line's field p ("" stands for the line readline gives on an empty file),
   * which every later line's field must repeat.
   */
  function Consensus(field: string -> Result<int>, lines: seq<string>): Result<int> {
    var first := if lines == [] then "" else lines[0];
    match field(first)
    case Err(e) => Err(e)
    case Ok(p) =>
      var rest := if lines == [] then [] else lines[1..];
      match Each((l: string) => Agrees(field, l, p), rest)
      case Err(e) => Err(e)
      case Ok(_) => Ok(p)
  }

  /** One data set's count: the second field of the lines of its genome_stats.txt. */
  function PatientCount(stats: seq<string>): Result<int> {
    Consensus(SecondField, stats)
  }

  /** `patients(dataset)`: the count of every data set, in the dict's order. */
  function Patients(sets: seq<DataSet>): Result<seq<int>> {
    Each((d: DataSet) => PatientCount(d.stats), sets)
  }

  /**
   * The lines agree on p exactly when there is a line and every line's field reads as p
   * (an empty file reads only if the field of "" does); the lines are refused as a mismatch
   * only when a later line's field reads and differs from the first line's.
   */
  lemma ConsensusSpec(field: string -> Result<int>, lines: seq<string>, p: int)
    ensures Consensus(field, lines) == Ok(p) <==>
      if lines == [] then field("") == Ok(p) else forall k :: 0 <= k < |lines| ==> field(lines[k]) == Ok(p)
    ensures Consensus(field, lines) == Err(PatientCountMismatch) ==>
      (lines == [] && field("") == Err(PatientCountMismatch)) ||
      (exists k :: 0 <= k < |lines| && field(lines[k]) == Err(PatientCountMismatch)) ||
      (exists k :: 0 < k < |lines| && field(lines[k]).Ok? && field(lines[0]).Ok? && field(lines[k]).value != field(lines[0]).value)
  {
    if lines != [] && field(lines[0]).Ok? {
      var q := field(lines[0]).value;
      var f := (l: string) => Agrees(field, l, q);
      var rest := lines[1..];
      EachSpec(f, rest);
      forall k | 0 < k < |lines| ensures rest[k - 1] == lines[k] {
      }
      if Consensus(field, lines) == Ok(p) {
        forall k | 0 <= k < |lines| ensures field(lines[k]) == Ok(p) {
          if k > 0 {
            assert f(rest[k - 1]).Ok?;
          }
        }
      }
      if forall k :: 0 <= k < |lines| ==> field(lines[k]) == Ok(p) {
        forall k | 0 <= k < |rest| ensures f(rest[k]).Ok? {
          assert rest[k] == lines[k + 1];
        }
      }
      if Consensus(field, lines) == Err(PatientCountMismatch) {
        var k :| 0 <= k < |rest| && f(rest[k]).Err? && PatientCountMismatch == f(rest[k]).error;
        assert rest[k] == lines[k + 1];
      }
    }
  }

  /** The second field of a line never reads as the mismatch error. */
  lemma SecondFieldError(line: string)
    ensures SecondField(line) != Err(PatientCountMismatch)
  {
  }

  /**
   * A data set has p patients exactly when its genome_stats.txt has a line and every line's
   * second field reads as p; the count is refused as a mismatch only when a later line's
   * count reads and differs from the first line's.
   */
  lemma PatientCountSpec(stats: seq<string>, p: int)
    ensures PatientCount(stats) == Ok(p) <==> stats != [] && forall k :: 0 <= k < |stats| ==> SecondField(stats[k]) == Ok(p)
    ensures PatientCount(stats) == Err(PatientCountMismatch) ==>
      exists k :: 0 < k < |stats| && SecondField(stats[k]).Ok? && SecondField(stats[0]).Ok? &&
        SecondField(stats[k]).value != SecondField(stats[0]).value
  {
    ConsensusSpec(SecondField, stats, p);
    assert SecondField("") == Err(IndexError);
    forall k | 0 <= k < |stats| ensures SecondField(stats[k]) != Err(PatientCountMismatch) {
      SecondFieldError(stats[k]);
    }
  }

  /** Data set k's count in the result is the count its genome_stats.txt gives, and any data set's failure fails the whole. */
  lemma PatientsSpec(sets: seq<DataSet>)
    ensures var r := Patients(sets);
      && (r.Ok? <==> forall k :: 0 <= k < |sets| ==> PatientCount(sets[k].stats).Ok?)
      && (r.Ok? ==> |r.value| == |sets| && forall k :: 0 <= k < |sets| ==> PatientCount(sets[k].stats) == Ok(r.value[k]))
  {
    EachSpec((d: DataSet) => PatientCount(d.stats), sets);
  }

  /** One data set's loop: the first line gives p, and every later line is compared with it. */
  method ReadPatientCount(stats: seq<string>) returns (r: Result<int>)
    ensures r == PatientCount(stats)
  {
    var line := if stats == [] then "" else stats[0];
    var p := SecondField(line);
    if p.Err? {
      return Err(p.error);
    }
    ghost var f := (l: string) => Agrees(SecondField, l, p.value);
    var rest := if stats == [] then [] else stats[1..];
    ghost var seen: seq<int> := [];
    var i := 0;
    while i < |rest|
      invariant 0 <= i <= |rest|
      invariant Each(f, rest[..i]) == Ok(seen)
    {
      var v := SecondField(rest[i]);
      if v.Err? {
        EachStop(f, rest, i, v.error);
        return Err(v.error);
      }
      if v.value != p.value {
        EachStop(f, rest, i, PatientCountMismatch);
        return Err(PatientCountMismatch);
      }
      EachNext(f, rest, i, seen, v.value);
      seen := seen + [v.value];
      i := i + 1;
    }
    assert rest[..|rest|] == rest;
    r := Ok(p.value);
  }

  /** `patients(dataset)`: the loop over the data sets. */
  method CountPatients(sets: seq<DataSet>) returns (r: Result<seq<int>>)
    ensures r == Patients(sets)
  {
    ghost var f := (d: DataSet) => PatientCount(d.stats);
    var pat: seq<int> := [];
    var k := 0;
    while k < |sets|
      invariant 0 <= k <= |sets|
      invariant Each(f, sets[..k]) == Ok(pat)
    {
      var p := ReadPatientCount(sets[k].stats);
      if p.Err? {
        EachStop(f, sets, k, p.error);
        return Err(p.error);
      }
      EachNext(f, sets, k, pat, p.value);
      pat := pat + [p.value];
      k := k + 1;
    }
    assert sets[..|sets|] == sets;
    r := Ok(pat);
  }
}
