/** What `main` (src/main.rs) does with the result of the pass: the reason
    it gives when no mission was stored, the ranking, and the rows of the CSV
    output format. */
module Report {
  import opened Text
  import opened Numeric
  import opened Missions
  import opened Pass
  import opened Ranking

  /** The four explanations `main` prints when no mission was stored. */
  datatype FailureReason =
    | NoDataLines      // "No data lines were processed"
    | NoMarsMissions   // "No Mars missions found"
    | NoneCompleted    // "Mars missions found but none with 'Completed' status"
    | AllInvalid       // "Completed Mars missions found but all had invalid data"

  /** The first of the counter tests in `main` that holds. */
  function FailureReasonOf(stats: Statistics): (r: FailureReason)
    ensures CountersNested(stats) ==> (r == AllInvalid <==> stats.completed_mars_missions > 0)
    ensures CountersNested(stats) ==> (r == NoDataLines <==> stats.total_lines == 0 || stats.data_lines == 0)
  {
    if stats.data_lines == 0 then NoDataLines
    else if stats.mars_missions == 0 then NoMarsMissions
    else if stats.completed_mars_missions == 0 then NoneCompleted
    else AllInvalid
  }

  /** A counter is zero exactly when no outcome bumps it. */
  lemma {:induction false} TallyZero(outs: seq<Outcome>, c: Counter)
    ensures Tally(outs, c) == 0 <==> forall k :: 0 <= k < |outs| ==> !Bumps(outs[k], c)
  {
    if outs != [] {
      var p := outs[..|outs| - 1];
      TallyZero(p, c);
      assert forall k :: 0 <= k < |p| ==> p[k] == outs[k];
    }
  }

  /** What each failure reason says about the lines: no data line at all;
      data lines but none reached the Mars check; Mars missions but none
      reached the Completed check; or some completed Mars mission. */
  lemma FailureReasonMeaning(outs: seq<Outcome>)
    ensures var r := FailureReasonOf(StatsOf(outs));
      && (r == NoDataLines <==> forall k :: 0 <= k < |outs| ==> outs[k].Skipped?)
      && (r == NoMarsMissions <==>
            (exists k :: 0 <= k < |outs| && !outs[k].Skipped?)
            && forall k :: 0 <= k < |outs| ==> outs[k].Skipped? || outs[k].Malformed? || outs[k].NotMars?)
      && (r == NoneCompleted <==>
            (exists k :: 0 <= k < |outs| && Bumps(outs[k], MarsMissions))
            && forall k :: 0 <= k < |outs| ==> !Bumps(outs[k], CompletedMarsMissions))
      && (r == AllInvalid <==> exists k :: 0 <= k < |outs| && Bumps(outs[k], CompletedMarsMissions))
  {
    TallyZero(outs, DataLines);
    TallyZero(outs, MarsMissions);
    TallyZero(outs, CompletedMarsMissions);
  }

  /** When nothing was stored and the reason is `AllInvalid`, some completed
      Mars mission was rejected for its duration or its security code. */
  lemma AllInvalidMeansRejected(outs: seq<Outcome>)
    requires AcceptedMissions(outs) == []
    requires FailureReasonOf(StatsOf(outs)) == AllInvalid
    ensures exists k :: 0 <= k < |outs| && (outs[k].ZeroDuration? || outs[k].BadCode?)
  {
    FailureReasonMeaning(outs);
    AcceptedCount(outs);
    TallyZero(outs, ValidMissions);
  }

  lemma OutcomeSkipped(lines: seq<string>, k: nat)
    requires k < |lines|
    ensures Outcomes(lines)[k].Skipped? <==> IsCommentOrMetadata(lines[k])
  {
  }

  /** No data line means every line was blank, a comment or metadata. */
  lemma NoDataLinesMeansAllSkipped(lines: seq<string>)
    ensures FailureReasonOf(StatsOf(Outcomes(lines))) == NoDataLines <==>
            forall k :: 0 <= k < |lines| ==> IsCommentOrMetadata(lines[k])
  {
    FailureReasonMeaning(Outcomes(lines));
    forall k | 0 <= k < |lines| ensures Outcomes(lines)[k].Skipped? <==> IsCommentOrMetadata(lines[k]) {
      OutcomeSkipped(lines, k);
    }
  }

  /** Every stored mission is the mission of some accepted line. */
  lemma {:induction false} AcceptedFrom(outs: seq<Outcome>)
    ensures forall m :: m in AcceptedMissions(outs) ==>
              exists k :: 0 <= k < |outs| && outs[k] == Accepted(m)
  {
    if outs != [] {
      var p := outs[..|outs| - 1];
      AcceptedFrom(p);
      forall m | m in AcceptedMissions(outs)
        ensures exists k :: 0 <= k < |outs| && outs[k] == Accepted(m)
      {
        if m in AcceptedMissions(p) {
          var k :| 0 <= k < |p| && p[k] == Accepted(m);
          assert outs[k] == p[k];
        } else {
          assert outs[|outs| - 1] == Accepted(m);
        }
      }
    }
  }

  /** Accepted outcomes hold completed Mars missions shaped by `from_line`. */
  predicate ParsedOutcomes(outs: seq<Outcome>) {
    forall k :: 0 <= k < |outs| && outs[k].Accepted? ==>
      IsCompletedMarsMission(outs[k].mission) && WellFormed(outs[k].mission)
  }

  lemma OutcomeParsed(lines: seq<string>, k: nat)
    requires k < |lines| && Outcomes(lines)[k].Accepted?
    ensures IsCompletedMarsMission(Outcomes(lines)[k].mission) && WellFormed(Outcomes(lines)[k].mission)
  {
    ClassifyAccepted(lines[k], k + 1, Outcomes(lines)[k].mission);
    FromLineWellFormed(lines[k], k + 1);
  }

  lemma OutcomesParsed(lines: seq<string>)
    ensures ParsedOutcomes(Outcomes(lines))
  {
    forall k | 0 <= k < |Outcomes(lines)| && Outcomes(lines)[k].Accepted?
      ensures IsCompletedMarsMission(Outcomes(lines)[k].mission) && WellFormed(Outcomes(lines)[k].mission)
    {
      OutcomeParsed(lines, k);
    }
  }

  /** Every stored mission satisfies `is_completed_mars_mission` and has
      the shape `from_line` gives its fields. */
  lemma StoredAreWellFormed(outs: seq<Outcome>)
    requires ParsedOutcomes(outs)
    ensures forall m :: m in AcceptedMissions(outs) ==> IsCompletedMarsMission(m) && WellFormed(m)
  {
    AcceptedFrom(outs);
    forall m | m in AcceptedMissions(outs) ensures IsCompletedMarsMission(m) && WellFormed(m) {
      var k :| 0 <= k < |outs| && outs[k] == Accepted(m);
    }
  }

  /** What `main` ends with, short of printing: the failure reason and the
      counters, or the ranked missions and the counters. */
  datatype RunResult =
    | Failure(reason: FailureReason, stats: Statistics)
    | Success(ranked: seq<Mission>, stats: Statistics)

  /** `main` after the file is read: run the pass, give the failure reason
      when nothing was stored, else sort by descending duration and keep
      the `top` longest. */
  method Run(lines: seq<string>, top: nat) returns (r: RunResult)
    ensures r.stats == StatsOf(Outcomes(lines))
    ensures r.Failure? <==> AcceptedMissions(Outcomes(lines)) == []
    ensures r.Failure? ==> r.reason == FailureReasonOf(r.stats)
    ensures r.Success? ==> r.ranked == Ranked(AcceptedMissions(Outcomes(lines)), top)
    ensures r.Success? ==>
      && |r.ranked| == Min(top, r.stats.valid_missions)
      && ByDuration(r.ranked) && TiesInLineOrder(r.ranked)
      && forall m :: m in r.ranked ==> IsCompletedMarsMission(m) && WellFormed(m)
  {
    var missions, stats := ProcessLines(lines);
    if |missions| == 0 {
      return Failure(FailureReasonOf(stats), stats);
    }
    var ranked := RankMissions(missions, top);
    RankedOrder(missions, top);
    OutcomesParsed(lines);
    StoredAreWellFormed(Outcomes(lines));
    forall m | m in ranked ensures m in missions {
      assert m in multiset(ranked);
    }
    r := Success(ranked, stats);
  }

  /** The column names of the CSV header. */
  function CsvColumns(): seq<string> {
    ["Rank", "Date", "Mission ID", "Destination", "Status", "Crew Size",
     "Duration (days)", "Success Rate", "Security Code", "Line Number"]
  }

  /** The header line `print_csv_output` prints first. */
  function CsvHeader(): (h: string)
    ensures Split(h, ',') == CsvColumns() && |CsvColumns()| == 10
  {
    SplitJoin(CsvColumns(), ',');
    Join(CsvColumns(), ',')
  }

  /** The cells of the row of the mission ranked `idx + 1`: destination and
      status are printed as the fixed words "Mars" and "Completed". */
  function CsvFields(idx: nat, m: Mission): (cells: seq<string>)
    ensures |cells| == |CsvColumns()|
    ensures cells[0] == FormatNat(idx + 1) && cells[|cells| - 1] == FormatNat(m.line_number)
  {
    [FormatNat(idx + 1), m.date, m.mission_id, "Mars", "Completed",
     FormatNat(m.crew_size), FormatNat(m.duration), m.success_rate,
     m.security_code, FormatNat(m.line_number)]
  }

  /** The row printed for the mission at index `idx` of the ranked list. */
  function CsvRow(idx: nat, m: Mission): (row: string)
    ensures FormatNat(idx + 1) <= row
  {
    Join(CsvFields(idx, m), ',')
  }

  /** No digit string contains a comma. */
  lemma NumeralHasNoComma(n: nat)
    ensures ',' !in FormatNat(n)
  {
    var s := FormatNat(n);
    assert forall i :: 0 <= i < |s| ==> IsDigit(s[i]);
  }

  /** A valid security code contains no comma. */
  lemma SecurityCodeHasNoComma(code: string)
    requires IsValidSecurityCode(code)
    ensures ',' !in code
  {
    assert forall i :: 0 <= i < |code| ==> code[i] != ',';
  }

  /** The text cells of a mission's row hold no comma. */
  predicate CommaFree(m: Mission) {
    ',' !in m.date && ',' !in m.mission_id && ',' !in m.success_rate && ',' !in m.security_code
  }

  /** A stored mission's row needs only its date and mission ID to be free of
      commas: a valid security code and a success rate accepted by
      `from_line` never hold one. */
  lemma StoredCommaFree(m: Mission)
    requires ',' !in m.date && ',' !in m.mission_id
    requires WellFormed(m) && IsValidSecurityCode(m.security_code)
    ensures CommaFree(m)
  {
    FloatLiteralShape(m.success_rate);
    SecurityCodeHasNoComma(m.security_code);
  }

  /** No cell of the row of a comma-free mission holds a comma. */
  lemma CsvFieldsHaveNoComma(idx: nat, m: Mission)
    requires CommaFree(m)
    ensures forall k :: 0 <= k < |CsvFields(idx, m)| ==> ',' !in CsvFields(idx, m)[k]
  {
    var f := CsvFields(idx, m);
    forall k | 0 <= k < |f| ensures ',' !in f[k] {
      if k == 0 {
        NumeralHasNoComma(idx + 1);
      } else if k == 5 {
        NumeralHasNoComma(m.crew_size);
      } else if k == 6 {
        NumeralHasNoComma(m.duration);
      } else if k == 9 {
        NumeralHasNoComma(m.line_number);
      }
    }
  }

  /** A row splits back into its ten cells. */
  lemma CsvRowColumns(idx: nat, m: Mission)
    requires CommaFree(m)
    ensures Split(CsvRow(idx, m), ',') == CsvFields(idx, m)
    ensures |CsvFields(idx, m)| == |CsvColumns()|
  {
    CsvFieldsHaveNoComma(idx, m);
    SplitJoin(CsvFields(idx, m), ',');
  }

  /** The rows are not quoted: a comma inside a mission ID adds a column
      and shifts every later cell right. */
  lemma CommaInMissionIdShiftsColumns(idx: nat, m: Mission)
    requires ',' in m.mission_id
    ensures |Split(CsvRow(idx, m), ',')| > |CsvColumns()|
  {
    var f := CsvFields(idx, m);
    OccurrencesOfJoin(f, ',');
    OccurrencesPositive(m.mission_id, ',');
    assert Occurrences(Join(f, ','), ',') >= 9 + Occurrences(f[2], ',') by {
      SumOccurrencesAtLeast(f, ',', 2);
    }
  }

  /** Occurrences of `c` in the pieces of a join and the separators between them. */
  lemma {:induction false} OccurrencesOfJoin(parts: seq<string>, sep: char)
    requires |parts| >= 1
    ensures Occurrences(Join(parts, sep), sep) == |parts| - 1 + SumOccurrences(parts, sep)
  {
    if |parts| > 1 {
      OccurrencesOfJoin(parts[1..], sep);
      OccurrencesAppend(parts[0] + [sep], Join(parts[1..], sep), sep);
      OccurrencesAppend(parts[0], [sep], sep);
      assert [sep][1..] == [];
    }
  }

  function SumOccurrences(parts: seq<string>, c: char): nat {
    if parts == [] then 0 else Occurrences(parts[0], c) + SumOccurrences(parts[1..], c)
  }

  lemma {:induction false} SumOccurrencesAtLeast(parts: seq<string>, c: char, k: nat)
    requires k < |parts|
    ensures SumOccurrences(parts, c) >= Occurrences(parts[k], c)
  {
    if k > 0 {
      SumOccurrencesAtLeast(parts[1..], c, k - 1);
    }
  }

  lemma {:induction false} OccurrencesAppend(a: string, b: string, c: char)
    ensures Occurrences(a + b, c) == Occurrences(a, c) + Occurrences(b, c)
  {
    if a == [] {
      assert a + b == b;
    } else {
      OccurrencesAppend(a[1..], b, c);
      assert (a + b)[0] == a[0] && (a + b)[1..] == a[1..] + b;
    }
  }

  lemma {:induction false} OccurrencesPositive(s: string, c: char)
    requires c in s
    ensures Occurrences(s, c) > 0
  {
    if s[0] != c {
      OccurrencesPositive(s[1..], c);
    }
  }

  /** What `print_csv_output` prints: the header, then one row per ranked
      mission. */
  function CsvOutput(missions: seq<Mission>): (out: seq<string>)
    ensures |out| == |missions| + 1 && Split(out[0], ',') == CsvColumns()
  {
    var rows := seq(|missions|, i requires 0 <= i < |missions| => CsvRow(i, missions[i]));
    assert ([CsvHeader()] + rows)[0] == CsvHeader();
    [CsvHeader()] + rows
  }

  lemma CsvOutputRow(missions: seq<Mission>, i: nat)
    requires i < |missions|
    ensures CsvOutput(missions)[i + 1] == CsvRow(i, missions[i])
  {
  }

  /** Every row of the output splits back into the ten cells of its mission. */
  lemma CsvOutputColumns(missions: seq<Mission>)
    requires forall m :: m in missions ==> CommaFree(m)
    ensures |CsvOutput(missions)| == |missions| + 1
    ensures Split(CsvOutput(missions)[0], ',') == CsvColumns()
    ensures forall i :: 0 <= i < |missions| ==> Split(CsvOutput(missions)[i + 1], ',') == CsvFields(i, missions[i])
  {
    forall i | 0 <= i < |missions|
      ensures Split(CsvOutput(missions)[i + 1], ',') == CsvFields(i, missions[i])
    {
      assert missions[i] in missions;
      CsvOutputRow(missions, i);
      CsvRowColumns(i, missions[i]);
    }
  }

  /** The first cell of the `i`-th row is the rank `i` in decimal: ranks
      count up from 1 down the output. */
  lemma CsvOutputRanks(missions: seq<Mission>)
    requires forall m :: m in missions ==> CommaFree(m)
    ensures forall i :: 1 <= i <= |missions| ==> Split(CsvOutput(missions)[i], ',')[0] == FormatNat(i)
  {
    forall i | 1 <= i <= |missions|
      ensures Split(CsvOutput(missions)[i], ',')[0] == FormatNat(i)
    {
      var j := i - 1;
      assert missions[j] in missions;
      CsvOutputRow(missions, j);
      CsvRowColumns(j, missions[j]);
    }
  }
}
