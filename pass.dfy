/** The single pass of `process_file` (src/main.rs) over the lines of the log:
    each line is skipped, rejected at some stage, or stored as a valid
    mission, and six counters record how far the lines got. The file itself
    is not read here; the pass takes the lines already read. */
module Pass {
  import opened Text
  import opened Numeric
  import opened Missions

  /** Where one line ends up, in the order of the checks. */
  datatype Outcome =
    | Skipped                    // blank, comment or metadata line
    | Malformed                  // a data line that `from_line` rejects
    | NotMars                    // parsed, destination is not "mars"
    | NotCompleted               // a Mars mission whose status is not "completed"
    | ZeroDuration               // a completed Mars mission lasting 0 days
    | BadCode                    // ... with a security code of the wrong shape
    | Accepted(mission: Mission) // stored

  /** The fate of a data line, given what `from_line` made of it: the Mars,
      Completed, duration and security-code checks are made in that order. */
  function Stage(parsed: Option<Mission>): (o: Outcome)
    ensures o != Skipped
    ensures o == Malformed <==> parsed.None?
    ensures o.Accepted? ==> parsed == Some(o.mission) && IsCompletedMarsMission(o.mission)
  {
    if parsed.None? then Malformed
    else
      var m := parsed.value;
      if !EqIgnoreAsciiCase(m.destination, "mars") then NotMars
      else if !EqIgnoreAsciiCase(m.status, "completed") then NotCompleted
      else if m.duration == 0 then ZeroDuration
      else if !IsValidSecurityCode(m.security_code) then BadCode
      else Accepted(m)
  }

  /** The fate of line `line_number` (1-based) with text `line`. */
  function Classify(line: string, line_number: nat): (o: Outcome)
    ensures o.Accepted? ==> o.mission.line_number == line_number && IsCompletedMarsMission(o.mission)
  {
    if IsCommentOrMetadata(line) then Skipped else Stage(FromLine(line, line_number))
  }

  /** A parsed line is stored exactly when its mission satisfies
      `is_completed_mars_mission`, and then the stored mission is the parsed one. */
  lemma StageAccepted(parsed: Option<Mission>, m: Mission)
    ensures Stage(parsed) == Accepted(m) <==> parsed == Some(m) && IsCompletedMarsMission(m)
  {
  }

  /** A line is stored exactly when it is a data line that parses into a
      mission satisfying `is_completed_mars_mission`. */
  lemma ClassifyAccepted(line: string, line_number: nat, m: Mission)
    ensures Classify(line, line_number) == Accepted(m) <==>
            !IsCommentOrMetadata(line) && FromLine(line, line_number) == Some(m) && IsCompletedMarsMission(m)
  {
    StageAccepted(FromLine(line, line_number), m);
  }

  /** A stored mission carries the number of its line. */
  lemma ClassifyNumbers(line: string, line_number: nat)
    requires Classify(line, line_number).Accepted?
    ensures Classify(line, line_number).mission.line_number == line_number
    ensures IsCompletedMarsMission(Classify(line, line_number).mission)
  {
    var parsed := FromLine(line, line_number);
    StageAccepted(parsed, Classify(line, line_number).mission);
  }

  /** The outcome of every line, the first line numbered 1. */
  function Outcomes(lines: seq<string>): (outs: seq<Outcome>)
    ensures |outs| == |lines|
  {
    seq(|lines|, k requires 0 <= k < |lines| => Classify(lines[k], k + 1))
  }

  /** The counters of `Statistics`, and the three kinds of error and the
      skipped lines counted apart. */
  datatype Counter =
    | TotalLines | DataLines | MarsMissions | CompletedMarsMissions | ValidMissions | Errors
    | SkippedLines | ParseFailures | ZeroDurations | BadCodes

  /** Whether a line with outcome `o` adds one to counter `c`. */
  predicate Bumps(o: Outcome, c: Counter) {
    match c
    case TotalLines => true
    case DataLines => !o.Skipped?
    case MarsMissions => o.NotCompleted? || o.ZeroDuration? || o.BadCode? || o.Accepted?
    case CompletedMarsMissions => o.ZeroDuration? || o.BadCode? || o.Accepted?
    case ValidMissions => o.Accepted?
    case Errors => o.Malformed? || o.ZeroDuration? || o.BadCode?
    case SkippedLines => o.Skipped?
    case ParseFailures => o.Malformed?
    case ZeroDurations => o.ZeroDuration?
    case BadCodes => o.BadCode?
  }

  /** How many of the outcomes bump counter `c`. */
  function Tally(outs: seq<Outcome>, c: Counter): (n: nat)
    ensures n <= |outs|
  {
    if outs == [] then 0
    else Tally(outs[..|outs| - 1], c) + (if Bumps(outs[|outs| - 1], c) then 1 else 0)
  }

  /** The missions of the accepted lines, in line order. */
  function AcceptedMissions(outs: seq<Outcome>): seq<Mission> {
    if outs == [] then []
    else
      var last := outs[|outs| - 1];
      AcceptedMissions(outs[..|outs| - 1]) + (if last.Accepted? then [last.mission] else [])
  }

  /** The `Statistics` struct: six counters. */
  datatype Statistics = Statistics(
    total_lines: nat,
    data_lines: nat,
    mars_missions: nat,
    completed_mars_missions: nat,
    valid_missions: nat,
    errors: nat)

  function StatsOf(outs: seq<Outcome>): Statistics {
    Statistics(Tally(outs, TotalLines), Tally(outs, DataLines), Tally(outs, MarsMissions),
               Tally(outs, CompletedMarsMissions), Tally(outs, ValidMissions), Tally(outs, Errors))
  }

  /** The counters are nested: every stored mission is a completed Mars
      mission, every such is a Mars mission, every such a data line. */
  predicate CountersNested(stats: Statistics) {
    stats.valid_missions <= stats.completed_mars_missions <= stats.mars_missions
    <= stats.data_lines <= stats.total_lines
  }

  lemma TallyAppend(outs: seq<Outcome>, o: Outcome)
    ensures forall c :: Tally(outs + [o], c) == Tally(outs, c) + (if Bumps(o, c) then 1 else 0)
    ensures AcceptedMissions(outs + [o]) == AcceptedMissions(outs) + (if o.Accepted? then [o.mission] else [])
  {
    assert (outs + [o])[..|outs|] == outs;
  }

  /** The counters a line with outcome `o` bumps once it is known to be a
      data line: the Mars, Completed and valid counters as far as the line
      got, and the errors. */
  function Advance(st: Statistics, o: Outcome): (r: Statistics)
    ensures r.total_lines == st.total_lines && r.data_lines == st.data_lines
    ensures r.valid_missions == st.valid_missions + (if o.Accepted? then 1 else 0)
  {
    st.(mars_missions := st.mars_missions + (if o.NotCompleted? || o.ZeroDuration? || o.BadCode? || o.Accepted? then 1 else 0),
        completed_mars_missions := st.completed_mars_missions + (if o.ZeroDuration? || o.BadCode? || o.Accepted? then 1 else 0),
        valid_missions := st.valid_missions + (if o.Accepted? then 1 else 0),
        errors := st.errors + (if o.Malformed? || o.ZeroDuration? || o.BadCode? then 1 else 0))
  }

  /** The counters after one more line with outcome `o`: the total always
      grows, the data lines unless the line is skipped, and the rest as far
      as the line got. */
  function Bump(st: Statistics, o: Outcome): (r: Statistics)
    ensures r.total_lines == st.total_lines + 1
    ensures r.data_lines == st.data_lines + (if o.Skipped? then 0 else 1)
    ensures r.valid_missions == st.valid_missions + (if o.Accepted? then 1 else 0)
  {
    Advance(st.(total_lines := st.total_lines + 1, data_lines := st.data_lines + (if o.Skipped? then 0 else 1)), o)
  }

  /** One more line bumps the counters as its outcome says. */
  lemma StatsOfAppend(outs: seq<Outcome>, o: Outcome)
    ensures StatsOf(outs + [o]) == Bump(StatsOf(outs), o)
    ensures AcceptedMissions(outs + [o]) == AcceptedMissions(outs) + (if o.Accepted? then [o.mission] else [])
  {
    TallyAppend(outs, o);
  }

  /** A counter that every line bumping `c1` also bumps never falls below `c1`. */
  lemma {:induction false} TallyMonotone(outs: seq<Outcome>, c1: Counter, c2: Counter)
    requires forall o :: Bumps(o, c1) ==> Bumps(o, c2)
    ensures Tally(outs, c1) <= Tally(outs, c2)
  {
    if outs != [] {
      TallyMonotone(outs[..|outs| - 1], c1, c2);
    }
  }

  lemma {:induction false} TallyTotal(outs: seq<Outcome>)
    ensures Tally(outs, TotalLines) == |outs|
  {
    if outs != [] {
      TallyTotal(outs[..|outs| - 1]);
    }
  }

  /** Every line is either skipped or a data line. */
  lemma {:induction false} SkippedPlusDataIsTotal(outs: seq<Outcome>)
    ensures Tally(outs, SkippedLines) + Tally(outs, DataLines) == |outs|
  {
    if outs != [] {
      SkippedPlusDataIsTotal(outs[..|outs| - 1]);
    }
  }

  /** The error counter is the sum of its three causes: a data line that does
      not parse, a completed Mars mission of zero days, and one with a bad
      security code. */
  lemma {:induction false} ErrorsBreakdown(outs: seq<Outcome>)
    ensures Tally(outs, Errors) == Tally(outs, ParseFailures) + Tally(outs, ZeroDurations) + Tally(outs, BadCodes)
  {
    if outs != [] {
      ErrorsBreakdown(outs[..|outs| - 1]);
    }
  }

  lemma StatisticsNested(outs: seq<Outcome>)
    ensures CountersNested(StatsOf(outs))
    ensures StatsOf(outs).total_lines == |outs|
  {
    TallyMonotone(outs, ValidMissions, CompletedMarsMissions);
    TallyMonotone(outs, CompletedMarsMissions, MarsMissions);
    TallyMonotone(outs, MarsMissions, DataLines);
    TallyMonotone(outs, DataLines, TotalLines);
    TallyTotal(outs);
  }

  /** One stored mission per valid line. */
  lemma {:induction false} AcceptedCount(outs: seq<Outcome>)
    ensures |AcceptedMissions(outs)| == Tally(outs, ValidMissions)
  {
    if outs != [] {
      AcceptedCount(outs[..|outs| - 1]);
    }
  }

  /** Outcomes as `Classify` produces them for lines numbered from 1. */
  predicate NumberedOutcomes(outs: seq<Outcome>) {
    forall k :: 0 <= k < |outs| && outs[k].Accepted? ==>
      outs[k].mission.line_number == k + 1 && IsCompletedMarsMission(outs[k].mission)
  }

  /** Missions that all satisfy `is_completed_mars_mission`, carry line
      numbers between 1 and `n`, and come in strictly increasing line order. */
  predicate StoredInOrder(ms: seq<Mission>, n: nat) {
    && (forall k :: 0 <= k < |ms| ==> IsCompletedMarsMission(ms[k]) && 1 <= ms[k].line_number <= n)
    && (forall k, l :: 0 <= k < l < |ms| ==> ms[k].line_number < ms[l].line_number)
  }

  /** The stored missions of numbered outcomes are stored in line order. */
  lemma {:induction false} AcceptedMissionsOrdered(outs: seq<Outcome>)
    requires NumberedOutcomes(outs)
    ensures StoredInOrder(AcceptedMissions(outs), |outs|)
  {
    if outs != [] {
      var prefix := outs[..|outs| - 1];
      assert NumberedOutcomes(prefix) by {
        forall k | 0 <= k < |prefix| && prefix[k].Accepted?
          ensures prefix[k].mission.line_number == k + 1 && IsCompletedMarsMission(prefix[k].mission)
        {
          assert prefix[k] == outs[k];
        }
      }
      AcceptedMissionsOrdered(prefix);
      var last := outs[|outs| - 1];
      var pms := AcceptedMissions(prefix);
      if last.Accepted? {
        var ms := pms + [last.mission];
        assert AcceptedMissions(outs) == ms;
        assert last.mission.line_number == |outs|;
        forall k | 0 <= k < |ms|
          ensures IsCompletedMarsMission(ms[k]) && 1 <= ms[k].line_number <= |outs|
        {
          if k < |pms| { assert ms[k] == pms[k]; }
        }
        forall k, l | 0 <= k < l < |ms|
          ensures ms[k].line_number < ms[l].line_number
        {
          assert ms[k] == pms[k];
          if l < |pms| { assert ms[l] == pms[l]; }
        }
      } else {
        assert AcceptedMissions(outs) == pms;
      }
    }
  }

  lemma OutcomeNumbered(lines: seq<string>, k: nat)
    requires k < |lines| && Outcomes(lines)[k].Accepted?
    ensures Outcomes(lines)[k].mission.line_number == k + 1
    ensures IsCompletedMarsMission(Outcomes(lines)[k].mission)
  {
    var o := Classify(lines[k], k + 1);
    assert Outcomes(lines)[k] == o;
    assert o == Stage(FromLine(lines[k], k + 1));
  }

  lemma OutcomesAreNumbered(lines: seq<string>)
    ensures NumberedOutcomes(Outcomes(lines))
  {
    forall k | 0 <= k < |Outcomes(lines)| && Outcomes(lines)[k].Accepted?
      ensures Outcomes(lines)[k].mission.line_number == k + 1 && IsCompletedMarsMission(Outcomes(lines)[k].mission)
    {
      OutcomeNumbered(lines, k);
    }
  }

  lemma OutcomesOfPrefix(lines: seq<string>, i: nat)
    requires i < |lines|
    ensures Outcomes(lines[..i + 1]) == Outcomes(lines[..i]) + [Classify(lines[i], i + 1)]
  {
    var longer, shorter := Outcomes(lines[..i + 1]), Outcomes(lines[..i]);
    forall k | 0 <= k < i
      ensures longer[k] == shorter[k]
    {
      assert lines[..i + 1][k] == lines[..i][k];
    }
    assert longer[i] == Classify(lines[i], i + 1);
  }

  /** What the loop of `process_file` does with the result of parsing a
      data line, in order: a line that did not parse is an error; a mission
      not bound for Mars stops there; otherwise it counts as a Mars mission,
      and one that is not completed stops there; otherwise it counts as
      completed, and a zero duration or a bad security code is an error; a
      mission that passes every check is valid and stored. */
  method CountParsed(parsed: Option<Mission>, stats: Statistics, missions: seq<Mission>)
    returns (stats': Statistics, missions': seq<Mission>)
    ensures var o := Stage(parsed);
            stats' == Advance(stats, o) && missions' == missions + (if o.Accepted? then [o.mission] else [])
  {
    stats', missions' := stats, missions;
    if parsed.None? {
      stats' := stats'.(errors := stats'.errors + 1);
      return;
    }
    var mission := parsed.value;

    if !EqIgnoreAsciiCase(mission.destination, "mars") {
      return;
    }
    stats' := stats'.(mars_missions := stats'.mars_missions + 1);

    if !EqIgnoreAsciiCase(mission.status, "completed") {
      return;
    }
    stats' := stats'.(completed_mars_missions := stats'.completed_mars_missions + 1);

    if mission.duration == 0 {
      stats' := stats'.(errors := stats'.errors + 1);
      return;
    }

    if !IsValidSecurityCode(mission.security_code) {
      stats' := stats'.(errors := stats'.errors + 1);
      return;
    }

    stats' := stats'.(valid_missions := stats'.valid_missions + 1);
    missions' := missions' + [mission];
  }

  /** The body of the loop of `process_file` for one line: the line always
      bumps `total_lines`; a skipped line stops there; otherwise
      `data_lines` is bumped before the line is parsed, and the parse result
      goes through the checks of `CountParsed`. */
  method ProcessLine(line: string, line_number: nat, stats: Statistics, missions: seq<Mission>)
    returns (stats': Statistics, missions': seq<Mission>)
    ensures var o := Classify(line, line_number);
            stats' == Bump(stats, o) && missions' == missions + (if o.Accepted? then [o.mission] else [])
  {
    stats', missions' := stats, missions;
    stats' := stats'.(total_lines := stats'.total_lines + 1);

    if IsCommentOrMetadata(line) {
      return;
    }
    stats' := stats'.(data_lines := stats'.data_lines + 1);

    var parsed := FromLine(line, line_number);
    stats', missions' := CountParsed(parsed, stats', missions');
  }

  /** The loop of `process_file` over lines already read: the counters and
      the stored missions are those of the outcomes of the lines, the counters
      are nested, there is one stored mission per valid line, the errors are
      the parse failures, zero durations and bad codes, and the stored
      missions are completed Mars missions in line order. */
  method ProcessLines(lines: seq<string>) returns (missions: seq<Mission>, stats: Statistics)
    ensures stats == StatsOf(Outcomes(lines))
    ensures missions == AcceptedMissions(Outcomes(lines))
    ensures stats.total_lines == |lines| && CountersNested(stats)
    ensures stats.valid_missions == |missions|
    ensures stats.errors == Tally(Outcomes(lines), ParseFailures) + Tally(Outcomes(lines), ZeroDurations)
                            + Tally(Outcomes(lines), BadCodes)
    ensures StoredInOrder(missions, |lines|)
  {
    missions := [];
    stats := Statistics(0, 0, 0, 0, 0, 0);
    ghost var outs: seq<Outcome> := [];
    for idx := 0 to |lines|
      invariant outs == Outcomes(lines[..idx])
      invariant stats == StatsOf(outs)
      invariant missions == AcceptedMissions(outs)
    {
      ghost var o := Classify(lines[idx], idx + 1);
      OutcomesOfPrefix(lines, idx);
      StatsOfAppend(outs, o);
      outs := outs + [o];
      stats, missions := ProcessLine(lines[idx], idx + 1, stats, missions);
    }
    assert lines[..|lines|] == lines;
    StatisticsNested(outs);
    AcceptedCount(outs);
    ErrorsBreakdown(outs);
    OutcomesAreNumbered(lines);
    AcceptedMissionsOrdered(outs);
  }
}
