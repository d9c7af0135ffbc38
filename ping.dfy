/**
 * `PingCheck`: a probe that runs the system `ping` once per attempt, reads
 * its output line by line for the round-trip time and for a network error,
 * and tries up to three times until one run is conclusive.
 *
 * The process is an oracle: a run threw (starting it, reading it or waiting
 * for it), or it printed some lines and exited with some code. So is the
 * pause between attempts, which may be interrupted.
 */
module PingCheck {
  import opened Lang
  import opened Strings
  import opened Results

  /** The number of `runPing` attempts `check` makes at most. */
  const MaxAttempts := 3

  /** `getDescription()` */
  const Description := "PING"

  /* ---------------------------------------------------------------------- */
  /* One line of output                                                     */
  /* ---------------------------------------------------------------------- */

  /**
   * The round-trip time a line reports: the text between the first "time="
   * and the next " ms", with "ms" appended; `None` when the line has no
   * "time=" or nothing lies between.
   */
  function LineLatency(line: string): (r: Option<string>)
    ensures r.Some? ==> Contains(line, "time=") && |r.value| > 2 && r.value[|r.value| - 2..] == "ms"
  {
    if Contains(line, "time=") then
      var start := IndexOf(line, "time=", 0) + 5;
      var end := IndexOf(line, " ms", start);
      if end > start then Some(line[start..end] + "ms") else None
    else None
  }

  /**
   * Where "time=" first occurs at `at` and " ms" first follows at `end`,
   * with text between, the line reports that text in milliseconds.
   */
  lemma LatencyReadsBack(line: string, at: nat, end: nat)
    requires FirstAt(line, "time=", at)
    requires at + 5 < end && OccursAt(line, " ms", end)
    requires forall i :: at + 5 <= i < end ==> !OccursAt(line, " ms", i)
    ensures LineLatency(line) == Some(line[at + 5..end] + "ms")
  {
    IndexOfFinds(line, "time=", 0, at);
    IndexOfFinds(line, " ms", at + 5, end);
  }

  /** A line that says the network is unreachable, in either of the two forms tested. */
  predicate Unreachable(line: string)
  {
    Contains(line, "Network is unreachable") || Contains(line, "connect: Network is unreachable")
  }

  /** The second form holds the first, so only the first decides. */
  lemma UnreachableFirstFormSuffices(line: string)
    ensures Unreachable(line) <==> Contains(line, "Network is unreachable")
  {
    var long := "connect: Network is unreachable";
    var short := "Network is unreachable";
    if Contains(line, long) {
      ContainsIff(line, long);
      var i :| OccursAt(line, long, i);
      assert line[i + 9..i + 9 + |short|] == line[i..i + |long|][9..];
      assert long[9..] == short;
      assert OccursAt(line, short, i + 9);
      ContainsIff(line, short);
    }
  }

  /* ---------------------------------------------------------------------- */
  /* The whole output                                                       */
  /* ---------------------------------------------------------------------- */

  /** What the line loop has found so far: `latency` and `errorMsg`. */
  datatype Findings = Findings(latency: Option<string>, error: Option<string>)

  /** One pass of the line loop: a latency on the line replaces any earlier one. */
  function Step(f: Findings, line: string): (g: Findings)
    ensures g.latency == if LineLatency(line).Some? then LineLatency(line) else f.latency
    ensures g.error == if Unreachable(line) then Some("No network") else f.error
  {
    Findings(
      if LineLatency(line).Some? then LineLatency(line) else f.latency,
      if Unreachable(line) then Some("No network") else f.error)
  }

  /** What the line loop finds in `lines`, one line after another. */
  function Scan(lines: seq<string>): (f: Findings)
    ensures f.error.Some? ==> f.error.value == "No network"
    ensures lines != [] && LineLatency(lines[|lines| - 1]).Some? ==> f.latency == LineLatency(lines[|lines| - 1])
  {
    if lines == [] then Findings(None, None)
    else Step(Scan(lines[..|lines| - 1]), lines[|lines| - 1])
  }

  /**
   * The last line that reports a latency, or -1 when none does: every line
   * after it reports none.
   */
  function LastReport(lines: seq<string>): (k: int)
    ensures -1 <= k < |lines|
    ensures k >= 0 ==> LineLatency(lines[k]).Some?
    ensures forall j :: k < j < |lines| ==> LineLatency(lines[j]).None?
  {
    if lines == [] then -1
    else if LineLatency(lines[|lines| - 1]).Some? then |lines| - 1
    else
      var init := lines[..|lines| - 1];
      assert forall j :: 0 <= j < |init| ==> init[j] == lines[j];
      LastReport(init)
  }

  /** The latency found is that of the last line that reports one, or none when no line does. */
  lemma {:induction false} ScanLatency(lines: seq<string>)
    ensures var k := LastReport(lines);
      Scan(lines).latency == if k < 0 then None else LineLatency(lines[k])
  {
    if lines != [] {
      var init := lines[..|lines| - 1];
      ScanLatency(init);
      var k := LastReport(init);
      assert k >= 0 ==> init[k] == lines[k];
    }
  }

  /** "No network" is found exactly when some line says the network is unreachable. */
  lemma {:induction false} ScanError(lines: seq<string>)
    ensures Scan(lines).error.Some? <==> exists i :: 0 <= i < |lines| && Unreachable(lines[i])
  {
    if lines != [] {
      var init := lines[..|lines| - 1];
      ScanError(init);
      assert forall i :: 0 <= i < |init| ==> init[i] == lines[i];
      assert Unreachable(lines[|lines| - 1]) ==> Scan(lines).error.Some?;
    }
  }

  /** A run of the `ping` process: it threw, or it printed `lines` and exited. */
  datatype PingRun = Threw(fault: Fault) | Finished(lines: seq<string>, exitCode: Int32)

  /**
   * The verdict of a finished run: Online with the latency when it exited
   * with 0 and reported one; otherwise NoConnection "No network" when a line
   * said so; otherwise `null`, inconclusive.
   */
  function Verdict(f: Findings, exitCode: Int32): (r: Option<Result>)
    ensures r.Some? && r.value.status == Online <==> exitCode == 0 && f.latency.Some?
    ensures r.None? <==> (exitCode != 0 || f.latency.None?) && f.error.None?
    ensures r.Some? && r.value.status == Online ==> r.value == Result(Online, f.latency, None)
    ensures !(exitCode == 0 && f.latency.Some?) && f.error.Some? ==> r == Some(Result(NoConnection, f.error, None))
  {
    if exitCode == 0 && f.latency.Some? then Some(MakeOnline(f.latency))
    else if f.error.Some? then Some(MakeNoConnection(f.error))
    else None
  }

  /** What `runPing` returns: any exception is NoConnection with its message. */
  function RunResult(run: PingRun): (r: Option<Result>)
    ensures run.Threw? ==> r == Some(MakeNoConnection(run.fault.message))
    ensures run.Finished? ==> r == Verdict(Scan(run.lines), run.exitCode)
  {
    match run
    case Threw(f) => Some(MakeNoConnection(f.message))
    case Finished(lines, exitCode) => Verdict(Scan(lines), exitCode)
  }

  /** A run is Online exactly when it exited with 0 and some line reported a latency. */
  lemma OnlineIff(run: PingRun)
    ensures RunResult(run).Some? && RunResult(run).value.status == Online <==>
      run.Finished? && run.exitCode == 0 && exists i :: 0 <= i < |run.lines| && LineLatency(run.lines[i]).Some?
  {
    if run.Finished? {
      ScanLatency(run.lines);
      var k := LastReport(run.lines);
      if k < 0 {
        assert forall i :: 0 <= i < |run.lines| ==> LineLatency(run.lines[i]).None?;
      }
    }
  }

  /** `runPing`: reads every line of the output, then waits for the exit code. */
  method RunPing(run: PingRun) returns (r: Option<Result>)
    ensures r == RunResult(run)
  {
    if run.Threw? {
      return Some(MakeNoConnection(run.fault.message));
    }
    var lines := run.lines;
    var latency: Option<string> := None;
    var errorMsg: Option<string> := None;
    var i := 0;
    while i < |lines|
      invariant 0 <= i <= |lines|
      invariant Findings(latency, errorMsg) == Scan(lines[..i])
    {
      var line := lines[i];
      assert lines[..i + 1][..i] == lines[..i];
      if Contains(line, "time=") {
        var start := IndexOf(line, "time=", 0) + 5;
        var end := IndexOf(line, " ms", start);
        if end > start {
          latency := Some(line[start..end] + "ms");
        }
      }
      if Contains(line, "Network is unreachable") || Contains(line, "connect: Network is unreachable") {
        errorMsg := Some("No network");
      }
      i := i + 1;
    }
    assert lines[..i] == lines;
    if run.exitCode == 0 && latency.Some? {
      return Some(MakeOnline(latency));
    }
    if errorMsg.Some? {
      return Some(MakeNoConnection(errorMsg));
    }
    r := None;
  }

  /* ---------------------------------------------------------------------- */
  /* The retries                                                            */
  /* ---------------------------------------------------------------------- */

  /** The pause before an attempt: it ran out, or it was interrupted. */
  datatype Pause = Slept | Interrupted(message: Option<string>)

  /**
   * One attempt: the pause before it (none is taken before the first
   * attempt, so the first `pause` is never looked at) and the run.
   */
  datatype Attempt = Attempt(pause: Pause, run: PingRun)

  /**
   * The attempts from `attempt` on: an interrupted pause ends with
   * NoConnection and its message, the first conclusive run decides, and
   * Offline "No response" when none does.
   */
  function Run(tries: seq<Attempt>, attempt: nat): (r: Result)
    requires |tries| == MaxAttempts && attempt <= MaxAttempts
    decreases MaxAttempts - attempt
  {
    if attempt == MaxAttempts then MakeOffline(Some("No response"))
    else if attempt > 0 && tries[attempt].pause.Interrupted? then
      MakeNoConnection(tries[attempt].pause.message)
    else
      match RunResult(tries[attempt].run)
      case Some(r) => r
      case None => Run(tries, attempt + 1)
  }

  /** How many times `runPing` is called from attempt `attempt` on. */
  function Runs(tries: seq<Attempt>, attempt: nat): (n: nat)
    requires |tries| == MaxAttempts && attempt <= MaxAttempts
    ensures n <= MaxAttempts - attempt
    decreases MaxAttempts - attempt
  {
    if attempt == MaxAttempts then 0
    else if attempt > 0 && tries[attempt].pause.Interrupted? then 0
    else if RunResult(tries[attempt].run).Some? then 1
    else 1 + Runs(tries, attempt + 1)
  }

  /** What `check` returns when its attempts go as `tries` say. */
  function Outcome(tries: seq<Attempt>): (r: Result)
    requires |tries| == MaxAttempts
    ensures r.uptime == None
  {
    Run(tries, 0)
  }

  /**
   * `check(entity)`: up to three attempts, pausing before every one but the
   * first; `runs` counts the calls to `runPing`.
   */
  method Check(tries: seq<Attempt>) returns (runs: nat, r: Result)
    requires |tries| == MaxAttempts
    ensures runs == Runs(tries, 0) && runs >= 1
    ensures r == Outcome(tries)
  {
    runs := 0;
    for attempt := 0 to MaxAttempts
      invariant runs + Runs(tries, attempt) == Runs(tries, 0)
      invariant attempt > 0 ==> runs >= 1
      invariant Run(tries, attempt) == Outcome(tries)
    {
      if attempt > 0 {
        var pause := tries[attempt].pause;
        if pause.Interrupted? {
          return runs, MakeNoConnection(pause.message);
        }
      }
      var res := RunPing(tries[attempt].run);
      runs := runs + 1;
      if res.Some? {
        return runs, res.value;
      }
    }
    r := MakeOffline(Some("No response"));
  }

  /** A conclusive first run decides, and no other attempt is made. */
  lemma FirstConclusiveDecides(tries: seq<Attempt>)
    requires |tries| == MaxAttempts && RunResult(tries[0].run).Some?
    ensures Outcome(tries) == RunResult(tries[0].run).value && Runs(tries, 0) == 1
  {
  }

  /** Three inconclusive runs with no interruption report Offline "No response". */
  lemma AllInconclusive(tries: seq<Attempt>)
    requires |tries| == MaxAttempts
    requires forall i :: 0 <= i < MaxAttempts ==> RunResult(tries[i].run).None?
    requires tries[1].pause == Slept && tries[2].pause == Slept
    ensures Outcome(tries) == Result(Offline, Some("No response"), None) && Runs(tries, 0) == MaxAttempts
  {
  }

  /** An interrupted pause after an inconclusive run ends the probe with NoConnection. */
  lemma InterruptStops(tries: seq<Attempt>)
    requires |tries| == MaxAttempts && RunResult(tries[0].run).None?
    requires tries[1].pause.Interrupted?
    ensures Outcome(tries) == Result(NoConnection, tries[1].pause.message, None) && Runs(tries, 0) == 1
  {
  }
}
