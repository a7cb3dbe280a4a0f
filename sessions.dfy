/**
 * The man-hour ledger of one finding as values: the open sessions (`mh.activeSessions`),
 * the closed ones (`mh.logs`) and the finding's `status`, with the rules that decide
 * what a start or stop request does to them.
 */
module Sessions {
  import opened JsString

  datatype Status = Open | InProgress | OnHold | Closed

  /** An open session; `start` is a timestamp in milliseconds. */
  datatype Session = Session(start: int, emp: string, task: string)

  /** A closed session as pushed onto `mh.logs`. */
  datatype LogEntry = LogEntry(start: int, stop: int, duration: int, emp: string, task: string)

  /** The parts of a finding the engine changes. */
  datatype Ledger = Ledger(sessions: seq<Session>, logs: seq<LogEntry>, status: Status)

  /** What a start request leads to. */
  datatype StartDecision =
    | MissingCredentials
    | AlreadyActive
    | NeedsJoinConfirm(active: seq<string>)
    | Started

  /** Who a stop request is for. */
  datatype StopTarget = AutoTarget(emp: string) | NeedsSelection(choices: seq<string>)

  /** What happens once the stopping employee is known. */
  datatype StopStep = AwaitFinalStatus | StoppedInterim

  /** The two choices of the final-status prompt. */
  datatype FinalChoice = HoldChoice | CloseChoice

  function ChosenStatus(c: FinalChoice): Status {
    match c
    case HoldChoice => OnHold
    case CloseChoice => Closed
  }

  function Employees(sessions: seq<Session>): seq<string> {
    seq(|sessions|, i requires 0 <= i < |sessions| => sessions[i].emp)
  }

  /** Some open session belongs to `emp`, compared case-insensitively (the duplicate check of a start). */
  predicate ActiveIgnoringCase(sessions: seq<Session>, emp: string) {
    exists i :: 0 <= i < |sessions| && EqualsIgnoringCase(sessions[i].emp, emp)
  }

  /** No employee has two open sessions, even up to case. */
  predicate DistinctEmployees(sessions: seq<Session>) {
    forall i, j :: 0 <= i < j < |sessions| ==> !EqualsIgnoringCase(sessions[i].emp, sessions[j].emp)
  }

  /** The invariant of a ledger: one open session per employee, and open sessions only while IN_PROGRESS. */
  predicate WellFormed(l: Ledger) {
    DistinctEmployees(l.sessions) && (l.sessions != [] ==> l.status == InProgress)
  }

  predicate NonNegativeDurations(logs: seq<LogEntry>) {
    forall i :: 0 <= i < |logs| ==> logs[i].duration >= 0
  }

  /** Every open session started no later than `t`. */
  predicate StartsNoLaterThan(sessions: seq<Session>, t: int) {
    forall i :: 0 <= i < |sessions| ==> sessions[i].start <= t
  }

  /** The index of the first open session whose employee equals `emp` exactly, or -1 (`findIndex`). */
  function FindIndex(sessions: seq<Session>, emp: string): (r: int)
    ensures -1 <= r < |sessions|
    ensures r == -1 <==> forall i :: 0 <= i < |sessions| ==> sessions[i].emp != emp
    ensures r >= 0 ==> sessions[r].emp == emp && forall i :: 0 <= i < r ==> sessions[i].emp != emp
  {
    if sessions == [] then -1
    else if sessions[0].emp == emp then 0
    else
      var k := FindIndex(sessions[1..], emp);
      if k == -1 then -1 else k + 1
  }

  /** The start checks, in order: credentials present after trimming, no open session of the same employee, nobody else active. */
  function ClassifyStart(sessions: seq<Session>, empInput: string, taskInput: string): (r: StartDecision)
    ensures r == MissingCredentials <==> AllWhitespace(empInput) || AllWhitespace(taskInput)
    ensures r == AlreadyActive
            <==> !AllWhitespace(empInput) && !AllWhitespace(taskInput) && ActiveIgnoringCase(sessions, Trim(empInput))
    ensures r.NeedsJoinConfirm? ==> sessions != [] && r.active == Employees(sessions)
    ensures r == Started ==> sessions == []
  {
    TrimCharacterised(empInput);
    TrimCharacterised(taskInput);
    var emp := Trim(empInput);
    var task := Trim(taskInput);
    if emp == [] || task == [] then MissingCredentials
    else if ActiveIgnoringCase(sessions, emp) then AlreadyActive
    else if |sessions| > 0 then NeedsJoinConfirm(Employees(sessions))
    else Started
  }

  /** `executeStart`: the sessions already open keep their order, the new one comes last; the logs are untouched. */
  function Start(l: Ledger, now: int, emp: string, task: string): (r: Ledger)
    ensures |r.sessions| == |l.sessions| + 1
    ensures r.sessions[..|l.sessions|] == l.sessions
    ensures r.sessions[|l.sessions|] == Session(now, emp, task)
    ensures r.logs == l.logs
    ensures r.status == InProgress
  {
    Ledger(l.sessions + [Session(now, emp, task)], l.logs, InProgress)
  }

  /** The stop target: automatic for a single open session, otherwise a choice among all active employees. */
  function SelectStopTarget(sessions: seq<Session>): (r: StopTarget)
    requires sessions != []
    ensures r.AutoTarget? <==> |sessions| == 1
    ensures r.AutoTarget? ==> r.emp == sessions[0].emp
    ensures r.NeedsSelection? ==>
              |r.choices| == |sessions| && forall k :: 0 <= k < |sessions| ==> r.choices[k] == sessions[k].emp
  {
    if |sessions| == 1 then AutoTarget(sessions[0].emp) else NeedsSelection(Employees(sessions))
  }

  /** Whether a stop must first ask for the final status: exactly when removing the stopped session leaves none open. */
  function PrepareStep(sessions: seq<Session>): (r: StopStep)
    ensures r == AwaitFinalStatus <==> exists i :: 0 <= i < |sessions| && RemoveAt(sessions, i) == []
  {
    if |sessions| == 1 then assert RemoveAt(sessions, 0) == []; AwaitFinalStatus
    else StoppedInterim
  }

  /** The sessions without the one at index `i`, the others in their order. */
  function RemoveAt(s: seq<Session>, i: nat): seq<Session>
    requires i < |s|
  {
    s[..i] + s[i + 1..]
  }

  function CloseSession(s: Session, stopTime: int): LogEntry {
    LogEntry(s.start, stopTime, stopTime - s.start, s.emp, s.task)
  }

  /** `finalizeStop`: close `emp`'s session if there is one; the status changes only if nothing stays open. */
  function Stop(l: Ledger, emp: string, stopTime: int, status: Status): Ledger {
    var idx := FindIndex(l.sessions, emp);
    var sessions := if idx >= 0 then RemoveAt(l.sessions, idx) else l.sessions;
    var logs := if idx >= 0 then l.logs + [CloseSession(l.sessions[idx], stopTime)] else l.logs;
    Ledger(sessions, logs, if sessions == [] then status else l.status)
  }

  // ----- the start rules -----

  /** An admitted start (directly or after a join confirmation) keeps the ledger well formed. */
  lemma AdmittedStartKeepsWellFormed(l: Ledger, now: int, empInput: string, taskInput: string)
    requires WellFormed(l)
    requires ClassifyStart(l.sessions, empInput, taskInput).Started?
             || ClassifyStart(l.sessions, empInput, taskInput).NeedsJoinConfirm?
    ensures WellFormed(Start(l, now, Trim(empInput), Trim(taskInput)))
  {
    var emp := Trim(empInput);
    var s := Start(l, now, emp, Trim(taskInput)).sessions;
    forall i, j | 0 <= i < j < |s|
      ensures !EqualsIgnoringCase(s[i].emp, s[j].emp)
    {
      if j == |s| - 1 {
        assert s[j].emp == emp;
        assert !EqualsIgnoringCase(l.sessions[i].emp, emp);
      }
    }
  }

  // ----- the stop rules -----

  /** In a well-formed ledger, an employee's exact match is the only one, so `FindIndex` finds exactly it. */
  lemma FindIndexUnique(sessions: seq<Session>, i: nat, emp: string)
    requires DistinctEmployees(sessions)
    requires i < |sessions| && sessions[i].emp == emp
    ensures FindIndex(sessions, emp) == i
  {
    var r := FindIndex(sessions, emp);
    if r != i {
      assert r < i;
      assert sessions[r].emp == sessions[i].emp;
      assert EqualsIgnoringCase(sessions[r].emp, sessions[i].emp);
    }
  }

  /** Removing one session keeps the others distinct, and leaves no session of the removed employee. */
  lemma RemoveAtKeepsDistinct(sessions: seq<Session>, i: nat)
    requires DistinctEmployees(sessions) && i < |sessions|
    ensures DistinctEmployees(RemoveAt(sessions, i))
    ensures !ActiveIgnoringCase(RemoveAt(sessions, i), sessions[i].emp)
  {
    var r := RemoveAt(sessions, i);
    assert forall k :: 0 <= k < |r| ==> r[k] == sessions[if k < i then k else k + 1];
  }

  /**
   * Stopping an employee who has an open session removes exactly that session, keeps the order of
   * the others, and appends one log entry copying it with `duration = stopTime - start`.
   */
  lemma StopClosesExactlyOne(l: Ledger, i: nat, stopTime: int, status: Status)
    requires DistinctEmployees(l.sessions)
    requires i < |l.sessions|
    ensures Stop(l, l.sessions[i].emp, stopTime, status).sessions == l.sessions[..i] + l.sessions[i + 1..]
    ensures !ActiveIgnoringCase(Stop(l, l.sessions[i].emp, stopTime, status).sessions, l.sessions[i].emp)
    ensures Stop(l, l.sessions[i].emp, stopTime, status).logs
            == l.logs + [LogEntry(l.sessions[i].start, stopTime, stopTime - l.sessions[i].start,
                                  l.sessions[i].emp, l.sessions[i].task)]
  {
    FindIndexUnique(l.sessions, i, l.sessions[i].emp);
    RemoveAtKeepsDistinct(l.sessions, i);
  }

  /** Stopping someone with no exactly matching session changes neither list. */
  lemma StopWithoutMatch(l: Ledger, emp: string, stopTime: int, status: Status)
    requires forall i :: 0 <= i < |l.sessions| ==> l.sessions[i].emp != emp
    ensures Stop(l, emp, stopTime, status).sessions == l.sessions
    ensures Stop(l, emp, stopTime, status).logs == l.logs
  {
  }

  /** The logs only grow: old entries stay as they were and a stop adds at most one. */
  lemma StopLogsOnlyGrow(l: Ledger, emp: string, stopTime: int, status: Status)
    ensures l.logs <= Stop(l, emp, stopTime, status).logs
    ensures |Stop(l, emp, stopTime, status).logs| <= |l.logs| + 1
  {
  }

  /**
   * Only the last stop changes the status: a stop that leaves a session open keeps it, and a stop
   * of the single open session sets the chosen one.
   */
  lemma OnlyLastStopChangesStatus(l: Ledger, emp: string, stopTime: int, status: Status)
    ensures Stop(l, emp, stopTime, status).status != l.status ==> Stop(l, emp, stopTime, status).sessions == []
    ensures |l.sessions| >= 2 ==> Stop(l, emp, stopTime, status).status == l.status
    ensures |l.sessions| == 1 && l.sessions[0].emp == emp ==> Stop(l, emp, stopTime, status).status == status
  {
    var idx := FindIndex(l.sessions, emp);
    if idx >= 0 {
      assert |RemoveAt(l.sessions, idx)| == |l.sessions| - 1;
    }
  }

  /** Stopping keeps the ledger well formed. */
  lemma StopKeepsWellFormed(l: Ledger, emp: string, stopTime: int, status: Status)
    requires WellFormed(l)
    ensures WellFormed(Stop(l, emp, stopTime, status))
  {
    var idx := FindIndex(l.sessions, emp);
    if idx >= 0 {
      RemoveAtKeepsDistinct(l.sessions, idx);
    }
  }

  /** With a clock that has not gone behind any open session's start, every recorded duration stays non-negative. */
  lemma StopKeepsDurationsNonNegative(l: Ledger, emp: string, stopTime: int, status: Status)
    requires NonNegativeDurations(l.logs) && StartsNoLaterThan(l.sessions, stopTime)
    ensures NonNegativeDurations(Stop(l, emp, stopTime, status).logs)
    ensures StartsNoLaterThan(Stop(l, emp, stopTime, status).sessions, stopTime)
  {
    var idx := FindIndex(l.sessions, emp);
    if idx >= 0 {
      var r := RemoveAt(l.sessions, idx);
      assert forall k :: 0 <= k < |r| ==> r[k] == l.sessions[if k < idx then k else k + 1];
    }
  }

  // ----- the status shown on a finding's card -----

  datatype Label = ActiveLabel(count: nat) | OnHoldLabel | ClosedLabel | OpenLabel

  /** The header status of a finding card: ACTIVE(n) exactly while sessions are open, then ON HOLD, CLOSED, OPEN. */
  function DisplayStatus(l: Ledger): (r: Label)
    ensures r.ActiveLabel? <==> l.sessions != []
    ensures r.ActiveLabel? ==> r.count == |l.sessions|
    ensures r == OnHoldLabel <==> l.sessions == [] && l.logs != [] && l.status != Closed
    ensures r == ClosedLabel <==> l.sessions == [] && l.status == Closed
    ensures r == OpenLabel <==> l.sessions == [] && l.logs == [] && l.status != Closed
  {
    if |l.sessions| > 0 then ActiveLabel(|l.sessions|)
    else if |l.logs| > 0 && l.status != Closed then OnHoldLabel
    else if l.status == Closed then ClosedLabel
    else OpenLabel
  }

  /** After a last stop the card shows the chosen status; after an interim stop it shows one active fewer. */
  lemma DisplayAfterStop(l: Ledger, i: nat, stopTime: int, c: FinalChoice)
    requires WellFormed(l) && i < |l.sessions|
    ensures |l.sessions| == 1 ==>
              DisplayStatus(Stop(l, l.sessions[i].emp, stopTime, ChosenStatus(c)))
              == (if c == CloseChoice then ClosedLabel else OnHoldLabel)
    ensures |l.sessions| > 1 ==>
              DisplayStatus(Stop(l, l.sessions[i].emp, stopTime, ChosenStatus(c))) == ActiveLabel(|l.sessions| - 1)
  {
    StopClosesExactlyOne(l, i, stopTime, ChosenStatus(c));
  }

  /** After a start the card shows one more active session. */
  lemma DisplayAfterStart(l: Ledger, now: int, emp: string, task: string)
    ensures DisplayStatus(Start(l, now, emp, task)) == ActiveLabel(|l.sessions| + 1)
  {
  }

  // ----- whole histories -----

  /**
   * A request as the page lets it through: a start with the answer to a possible join prompt,
   * or a stop with the employee picked from the list and the answer to a possible final-status prompt.
   */
  datatype Command =
    | StartCmd(time: int, emp: string, task: string, join: bool)
    | StopCmd(time: int, pick: string, choice: FinalChoice)

  /**
   * One request against a ledger. A closed finding offers no Start and a finding without open
   * sessions offers no Stop, so those requests leave it as it is.
   */
  function Apply(l: Ledger, c: Command): Ledger {
    match c
    case StartCmd(t, e, k, join) =>
      if l.status == Closed then l
      else (
        match ClassifyStart(l.sessions, e, k)
        case Started => Start(l, t, Trim(e), Trim(k))
        case NeedsJoinConfirm(_) => if join then Start(l, t, Trim(e), Trim(k)) else l
        case _ => l)
    case StopCmd(t, pick, choice) =>
      if l.sessions == [] then l
      else if |l.sessions| == 1 then Stop(l, l.sessions[0].emp, t, ChosenStatus(choice))
      else Stop(l, pick, t, OnHold)
  }

  function Replay(l: Ledger, cmds: seq<Command>): Ledger
    decreases |cmds|
  {
    if cmds == [] then l else Replay(Apply(l, cmds[0]), cmds[1..])
  }

  lemma ApplyKeepsWellFormed(l: Ledger, c: Command)
    requires WellFormed(l)
    ensures WellFormed(Apply(l, c))
    ensures l.logs <= Apply(l, c).logs
  {
    match c
    case StartCmd(t, e, k, join) =>
      if l.status != Closed && (ClassifyStart(l.sessions, e, k).Started? || ClassifyStart(l.sessions, e, k).NeedsJoinConfirm?) {
        AdmittedStartKeepsWellFormed(l, t, e, k);
      }
    case StopCmd(t, pick, choice) =>
      if l.sessions != [] {
        var emp := if |l.sessions| == 1 then l.sessions[0].emp else pick;
        var st := if |l.sessions| == 1 then ChosenStatus(choice) else OnHold;
        StopKeepsWellFormed(l, emp, t, st);
      }
  }

  /** Whatever the page lets through, no employee ever has two open sessions, and no log entry is lost or edited. */
  lemma {:induction false} ReplayKeepsWellFormed(l: Ledger, cmds: seq<Command>)
    requires WellFormed(l)
    ensures WellFormed(Replay(l, cmds))
    ensures l.logs <= Replay(l, cmds).logs
    decreases |cmds|
  {
    if cmds != [] {
      ApplyKeepsWellFormed(l, cmds[0]);
      ReplayKeepsWellFormed(Apply(l, cmds[0]), cmds[1..]);
    }
  }

  /** The request times never go back and none is earlier than `t0`. */
  predicate Chronological(cmds: seq<Command>, t0: int)
    decreases |cmds|
  {
    cmds == [] || (t0 <= cmds[0].time && Chronological(cmds[1..], cmds[0].time))
  }

  /** On a clock that never goes back, every recorded duration is non-negative. */
  lemma {:induction false} ReplayDurationsNonNegative(l: Ledger, cmds: seq<Command>, t0: int)
    requires NonNegativeDurations(l.logs) && StartsNoLaterThan(l.sessions, t0)
    requires Chronological(cmds, t0)
    ensures NonNegativeDurations(Replay(l, cmds).logs)
    decreases |cmds|
  {
    if cmds != [] {
      var c := cmds[0];
      var next := Apply(l, c);
      assert StartsNoLaterThan(l.sessions, c.time);
      match c {
        case StartCmd(t, e, k, join) =>
          assert StartsNoLaterThan(next.sessions, t);
        case StopCmd(t, pick, choice) =>
          if l.sessions != [] {
            var emp := if |l.sessions| == 1 then l.sessions[0].emp else pick;
            var st := if |l.sessions| == 1 then ChosenStatus(choice) else OnHold;
            StopKeepsDurationsNonNegative(l, emp, t, st);
          }
      }
      ReplayDurationsNonNegative(next, cmds[1..], c.time);
    }
  }

  /** One request closes a finding only if it is a stop of its single open session answered "closed". */
  lemma ApplyClosesOnlyByChoice(l: Ledger, c: Command)
    requires l.status != Closed && Apply(l, c).status == Closed
    ensures c.StopCmd? && c.choice == CloseChoice && |l.sessions| == 1
  {
    if c.StopCmd? && |l.sessions| >= 2 {
      OnlyLastStopChangesStatus(l, c.pick, c.time, OnHold);
    }
  }

  /** The `i`-th request of a history finds the finding not CLOSED with a single open session, and closes it. */
  predicate ClosesAt(l: Ledger, cmds: seq<Command>, i: nat)
    requires i < |cmds|
  {
    var before := Replay(l, cmds[..i]);
    before.status != Closed && |before.sessions| == 1 && Apply(before, cmds[i]).status == Closed
  }

  /** Replaying the first `k + 1` requests is one request followed by the first `k` of the rest. */
  lemma ReplayPrefix(l: Ledger, cmds: seq<Command>, k: nat)
    requires k < |cmds|
    ensures Replay(l, cmds[..k + 1]) == Replay(Apply(l, cmds[0]), cmds[1..][..k])
  {
    var p := cmds[..k + 1];
    assert p[0] == cmds[0] && p[1..] == cmds[1..][..k];
  }

  /**
   * A finding becomes CLOSED only through a stop, at some point of the history, of the single
   * session then open, whose final-status answer was "closed".
   */
  lemma {:induction false} ClosedOnlyByChoice(l: Ledger, cmds: seq<Command>)
    requires l.status != Closed
    requires Replay(l, cmds).status == Closed
    ensures exists i :: 0 <= i < |cmds| && cmds[i].StopCmd? && cmds[i].choice == CloseChoice && ClosesAt(l, cmds, i)
    decreases |cmds|
  {
    var next := Apply(l, cmds[0]);
    if next.status == Closed {
      ApplyClosesOnlyByChoice(l, cmds[0]);
      assert cmds[..0] == [];
      assert ClosesAt(l, cmds, 0);
    } else {
      var rest := cmds[1..];
      ClosedOnlyByChoice(next, rest);
      var k :| 0 <= k < |rest| && rest[k].StopCmd? && rest[k].choice == CloseChoice && ClosesAt(next, rest, k);
      ReplayPrefix(l, cmds, k);
      assert cmds[k + 1] == rest[k];
      assert ClosesAt(l, cmds, k + 1);
    }
  }

  /** CLOSED is terminal: once a well-formed finding is closed, no request changes it. */
  lemma {:induction false} ClosedIsTerminal(l: Ledger, cmds: seq<Command>)
    requires WellFormed(l) && l.status == Closed
    ensures Replay(l, cmds) == l
    decreases |cmds|
  {
    if cmds != [] {
      assert Apply(l, cmds[0]) == l;
      ClosedIsTerminal(l, cmds[1..]);
    }
  }
}
