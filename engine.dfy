/**
 * The man-hour engine of the execution page, as the page runs it: findings are objects whose
 * session lists, logs, status and photo are updated in place, and the page keeps the request
 * waiting for a confirmation (`pendingStart`), the stop being finalised (`pendingStop`) and the
 * chosen picture (`tempImg`) in variables of its own.
 */
module ManHour {
  import opened Maybe
  import opened JsString
  import opened Sessions

  /** One finding of the work order: `f.mh.activeSessions`, `f.mh.logs`, `f.status` and `f.photo`. */
  class Finding {
    const id: string
    var status: Status
    var activeSessions: seq<Session>
    var logs: seq<LogEntry>
    var photo: Option<string>

    /** A finding as loaded from storage. */
    constructor (id: string, status: Status, activeSessions: seq<Session>, logs: seq<LogEntry>, photo: Option<string>)
      ensures this.id == id && this.photo == photo
      ensures Model() == Ledger(activeSessions, logs, status)
    {
      this.id := id;
      this.status := status;
      this.activeSessions := activeSessions;
      this.logs := logs;
      this.photo := photo;
    }

    function Model(): Ledger
      reads this
    {
      Ledger(activeSessions, logs, status)
    }

    predicate Valid()
      reads this
    {
      WellFormed(Model())
    }
  }

  /** A start request parked until the user agrees to join the employees already active. */
  datatype PendingStart = PendingStart(finding: Finding, emp: string, task: string)

  /** The stop being finalised: whose session, on which finding, at what time. */
  datatype PendingStop = PendingStop(finding: Finding, emp: string, stopTime: int)

  /**
   * The page's own state. `saves` counts the calls of `saveData`, the point where the work order
   * is written back to storage.
   */
  class Page {
    var pendingStart: Option<PendingStart>
    var pendingStop: Option<PendingStop>
    var tempImg: Option<string>
    var saves: nat

    constructor ()
      ensures pendingStart == None && pendingStop == None && tempImg == None && saves == 0
    {
      pendingStart := None;
      pendingStop := None;
      tempImg := None;
      saves := 0;
    }

    function StartTarget(): set<Finding>
      reads this
    {
      if pendingStart.Some? then {pendingStart.value.finding} else {}
    }

    function StopTarget(): set<Finding>
      reads this
    {
      if pendingStop.Some? then {pendingStop.value.finding} else {}
    }

    /** `executeStart`: the new session goes last, the status becomes IN_PROGRESS, and the work order is saved. */
    method ExecuteStart(f: Finding, emp: string, task: string, now: int)
      modifies this`saves, f`activeSessions, f`status
      ensures f.Model() == Start(old(f.Model()), now, emp, task)
      ensures saves == old(saves) + 1
    {
      f.activeSessions := f.activeSessions + [Session(now, emp, task)];
      f.status := InProgress;
      saves := saves + 1;
    }

    /**
     * `initiateStart`, reached only from the Start button, which a CLOSED finding does not enable.
     * A refused request changes nothing; a request while others are active is only parked.
     */
    method InitiateStart(f: Finding, empInput: string, taskInput: string, now: int) returns (d: StartDecision)
      requires f.status != Closed
      modifies this`pendingStart, this`saves, f`activeSessions, f`status
      ensures d == ClassifyStart(old(f.activeSessions), empInput, taskInput)
      ensures d.Started? ==> f.Model() == Start(old(f.Model()), now, Trim(empInput), Trim(taskInput))
                             && saves == old(saves) + 1
      ensures !d.Started? ==> f.Model() == old(f.Model()) && saves == old(saves)
      ensures pendingStart == if d.NeedsJoinConfirm? then Some(PendingStart(f, Trim(empInput), Trim(taskInput)))
                              else old(pendingStart)
      ensures old(f.Valid()) ==> f.Valid()
    {
      var emp := Trim(empInput);
      var task := Trim(taskInput);
      if emp == [] || task == [] {
        return MissingCredentials;
      }
      if ActiveIgnoringCase(f.activeSessions, emp) {
        return AlreadyActive;
      }
      if |f.activeSessions| > 0 {
        pendingStart := Some(PendingStart(f, emp, task));
        return NeedsJoinConfirm(Employees(f.activeSessions));
      }
      if f.Valid() {
        AdmittedStartKeepsWellFormed(f.Model(), now, empInput, taskInput);
      }
      ExecuteStart(f, emp, task, now);
      d := Started;
    }

    /**
     * `confirmJoinTeam`: runs the parked start, if any. The parked request is not cleared, and the
     * start is not checked again, so the invariant survives only if the employee is still not active.
     */
    method ConfirmJoinTeam(now: int)
      modifies this`saves, StartTarget()`activeSessions, StartTarget()`status
      ensures pendingStart == old(pendingStart)
      ensures old(pendingStart).None? ==> saves == old(saves)
      ensures old(pendingStart).Some? ==>
                var p := old(pendingStart).value;
                p.finding.Model() == Start(old(p.finding.Model()), now, p.emp, p.task) && saves == old(saves) + 1
      ensures old(pendingStart).Some? && old(pendingStart.value.finding.Valid())
              && !ActiveIgnoringCase(old(pendingStart.value.finding.activeSessions), pendingStart.value.emp)
              ==> pendingStart.value.finding.Valid()
    {
      if pendingStart.Some? {
        var p := pendingStart.value;
        ghost var before := p.finding.Model();
        ExecuteStart(p.finding, p.emp, p.task, now);
        if WellFormed(before) && !ActiveIgnoringCase(before.sessions, p.emp) {
          JoinKeepsWellFormed(before, now, p.emp, p.task);
        }
      }
    }

    /** The "No" button of the join prompt: the parked start is dropped. */
    method CancelJoin()
      modifies this`pendingStart
      ensures pendingStart == None
    {
      pendingStart := None;
    }

    /**
     * `initiateStop`, reached only from the Stop button, which is enabled while a session is open.
     * A single open session is stopped without asking who; otherwise the page offers every active employee.
     */
    method InitiateStop(f: Finding, now: int) returns (t: StopTarget)
      requires f.activeSessions != []
      modifies this`pendingStop, this`saves, f`activeSessions, f`logs, f`status
      ensures t == SelectStopTarget(old(f.activeSessions))
      ensures f.Model() == old(f.Model()) && saves == old(saves)
      ensures pendingStop == if t.AutoTarget? then Some(PendingStop(f, t.emp, now)) else old(pendingStop)
      ensures t.AutoTarget? ==> PrepareStep(f.activeSessions) == AwaitFinalStatus
    {
      if |f.activeSessions| == 1 {
        var emp := f.activeSessions[0].emp;
        var step := PrepareStop(f, emp, now);
        t := AutoTarget(emp);
      } else {
        t := NeedsSelection(Employees(f.activeSessions));
      }
    }

    /**
     * `prepareStop`: records the stop request; the last open session waits for the final-status
     * answer, any other is closed at once with the finding's status kept.
     */
    method PrepareStop(f: Finding, emp: string, now: int) returns (step: StopStep)
      modifies this`pendingStop, this`saves, f`activeSessions, f`logs, f`status
      ensures pendingStop == Some(PendingStop(f, emp, now))
      ensures step == PrepareStep(old(f.activeSessions))
      ensures step == AwaitFinalStatus ==> f.Model() == old(f.Model()) && saves == old(saves)
      ensures step == StoppedInterim ==> f.Model() == Stop(old(f.Model()), emp, now, OnHold)
                                         && saves == old(saves) + 1
      ensures old(f.Valid()) ==> f.Valid()
    {
      pendingStop := Some(PendingStop(f, emp, now));
      if |f.activeSessions| == 1 {
        step := AwaitFinalStatus;
      } else {
        FinalizeStop(false, OnHold);
        step := StoppedInterim;
      }
    }

    /** `confirmFinalStatus`: finalises the pending stop with the chosen status. */
    method ConfirmFinalStatus(choice: FinalChoice)
      requires pendingStop.Some?
      modifies this`saves, StopTarget()`activeSessions, StopTarget()`logs, StopTarget()`status
      ensures pendingStop == old(pendingStop)
      ensures var p := pendingStop.value;
              p.finding.Model() == Stop(old(p.finding.Model()), p.emp, p.stopTime, ChosenStatus(choice))
      ensures saves == if choice == CloseChoice then old(saves) else old(saves) + 1
      ensures old(pendingStop.value.finding.Valid()) ==> pendingStop.value.finding.Valid()
    {
      FinalizeStop(choice == CloseChoice, ChosenStatus(choice));
    }

    /**
     * `finalizeStop`: moves the pending employee's session (exact match) into the logs with its
     * duration, sets `status` only when no session is left open, and saves unless the photo
     * prompt of a closure comes next.
     */
    method FinalizeStop(isClosed: bool, status: Status)
      requires pendingStop.Some?
      modifies this`saves, StopTarget()`activeSessions, StopTarget()`logs, StopTarget()`status
      ensures pendingStop == old(pendingStop)
      ensures var p := pendingStop.value;
              p.finding.Model() == Stop(old(p.finding.Model()), p.emp, p.stopTime, status)
      ensures saves == if isClosed then old(saves) else old(saves) + 1
      ensures old(pendingStop.value.finding.Valid()) ==> pendingStop.value.finding.Valid()
    {
      var p := pendingStop.value;
      var f := p.finding;
      ghost var before := f.Model();
      ghost var after := Stop(before, p.emp, p.stopTime, status);
      var idx := FindIndex(f.activeSessions, p.emp);
      if idx > -1 {
        var s := f.activeSessions[idx];
        f.logs := f.logs + [LogEntry(s.start, p.stopTime, p.stopTime - s.start, s.emp, s.task)];
        f.activeSessions := f.activeSessions[..idx] + f.activeSessions[idx + 1..];
      }
      assert f.activeSessions == after.sessions && f.logs == after.logs;
      if |f.activeSessions| == 0 {
        f.status := status;
      }
      assert f.Model() == after;
      if !isClosed {
        saves := saves + 1;
      }
      if WellFormed(before) {
        StopKeepsWellFormed(before, p.emp, p.stopTime, status);
      }
    }

    /** The picture chosen in the photo prompt, once read; its content is opaque here. */
    method PreviewPhoto(img: string)
      modifies this`tempImg
      ensures tempImg == Some(img)
    {
      tempImg := Some(img);
    }

    /** `savePhoto`: attaches the chosen picture and saves only when both a stop and a picture are pending. */
    method SavePhoto()
      modifies this`saves, StopTarget()`photo
      ensures pendingStop == old(pendingStop) && tempImg == old(tempImg)
      ensures pendingStop.Some? && tempImg.Some? ==> pendingStop.value.finding.photo == tempImg && saves == old(saves) + 1
      ensures !(pendingStop.Some? && tempImg.Some?) ==> saves == old(saves)
      ensures pendingStop.Some? && tempImg.None? ==> pendingStop.value.finding.photo == old(pendingStop.value.finding.photo)
    {
      if pendingStop.Some? && tempImg.Some? {
        pendingStop.value.finding.photo := tempImg;
        saves := saves + 1;
      }
    }

    /** `skipPhoto`: saves the closure without a picture. */
    method SkipPhoto()
      modifies this`saves
      ensures saves == old(saves) + 1
    {
      saves := saves + 1;
    }
  }

  /** A confirmed join keeps the ledger well formed as long as the joining employee is still not active. */
  lemma JoinKeepsWellFormed(l: Ledger, now: int, emp: string, task: string)
    requires WellFormed(l) && !ActiveIgnoringCase(l.sessions, emp)
    ensures WellFormed(Start(l, now, emp, task))
  {
    var s := Start(l, now, emp, task).sessions;
    forall i, j | 0 <= i < j < |s|
      ensures !EqualsIgnoringCase(s[i].emp, s[j].emp)
    {
      if j == |s| - 1 {
        assert !EqualsIgnoringCase(l.sessions[i].emp, emp);
      }
    }
  }

  /** Two technicians join on one finding: `a` starts alone, `b` is asked to confirm and then joins. */
  method JoinScenario(a: string, b: string, task: string, t0: int)
    requires a != [] && b != [] && task != []
    requires Trim(a) == a && Trim(b) == b && Trim(task) == task
    requires !EqualsIgnoringCase(a, b)
  {
    var f := new Finding("F1", Open, [], [], None);
    var page := new Page();

    var d := page.InitiateStart(f, a, task, t0);
    assert d == Started && f.activeSessions == [Session(t0, a, task)];
    assert DisplayStatus(f.Model()) == ActiveLabel(1);

    d := page.InitiateStart(f, b, task, t0);
    assert d == NeedsJoinConfirm([a]) && |f.activeSessions| == 1;
    page.ConfirmJoinTeam(t0);
    assert f.activeSessions == [Session(t0, a, task), Session(t0, b, task)];
    assert f.status == InProgress && f.Valid();
    assert page.saves == 2;
  }

  /** A second start by an employee already active under another spelling of case is refused and changes nothing. */
  method DuplicateScenario(a: string, b: string, task: string, t0: int)
    requires b != [] && task != [] && Trim(b) == b && Trim(task) == task
    requires EqualsIgnoringCase(a, b)
  {
    var f := new Finding("F1", InProgress, [Session(t0, a, task)], [], None);
    var page := new Page();
    var d := page.InitiateStart(f, b, task, t0 + 1000);
    assert EqualsIgnoringCase(f.activeSessions[0].emp, b);
    assert d == AlreadyActive;
    assert f.activeSessions == [Session(t0, a, task)] && page.saves == 0 && page.pendingStart == None;
  }

  /** The same finding later: `a` stops after an hour while `b` keeps working; no prompt, status kept. */
  method HandOverScenario(a: string, b: string, task: string, t0: int)
    requires !EqualsIgnoringCase(a, b)
  {
    var f := new Finding("F1", InProgress, [Session(t0, a, task), Session(t0, b, task)], [], None);
    var page := new Page();
    ghost var l0 := f.Model();
    assert DistinctEmployees(l0.sessions);
    StopClosesExactlyOne(l0, 0, t0 + 3600000, OnHold);

    var target := page.InitiateStop(f, t0 + 3600000);
    assert target == NeedsSelection([a, b]);
    var step := page.PrepareStop(f, a, t0 + 3600000);
    assert step == StoppedInterim;
    assert f.activeSessions == [Session(t0, b, task)];
    assert f.logs == [LogEntry(t0, t0 + 3600000, 3600000, a, task)];
    assert f.status == InProgress;
  }

  /** `b` stops last at 1h30 without being asked who and chooses CLOSED; nothing is saved before the photo prompt. */
  method ClosingScenario(a: string, b: string, task: string, t0: int)
  {
    var first := LogEntry(t0, t0 + 3600000, 3600000, a, task);
    var f := new Finding("F1", InProgress, [Session(t0, b, task)], [first], None);
    var page := new Page();
    ghost var l1 := f.Model();
    StopClosesExactlyOne(l1, 0, t0 + 5400000, Closed);

    var target := page.InitiateStop(f, t0 + 5400000);
    assert target == AutoTarget(b) && page.pendingStop == Some(PendingStop(f, b, t0 + 5400000));
    page.ConfirmFinalStatus(CloseChoice);
    assert f.Model() == Stop(l1, b, t0 + 5400000, Closed);
    assert f.activeSessions == [] && f.status == Closed && page.saves == 0;
    assert f.logs == [first, LogEntry(t0, t0 + 5400000, 5400000, b, task)];
    assert DisplayStatus(f.Model()) == ClosedLabel;
  }

  /** The photo prompt: saving attaches a picture only once both a stop and a picture are pending. */
  method PhotoScenario(b: string, task: string, t0: int, img: string)
  {
    var f := new Finding("F1", InProgress, [Session(t0, b, task)], [], None);
    var page := new Page();
    page.SavePhoto();
    assert f.photo == None && page.saves == 0;

    var step := page.PrepareStop(f, b, t0 + 1000);
    assert step == AwaitFinalStatus;
    page.SavePhoto();
    assert f.photo == None && page.saves == 0;

    page.PreviewPhoto(img);
    page.SavePhoto();
    assert f.photo == Some(img) && page.saves == 1;
  }
}
