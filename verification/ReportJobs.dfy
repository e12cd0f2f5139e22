/** The life of a financial report: a request stores it and starts a task that generates its data
    and records the result, while other requests may read or remove the report at any time. */
module ReportJobs {
  import opened Wrappers

  datatype ReportType = Revenue | Commission | Payout | Tax | PartnerPerformance | BookingAnalytics | FinancialSummary

  datatype Status = Generating | Completed | Failed | Expired

  datatype Data = Data(json: string)

  datatype Report = Report(
    reportType: ReportType, status: Status, reportData: Option<Data>, downloadUrl: Option<string>,
    errorMessage: Option<string>)

  /** Where a generation task stands: before it loads the report, before its data are there, before
      it records them, before it records a failure, before the handler in create records one. A
      finished task has recorded its result unless the last of these attempts failed, too. */
  datatype Task =
    | Loading
    | Collecting(reportType: ReportType)
    | Completing(data: Data)
    | Failing(message: string)
    | Catching(message: string)
    | Finished(recorded: bool)

  /** One task per created report; ids are never used again. */
  datatype System = System(reports: map<string, Report>, tasks: map<string, Task>)

  /** How the awaited call of a task's next step ends. A failed write has no effect. */
  datatype Ending = Succeeds(data: Data) | Fails(message: string)

  datatype Event =
    | Create(id: string, reportType: ReportType)
    | Continue(id: string, ending: Ending)
    | Remove(id: string)

  predicate IsSupported(t: ReportType) { !t.Tax? }

  predicate IsTerminal(r: Report) { r.status.Completed? || r.status.Failed? }

  function DownloadUrl(id: string): string { "/api/financial-reports/" + id + "/download" }

  // ----- steps

  /** repository.update: nothing happens if the row is gone. */
  function WriteCompleted(reports: map<string, Report>, id: string, data: Data): map<string, Report> {
    if id !in reports then reports
    else reports[id := reports[id].(
           status := Completed, reportData := Some(data), downloadUrl := Some(DownloadUrl(id)))]
  }

  function WriteFailed(reports: map<string, Report>, id: string, message: string): map<string, Report> {
    if id !in reports then reports
    else reports[id := reports[id].(status := Failed, errorMessage := Some(message))]
  }

  function NewReport(reportType: ReportType): Report { Report(reportType, Generating, None, None, None) }

  /** The next step of a task, up to its next await. */
  function ContinueTask(s: System, id: string, ending: Ending): System
    requires id in s.tasks
  {
    match s.tasks[id]
    case Loading =>
      if ending.Fails? then s.(tasks := s.tasks[id := Catching(ending.message)])
      else if id !in s.reports then s.(tasks := s.tasks[id := Catching("Financial report not found")])
      else s.(tasks := s.tasks[id := Collecting(s.reports[id].reportType)])
    case Collecting(t) =>
      if !IsSupported(t) then s.(tasks := s.tasks[id := Failing("Unsupported report type: tax")])
      else if ending.Fails? then s.(tasks := s.tasks[id := Failing(ending.message)])
      else s.(tasks := s.tasks[id := Completing(ending.data)])
    case Completing(data) =>
      if ending.Fails? then s.(tasks := s.tasks[id := Failing(ending.message)])
      else System(WriteCompleted(s.reports, id, data), s.tasks[id := Finished(true)])
    case Failing(message) =>
      if ending.Fails? then s.(tasks := s.tasks[id := Catching(ending.message)])
      else System(WriteFailed(s.reports, id, message), s.tasks[id := Finished(true)])
    case Catching(message) =>
      if ending.Fails? then s.(tasks := s.tasks[id := Finished(false)])
      else System(WriteFailed(s.reports, id, message), s.tasks[id := Finished(true)])
    case Finished(_) => s
  }

  function Step(s: System, e: Event): System {
    match e
    case Create(id, t) =>
      if id in s.tasks then s else System(s.reports[id := NewReport(t)], s.tasks[id := Loading])
    case Continue(id, ending) => if id in s.tasks then ContinueTask(s, id, ending) else s
    case Remove(id) => s.(reports := s.reports - {id})
  }

  function Run(s: System, events: seq<Event>): System
    decreases |events|
  {
    if events == [] then s else Run(Step(s, events[0]), events[1..])
  }

  datatype DownloadError = NotFound | NotReady

  /** getReportDownloadUrl */
  function GetReportDownloadUrl(s: System, id: string): Result<string, DownloadError> {
    if id !in s.reports then Err(NotFound)
    else if s.reports[id].status != Completed then Err(NotReady)
    else Ok(s.reports[id].downloadUrl.GetOr(""))
  }

  // ----- the invariant

  /** A report and its task agree. */
  predicate Agrees(id: string, r: Report, task: Task) {
    && (if task == Finished(true) then IsTerminal(r) else r == NewReport(r.reportType))
    && (r.status.Completed? ==>
          && r.reportData.Some? && r.downloadUrl == Some(DownloadUrl(id)) && r.errorMessage.None?
          && IsSupported(r.reportType))
    && (r.status.Failed? ==> r.reportData.None? && r.downloadUrl.None? && r.errorMessage.Some?)
    && (task.Collecting? ==> task.reportType == r.reportType)
    && (task.Completing? ==> IsSupported(r.reportType))
  }

  predicate Inv(s: System) {
    forall id :: id in s.reports ==> id in s.tasks && Agrees(id, s.reports[id], s.tasks[id])
  }

  /** A task touches its own report only, and they keep agreeing. */
  lemma ContinueIsLocal(s: System, id: string, ending: Ending)
    requires id in s.tasks && (id in s.reports ==> Agrees(id, s.reports[id], s.tasks[id]))
    ensures var next := ContinueTask(s, id, ending);
            && next.reports.Keys == s.reports.Keys && next.tasks.Keys == s.tasks.Keys
            && (id in next.reports ==> Agrees(id, next.reports[id], next.tasks[id]))
            && (forall other :: other in s.reports && other != id ==> next.reports[other] == s.reports[other])
            && (forall other :: other in s.tasks && other != id ==> next.tasks[other] == s.tasks[other])
  {}

  lemma NewReportAgrees(id: string, t: ReportType)
    ensures Agrees(id, NewReport(t), Loading)
  {}

  lemma StepKeepsInv(s: System, e: Event)
    requires Inv(s)
    ensures Inv(Step(s, e))
  {
    hide Agrees;
    hide ContinueTask;
    match e
    case Create(id, t) => NewReportAgrees(id, t);
    case Continue(id, ending) =>
      if id in s.tasks {
        ContinueIsLocal(s, id, ending);
      }
    case Remove(_) =>
  }

  lemma {:induction false} RunKeepsInv(s: System, events: seq<Event>)
    requires Inv(s)
    ensures Inv(Run(s, events))
    decreases |events|
  {
    if events == [] {
    } else {
      StepKeepsInv(s, events[0]);
      RunKeepsInv(Step(s, events[0]), events[1..]);
    }
  }

  // ----- what one step can do to a report

  /** A report is left alone, or moves from GENERATING to COMPLETED or FAILED; its type stays. */
  predicate Follows(before: Report, after: Report) {
    after == before || (before.status.Generating? && IsTerminal(after) && after.reportType == before.reportType)
  }

  lemma StepMovesForward(s: System, e: Event, id: string)
    requires Inv(s) && id in s.tasks
    ensures var next := Step(s, e);
            && id in next.tasks
            && (id !in s.reports ==> id !in next.reports)
            && (id in s.reports && id in next.reports ==> Follows(s.reports[id], next.reports[id]))
            && (id in s.reports && id !in next.reports ==> e == Remove(id))
  {}

  /** From any reachable state on, whatever happens in whatever order: a report that was created
      and is gone never comes back; one that is still there is unchanged or has moved from
      GENERATING to COMPLETED or FAILED, so a terminal report never changes; and a report
      disappears only by a request to remove it. */
  lemma {:induction false} ReportsMoveForward(s: System, events: seq<Event>, id: string)
    requires Inv(s) && id in s.tasks
    ensures var after := Run(s, events);
            && id in after.tasks
            && (id !in s.reports ==> id !in after.reports)
            && (id in s.reports && id in after.reports ==> Follows(s.reports[id], after.reports[id]))
            && (id in s.reports && id !in after.reports ==> Remove(id) in events)
    decreases |events|
  {
    if events == [] {
    } else {
      StepMovesForward(s, events[0], id);
      StepKeepsInv(s, events[0]);
      ReportsMoveForward(Step(s, events[0]), events[1..], id);
    }
  }

  /** In every state a run from the empty system reaches: a completed report has its data and its
      own download address and is of a supported type; a report whose task has recorded a result is
      terminal, and every other one is as it was created; nothing is ever EXPIRED. */
  lemma ReachableReports(events: seq<Event>, id: string)
    requires id in Run(System(map[], map[]), events).reports
    ensures var s := Run(System(map[], map[]), events);
            var r := s.reports[id];
            && id in s.tasks
            && (r.status.Completed? ==>
                  r.reportData.Some? && r.downloadUrl == Some(DownloadUrl(id)) && IsSupported(r.reportType))
            && (IsTerminal(r) <==> s.tasks[id] == Finished(true))
            && (!IsTerminal(r) ==> r == Report(r.reportType, Generating, None, None, None))
            && (GetReportDownloadUrl(s, id) == if r.status.Completed? then Ok(DownloadUrl(id)) else Err(NotReady))
  {
    RunKeepsInv(System(map[], map[]), events);
  }

  // ----- every task ends

  /** The awaited calls a task can still make. */
  function Remaining(task: Task): nat {
    match task
    case Loading => 5
    case Collecting(_) => 4
    case Completing(_) => 3
    case Failing(_) => 2
    case Catching(_) => 1
    case Finished(_) => 0
  }

  /** The number of steps a run makes on one unfinished task. */
  function StepsOf(s: System, events: seq<Event>, id: string): nat
    decreases |events|
  {
    if events == [] then 0
    else
      (if events[0].Continue? && events[0].id == id && id in s.tasks && !s.tasks[id].Finished? then 1 else 0)
      + StepsOf(Step(s, events[0]), events[1..], id)
  }

  lemma ContinueUsesUp(s: System, running: string, ending: Ending, id: string)
    requires running in s.tasks && id in s.tasks
    ensures var tasks := ContinueTask(s, running, ending).tasks;
            && id in tasks
            && (id != running || s.tasks[id].Finished? ==> tasks[id] == s.tasks[id])
            && (id == running && !s.tasks[id].Finished? ==> Remaining(tasks[id]) < Remaining(s.tasks[id]))
  {
    hide WriteCompleted;
    hide WriteFailed;
  }

  lemma StepUsesUp(s: System, e: Event, id: string)
    requires id in s.tasks
    ensures id in Step(s, e).tasks
    ensures var left := Remaining(Step(s, e).tasks[id]);
            if e.Continue? && e.id == id && !s.tasks[id].Finished? then left < Remaining(s.tasks[id])
            else left == Remaining(s.tasks[id])
  {
    hide ContinueTask;
    hide Remaining;
    if e.Continue? && e.id in s.tasks {
      ContinueUsesUp(s, e.id, e.ending, id);
    }
  }

  /** However a run interleaves its tasks, each makes at most five steps after its creation, and a
      task that has made all it can is finished. */
  lemma {:induction false} TasksAreBounded(s: System, events: seq<Event>, id: string)
    requires id in s.tasks
    ensures id in Run(s, events).tasks
    ensures StepsOf(s, events, id) + Remaining(Run(s, events).tasks[id]) <= Remaining(s.tasks[id]) <= 5
    decreases |events|
  {
    if events == [] {
    } else {
      StepUsesUp(s, events[0], id);
      TasksAreBounded(Step(s, events[0]), events[1..], id);
    }
  }

  // ----- what a report ends as

  lemma {:induction false} RunOfOneMore(s: System, events: seq<Event>)
    requires events != []
    ensures Run(s, events) == Step(Run(s, events[..|events| - 1]), events[|events| - 1])
    decreases |events|
  {
    hide Step;
    var last := |events| - 1;
    if last == 0 {
      assert events[1..] == [];
    } else {
      RunOfOneMore(Step(s, events[0]), events[1..]);
      assert events[1..][..last - 1] == events[..last][1..];
    }
  }

  /** The event collects these data for a report of a supported type. */
  predicate Collects(s: System, e: Event, id: string, data: Data) {
    && e == Continue(id, Succeeds(data)) && id in s.tasks
    && s.tasks[id].Collecting? && s.tasks[id].reportType != Tax
  }

  /** The event writes these data into the report, as COMPLETED. */
  predicate RecordsData(s: System, e: Event, id: string, data: Data) {
    e.Continue? && e.id == id && e.ending.Succeeds? && id in s.tasks && s.tasks[id] == Completing(data)
  }

  /** The event fails the task with this message: the awaited call fails with it, the report is
      gone when it is loaded, or its type is not supported. */
  predicate FailsWith(s: System, e: Event, id: string, message: string) {
    && e.Continue? && e.id == id && id in s.tasks
    && match s.tasks[id]
       case Loading =>
         e.ending == Fails(message)
         || (e.ending.Succeeds? && id !in s.reports && message == "Financial report not found")
       case Collecting(t) =>
         (t == Tax && message == "Unsupported report type: tax") || (t != Tax && e.ending == Fails(message))
       case Completing(_) => e.ending == Fails(message)
       case Failing(_) => e.ending == Fails(message)
       case _ => false
  }

  /** The event writes this message into the report, as FAILED. */
  predicate RecordsFailure(s: System, e: Event, id: string, message: string) {
    && e.Continue? && e.id == id && e.ending.Succeeds? && id in s.tasks
    && (s.tasks[id] == Failing(message) || s.tasks[id] == Catching(message))
  }

  predicate HoldsMessage(task: Task, message: string) { task == Failing(message) || task == Catching(message) }

  predicate IsCompletedWith(s: System, id: string, data: Data) {
    && id in s.reports && s.reports[id].status == Completed && s.reports[id].reportData == Some(data)
    && s.reports[id].downloadUrl == Some("/api/financial-reports/" + id + "/download")
  }

  predicate IsFailedWith(s: System, id: string, message: string) {
    && id in s.reports && s.reports[id].status == Failed && s.reports[id].errorMessage == Some(message)
    && s.reports[id].reportData == None
  }

  /** One step gives a task data or a message only as it collects or fails. */
  lemma StepOnTask(s: System, e: Event, id: string, data: Data, message: string)
    ensures var next := Step(s, e);
            && (id in next.tasks && next.tasks[id] == Completing(data)
                ==> Collects(s, e, id, data) || (id in s.tasks && s.tasks[id] == Completing(data)))
            && (id in next.tasks && HoldsMessage(next.tasks[id], message)
                ==> FailsWith(s, e, id, message) || (id in s.tasks && HoldsMessage(s.tasks[id], message)))
  {}

  /** One step completes or fails a report that is there exactly by recording its data or a message. */
  lemma StepOnReport(s: System, e: Event, id: string, data: Data, message: string)
    requires Inv(s) && id in Step(s, e).reports
    ensures IsCompletedWith(Step(s, e), id, data) <==> IsCompletedWith(s, id, data) || RecordsData(s, e, id, data)
    ensures IsFailedWith(Step(s, e), id, message) <==> IsFailedWith(s, id, message) || RecordsFailure(s, e, id, message)
  {}

  /** In every run: the data a task is about to record were collected, and the message it is about
      to record is that of a step that failed. */
  lemma {:induction false} TasksRememberTheirCause(events: seq<Event>, id: string, data: Data, message: string)
    ensures var start := System(map[], map[]);
            var s := Run(start, events);
            && (id in s.tasks && s.tasks[id] == Completing(data) ==>
                  exists i :: 0 <= i < |events| && Collects(Run(start, events[..i]), events[i], id, data))
            && (id in s.tasks && HoldsMessage(s.tasks[id], message) ==>
                  exists i :: 0 <= i < |events| && FailsWith(Run(start, events[..i]), events[i], id, message))
  {
    hide Step;
    hide Collects;
    hide FailsWith;
    hide HoldsMessage;
    if events == [] {
    } else {
      var last := |events| - 1;
      var before := events[..last];
      TasksRememberTheirCause(before, id, data, message);
      RunOfOneMore(System(map[], map[]), events);
      StepOnTask(Run(System(map[], map[]), before), events[last], id, data, message);
      forall i | 0 <= i < last
        ensures before[..i] == events[..i] && before[i] == events[i]
      {}
    }
  }

  lemma StepKeepsTask(s: System, e: Event, id: string)
    requires id in s.tasks
    ensures id in Step(s, e).tasks
  {}

  lemma {:induction false} TaskStays(s: System, events: seq<Event>, i: nat, id: string)
    requires i <= |events| && id in Run(s, events[..i]).tasks
    ensures id in Run(s, events).tasks
  {
    hide Step;
    if i == |events| {
      assert events[..i] == events;
    } else {
      var last := |events| - 1;
      assert events[..last][..i] == events[..i];
      TaskStays(s, events[..last], i, id);
      RunOfOneMore(s, events);
      StepKeepsTask(Run(s, events[..last]), events[last], id);
    }
  }

  /** Before its creation nothing is recorded for a report. */
  lemma NothingRecordedYet(events: seq<Event>, id: string, data: Data, message: string)
    requires id !in Run(System(map[], map[]), events).tasks
    ensures forall i :: 0 <= i < |events| ==>
              && !RecordsData(Run(System(map[], map[]), events[..i]), events[i], id, data)
              && !RecordsFailure(Run(System(map[], map[]), events[..i]), events[i], id, message)
  {
    hide Run;
    forall i | 0 <= i < |events|
      ensures id !in Run(System(map[], map[]), events[..i]).tasks
    {
      if id in Run(System(map[], map[]), events[..i]).tasks {
        TaskStays(System(map[], map[]), events, i, id);
      }
    }
  }

  lemma NewReportHasNewTask(s: System, e: Event, id: string)
    requires id !in s.reports && id in Step(s, e).reports
    ensures id !in s.tasks
  {}

  lemma NotYetEnded(s: System, id: string, data: Data, message: string)
    requires id !in s.reports
    ensures !IsCompletedWith(s, id, data) && !IsFailedWith(s, id, message)
  {}

  /** In every run: a report that is there is COMPLETED with certain data, under its own address, if
      and only if some event recorded those, and FAILED with a certain message if and only if some
      event recorded that. */
  lemma {:induction false} EndsExactly(events: seq<Event>, id: string, data: Data, message: string)
    requires id in Run(System(map[], map[]), events).reports
    ensures var start := System(map[], map[]);
            var s := Run(start, events);
            && (IsCompletedWith(s, id, data) <==>
                  exists i :: 0 <= i < |events| && RecordsData(Run(start, events[..i]), events[i], id, data))
            && (IsFailedWith(s, id, message) <==>
                  exists i :: 0 <= i < |events| && RecordsFailure(Run(start, events[..i]), events[i], id, message))
  {
    hide Step;
    hide RecordsData;
    hide RecordsFailure;
    hide IsCompletedWith;
    hide IsFailedWith;
    var start := System(map[], map[]);
    if events == [] {
    } else {
      var last := |events| - 1;
      var before := events[..last];
      RunOfOneMore(start, events);
      RunKeepsInv(start, before);
      StepOnReport(Run(start, before), events[last], id, data, message);
      forall i | 0 <= i < last
        ensures before[..i] == events[..i] && before[i] == events[i]
      {}
      if id in Run(start, before).reports {
        EndsExactly(before, id, data, message);
      } else {
        NewReportHasNewTask(Run(start, before), events[last], id);
        NothingRecordedYet(before, id, data, message);
        NotYetEnded(Run(start, before), id, data, message);
      }
    }
  }

  // ----- tasks that record nothing

  /** The event is a failure of the last attempt to record a failure, that of the handler in create. */
  predicate LosesResult(s: System, e: Event, id: string) {
    e.Continue? && e.id == id && e.ending.Fails? && id in s.tasks && s.tasks[id].Catching?
  }

  predicate Unrecorded(s: System, id: string) { id in s.tasks && s.tasks[id] == Finished(false) }

  lemma StepUnrecorded(s: System, e: Event, id: string)
    ensures Unrecorded(Step(s, e), id) <==> Unrecorded(s, id) || LosesResult(s, e, id)
  {}

  /** A task finishes without recording anything if and only if, at some point of the run, it stands
      in the handler and the handler's own write fails: any number of failures before are made up
      for by one write that succeeds. */
  lemma {:induction false} UnrecordedExactly(s: System, events: seq<Event>, id: string)
    requires !Unrecorded(s, id)
    ensures Unrecorded(Run(s, events), id)
            <==> exists i :: 0 <= i < |events| && LosesResult(Run(s, events[..i]), events[i], id)
  {
    hide Step;
    hide LosesResult;
    hide Unrecorded;
    if events == [] {
    } else {
      var last := |events| - 1;
      var before := events[..last];
      UnrecordedExactly(s, before, id);
      RunOfOneMore(s, events);
      StepUnrecorded(Run(s, before), events[last], id);
      forall i | 0 <= i < last
        ensures before[..i] == events[..i] && before[i] == events[i]
      {}
    }
  }

  lemma {:induction false} StaysUnrecorded(s: System, events: seq<Event>, id: string)
    requires Unrecorded(s, id)
    ensures Unrecorded(Run(s, events), id)
    decreases |events|
  {
    hide Step;
    hide Unrecorded;
    if events == [] {
    } else {
      StepUnrecorded(s, events[0], id);
      StaysUnrecorded(Step(s, events[0]), events[1..], id);
    }
  }

  /** From any reachable state on: once a task has finished without recording anything its report,
      as long as it is not removed, stays GENERATING for ever. */
  lemma GeneratingForEver(s: System, events: seq<Event>, id: string)
    requires Inv(s) && Unrecorded(s, id)
    ensures var after := Run(s, events).reports;
            id in after ==> after[id] == NewReport(after[id].reportType)
  {
    RunKeepsInv(s, events);
    StaysUnrecorded(s, events, id);
  }

  /** A finished task has recorded its result, unless the handler's write failed: its report is then
      COMPLETED, FAILED or removed. */
  lemma FinishedMeansRecorded(events: seq<Event>, id: string)
    ensures var start := System(map[], map[]);
            var s := Run(start, events);
            id in s.reports && id in s.tasks && s.tasks[id].Finished? ==>
              (IsTerminal(s.reports[id])
               <==> !exists i :: 0 <= i < |events| && LosesResult(Run(start, events[..i]), events[i], id))
  {
    RunKeepsInv(System(map[], map[]), events);
    UnrecordedExactly(System(map[], map[]), events, id);
  }

  lemma RunFrom(s: System, e: Event, rest: seq<Event>)
    ensures Run(s, [e] + rest) == Run(Step(s, e), rest)
  {
    hide Step;
    assert ([e] + rest)[1..] == rest;
  }

  lemma RunOfNothing(s: System)
    ensures Run(s, []) == s
  {}

  lemma RunOfSix(s: System, a: Event, b: Event, c: Event, d: Event, e: Event, f: Event)
    ensures Run(s, [a, b, c, d, e, f]) == Step(Step(Step(Step(Step(Step(s, a), b), c), d), e), f)
  {
    var s1 := Step(s, a);
    var s2 := Step(s1, b);
    var s3 := Step(s2, c);
    var s4 := Step(s3, d);
    var s5 := Step(s4, e);
    RunFrom(s, a, [b, c, d, e, f]);
    RunFrom(s1, b, [c, d, e, f]);
    RunFrom(s2, c, [d, e, f]);
    RunFrom(s3, d, [e, f]);
    RunFrom(s4, e, [f]);
    RunFrom(s5, f, []);
    hide Step;
    hide Run;
    assert [a] + [b, c, d, e, f] == [a, b, c, d, e, f] && [b] + [c, d, e, f] == [b, c, d, e, f]
           && [c] + [d, e, f] == [c, d, e, f] && [d] + [e, f] == [d, e, f] && [e] + [f] == [e, f] && [f] + [] == [f];
    RunOfNothing(Step(s5, f));
  }

  /** A report is created, its data are collected, and all three writes fail. */
  lemma ReportIsStuck(id: string, data: Data, more: seq<Event>)
    ensures var fails := Continue(id, Fails("connection lost"));
            var collects := Continue(id, Succeeds(data));
            var events := [Create(id, Revenue), collects, collects, fails, fails, fails];
            var s := Run(System(map[], map[]), events);
            && id in s.reports && Unrecorded(s, id)
            && (id in Run(s, more).reports ==> Run(s, more).reports[id].status == Generating)
  {
    var fails, collects := Continue(id, Fails("connection lost")), Continue(id, Succeeds(data));
    var s0 := System(map[], map[]);
    var s1 := Step(s0, Create(id, Revenue));
    var s2 := Step(s1, collects);
    var s3 := Step(s2, collects);
    var s4 := Step(s3, fails);
    var s5 := Step(s4, fails);
    var s6 := Step(s5, fails);
    assert s3.tasks[id] == Completing(data) && s5.tasks[id].Catching? && s6.tasks[id] == Finished(false);
    RunOfSix(s0, Create(id, Revenue), collects, collects, fails, fails, fails);
    var events := [Create(id, Revenue), collects, collects, fails, fails, fails];
    RunKeepsInv(s0, events);
    GeneratingForEver(s6, more, id);
  }

  lemma RunOfFour(s: System, a: Event, b: Event, c: Event, d: Event)
    ensures Run(s, [a, b, c, d]) == Step(Step(Step(Step(s, a), b), c), d)
  {
    var s1 := Step(s, a);
    var s2 := Step(s1, b);
    var s3 := Step(s2, c);
    RunFrom(s, a, [b, c, d]);
    RunFrom(s1, b, [c, d]);
    RunFrom(s2, c, [d]);
    RunFrom(s3, d, []);
    hide Step;
    hide Run;
    assert [a] + [b, c, d] == [a, b, c, d] && [b] + [c, d] == [b, c, d] && [c] + [d] == [c, d] && [d] + [] == [d];
    RunOfNothing(Step(s3, d));
  }

  /** A report whose steps all succeed is COMPLETED with the data that were collected. */
  lemma SuccessfulReport(id: string, t: ReportType, data: Data)
    requires t != Tax
    ensures var succeeds := Continue(id, Succeeds(data));
            IsCompletedWith(Run(System(map[], map[]), [Create(id, t), succeeds, succeeds, succeeds]), id, data)
  {
    var e := Continue(id, Succeeds(data));
    var s1 := Step(System(map[], map[]), Create(id, t));
    var s2 := Step(s1, e);
    var s3 := Step(s2, e);
    assert s2.tasks[id] == Collecting(t) && s3.tasks[id] == Completing(data);
    RunOfFour(System(map[], map[]), Create(id, t), e, e, e);
  }

  /** A report of an unsupported type fails with that message, though no call fails. */
  lemma UnsupportedReport(id: string, data: Data)
    ensures var succeeds := Continue(id, Succeeds(data));
            IsFailedWith(Run(System(map[], map[]), [Create(id, Tax), succeeds, succeeds, succeeds]), id,
                         "Unsupported report type: tax")
  {
    var e := Continue(id, Succeeds(data));
    var s1 := Step(System(map[], map[]), Create(id, Tax));
    var s2 := Step(s1, e);
    var s3 := Step(s2, e);
    assert s2.tasks[id] == Collecting(Tax) && s3.tasks[id] == Failing("Unsupported report type: tax");
    RunOfFour(System(map[], map[]), Create(id, Tax), e, e, e);
  }

  /** A removed report is gone, whatever follows. */
  lemma RemovedIsGone(s: System, more: seq<Event>, id: string)
    requires Inv(s) && id in s.tasks
    ensures id !in Run(Step(s, Remove(id)), more).reports
  {
    StepKeepsInv(s, Remove(id));
    ReportsMoveForward(Step(s, Remove(id)), more, id);
  }

  // ----- the service

  /** The service: each method is one uninterrupted piece of it. */
  class FinancialReportService {
    var reports: map<string, Report>
    var tasks: map<string, Task>

    ghost predicate Valid()
      reads this
    {
      Inv(System(reports, tasks))
    }

    constructor ()
      ensures Valid()
      ensures System(reports, tasks) == System(map[], map[])
    {
      reports, tasks := map[], map[];
    }

    method CreateReport(id: string, reportType: ReportType)
      requires id !in tasks
      requires Valid()
      modifies this
      ensures Valid()
      ensures System(reports, tasks) == Step(old(System(reports, tasks)), Create(id, reportType))
    {
      StepKeepsInv(System(reports, tasks), Create(id, reportType));
      reports := reports[id := NewReport(reportType)];
      tasks := tasks[id := Loading];
    }

    method RemoveReport(id: string) returns (found: bool)
      requires Valid()
      modifies this
      ensures Valid()
      ensures System(reports, tasks) == Step(old(System(reports, tasks)), Remove(id))
      ensures found <==> id in old(reports)
    {
      StepKeepsInv(System(reports, tasks), Remove(id));
      found := id in reports;
      if found {
        reports := reports - {id};
      }
    }

    method UpdateToCompleted(id: string, data: Data)
      modifies this`reports
      ensures reports == WriteCompleted(old(reports), id, data)
    {
      if id in reports {
        var report := reports[id];
        reports := reports[id := report.(
          status := Completed, reportData := Some(data), downloadUrl := Some(DownloadUrl(id)))];
      }
    }

    method UpdateToFailed(id: string, message: string)
      modifies this`reports
      ensures reports == WriteFailed(old(reports), id, message)
    {
      if id in reports {
        reports := reports[id := reports[id].(status := Failed, errorMessage := Some(message))];
      }
    }

    method ContinueGeneration(id: string, ending: Ending)
      requires id in tasks
      requires Valid()
      modifies this
      ensures Valid()
      ensures System(reports, tasks) == Step(old(System(reports, tasks)), Continue(id, ending))
      ensures old(tasks)[id].Completing? && ending.Succeeds? && id in old(reports)
              ==> && id in reports && reports[id].status == Completed
                  && reports[id].reportData == Some(old(tasks)[id].data)
      ensures (old(tasks)[id].Failing? || old(tasks)[id].Catching?) && ending.Succeeds? && id in old(reports)
              ==> && id in reports && reports[id].status == Failed
                  && reports[id].errorMessage == Some(old(tasks)[id].message)
    {
      StepKeepsInv(System(reports, tasks), Continue(id, ending));
      match tasks[id] {
        case Loading =>
          if ending.Fails? {
            tasks := tasks[id := Catching(ending.message)];
          } else if id !in reports {
            tasks := tasks[id := Catching("Financial report not found")];
          } else {
            tasks := tasks[id := Collecting(reports[id].reportType)];
          }
        case Collecting(t) =>
          if !IsSupported(t) {
            tasks := tasks[id := Failing("Unsupported report type: tax")];
          } else if ending.Fails? {
            tasks := tasks[id := Failing(ending.message)];
          } else {
            tasks := tasks[id := Completing(ending.data)];
          }
        case Completing(data) =>
          if ending.Fails? {
            tasks := tasks[id := Failing(ending.message)];
          } else {
            UpdateToCompleted(id, data);
            tasks := tasks[id := Finished(true)];
          }
        case Failing(message) =>
          if ending.Fails? {
            tasks := tasks[id := Catching(ending.message)];
          } else {
            UpdateToFailed(id, message);
            tasks := tasks[id := Finished(true)];
          }
        case Catching(message) =>
          if ending.Fails? {
            tasks := tasks[id := Finished(false)];
          } else {
            UpdateToFailed(id, message);
            tasks := tasks[id := Finished(true)];
          }
        case Finished(_) =>
      }
    }
  }
}
