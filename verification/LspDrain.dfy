/** Left alone, the client comes to rest: every step of its own lowers a weight,
    and while there is anything left to do some step is possible. */
module LspDrain {
  import opened Wrappers
  import opened LspProtocol
  import opened LspSync
  import opened LspSafety

  function OperationWeight(operation: Operation): nat {
    match operation
    case SyncProject(project) => 1 + 3 * |project.paths|
    case SendChange(_) => 2
    case ConfigureAnalysis => 3
  }

  function QueueWeight(queue: seq<Operation>): nat {
    if queue == [] then 0 else OperationWeight(queue[0]) + QueueWeight(queue[1..])
  }

  function TaskWeight(task: Task): nat {
    match task
    case Idle => 0
    case Closing(project, _, _) => 3 * |project.paths|
    case Opening(_, rest) => 1 + 3 * |rest|
    case Sending => 1
    case Configuring => 2
    case Announcing => 1
  }

  /** Everything but the running operation: an open document may still have to be
      closed, a timer to fire, send and be answered. */
  function Backlog(s: State): nat {
    QueueWeight(s.queue) + 3 * |s.changeTimers| + |s.keys| + |s.flushes|
  }

  /** A bound on the steps left to take. */
  function Weight(s: State): nat {
    Backlog(s) + TaskWeight(s.task)
  }

  lemma {:induction false} QueueWeightSnoc(queue: seq<Operation>, operation: Operation)
    ensures QueueWeight(queue + [operation]) == QueueWeight(queue) + OperationWeight(operation)
  {
    if queue == [] {
      assert (queue + [operation])[1..] == [];
    } else {
      assert (queue + [operation])[1..] == queue[1..] + [operation];
      QueueWeightSnoc(queue[1..], operation);
    }
  }

  lemma CancelBacklog(s: State, path: Path)
    ensures Backlog(Cancel(s, path)) <= Backlog(s)
    ensures path in s.changeTimers ==> Backlog(Cancel(s, path)) + 3 == Backlog(s)
  {
    if path in s.changeTimers {
      assert (s.changeTimers - {path}).Keys == s.changeTimers.Keys - {path};
    }
  }

  lemma ScheduleBacklog(s: State, path: Path)
    ensures Backlog(Schedule(s, path)) <= Backlog(s) + 3
  {
    var c := Cancel(s, path);
    CancelBacklog(s, path);
    assert c.changeTimers[path := c.nextTimer].Keys == c.changeTimers.Keys + {path};
  }

  lemma {:induction false} OpenFromWeight(s: State, project: Project, rest: seq<Path>)
    requires forall path :: path in rest ==> path in project.sources
    ensures Weight(OpenFrom(s, project, rest)) <= Backlog(s) + 3 * |rest|
    decreases |rest|
  {
    hide Schedule;
    if rest != [] {
      var path, source := rest[0], project.sources[rest[0]];
      if path !in s.documents {
      } else if s.documents[path].source != source {
        var u := s.(documents := s.documents[path := s.documents[path].(source := source)]);
        ScheduleBacklog(u, path);
        OpenFromWeight(Schedule(u, path), project, rest[1..]);
      } else {
        OpenFromWeight(s, project, rest[1..]);
      }
    }
  }

  lemma {:induction false} CloseFromWeight(s: State, project: Project, rest: seq<Path>, order: seq<Path>)
    requires forall path :: path in order ==> path in project.sources
    requires |order| == |project.paths|
    ensures Weight(CloseFrom(s, project, rest, order)) <= Backlog(s) + 3 * |order|
    decreases |rest|
  {
    hide Cancel, OpenFrom;
    if rest == [] {
      OpenFromWeight(s, project, order);
    } else if rest[0] in project.sources {
      CloseFromWeight(s, project, rest[1..], order);
    } else {
      CancelBacklog(s, rest[0]);
    }
  }

  lemma StartWeight(s: State, collatesBefore: (Path, Path) -> bool)
    requires WellFormed(s) && s.task.Idle? && s.queue != []
    ensures Weight(Proceed(s, collatesBefore)) < Weight(s)
  {
    hide OpenFrom, CloseFrom, OpenOrder;
    var t := s.(queue := s.queue[1..]);
    if s.queue[0].SyncProject? {
      var project := s.queue[0].project;
      OrderCovers(project, collatesBefore);
      CloseFromWeight(t, project, t.keys, OpenOrder(project, collatesBefore));
    }
  }

  lemma ClosedWeight(s: State, collatesBefore: (Path, Path) -> bool)
    requires WellFormed(s) && s.task.Closing? && KeysAgree(s) && s.task.closing in s.documents
    ensures Weight(Proceed(s, collatesBefore)) < Weight(s)
  {
    hide OpenFrom, CloseFrom, OpenOrder, Without;
    var project, path := s.task.project, s.task.closing;
    WithoutContents(s.keys, path);
    OrderCovers(project, collatesBefore);
    var t := s.(documents := s.documents - {path}, keys := Without(s.keys, path));
    assert Backlog(t) + 1 == Backlog(s);
    CloseFromWeight(t, project, s.task.rest, OpenOrder(project, collatesBefore));
  }

  lemma ContinueWeight(s: State, collatesBefore: (Path, Path) -> bool)
    requires Inv(s) && Enabled(s, Continue)
    ensures Weight(Proceed(s, collatesBefore)) < Weight(s)
  {
    hide OpenFrom, CloseFrom, OpenOrder, Without, NothingLost, ServerAgrees, TimersAgree, QueueProgress, KeysAgree;
    match s.task
    case Idle => StartWeight(s, collatesBefore);
    case Closing(_, _, _) => ClosedWeight(s, collatesBefore);
    case Opening(project, rest) => OpenFromWeight(s, project, rest);
    case Sending =>
    case Configuring =>
    case Announcing =>
  }

  lemma FireWeight(s: State, id: TimerId)
    requires Inv(s) && id in s.pending
    ensures Weight(FireStep(s, id)) < Weight(s)
  {
    hide Cancel, QueueWeight, TaskProgress, QueueProgress, NothingLost, ServerAgrees, KeysAgree, TimersOpen;
    var path := s.pending[id];
    assert path in s.changeTimers;
    CancelBacklog(s, path);
    CancelIs(s, path);
    QueueWeightSnoc(s.queue, SendChange(path));
  }

  lemma FlushWeight(s: State, index: nat)
    requires index < |s.flushes|
    ensures Weight(FlushStep(s, index)) < Weight(s)
  {
    hide Cancel, QueueWeight;
    var path := s.flushes[index].path;
    var t := s.(flushes := s.flushes[..index] + s.flushes[index + 1..]);
    assert Backlog(t) + 1 == Backlog(s);
    if path in t.changeTimers {
      CancelBacklog(t, path);
      CancelIs(t, path);
      QueueWeightSnoc(t.queue, SendChange(path));
    }
  }

  /** Every step the client takes of its own lowers the weight. */
  lemma StepWeight(s: State, action: Action, collatesBefore: (Path, Path) -> bool)
    requires Inv(s) && Internal(action) && Enabled(s, action)
    ensures Weight(Step(s, action, collatesBefore)) < Weight(s)
    ensures Step(s, action, collatesBefore).requested == s.requested
  {
    hide Inv, Weight, FireStep, FlushStep;
    match action
    case Continue =>
      ContinueWeight(s, collatesBefore);
      ProceedRequested(s, collatesBefore);
    case FireTimer(id) =>
      FireWeight(s, id);
      assert FireStep(s, id).requested == s.requested by { FireRequested(s, id); }
    case ResumeFlush(index) =>
      FlushWeight(s, index);
      FlushRequested(s, index);
  }

  lemma FireRequested(s: State, id: TimerId)
    requires id in s.pending
    ensures FireStep(s, id).requested == s.requested
  {
  }

  lemma FlushRequested(s: State, index: nat)
    requires index < |s.flushes|
    ensures FlushStep(s, index).requested == s.requested
  {
  }

  lemma {:induction false} OpenFromRequested(s: State, project: Project, rest: seq<Path>)
    requires forall path :: path in rest ==> path in project.sources
    ensures OpenFrom(s, project, rest).requested == s.requested
    decreases |rest|
  {
    if rest != [] {
      var path, source := rest[0], project.sources[rest[0]];
      if path in s.documents && s.documents[path].source != source {
        OpenFromRequested(Schedule(s.(documents := s.documents[path := s.documents[path].(source := source)]), path), project, rest[1..]);
      } else if path in s.documents {
        OpenFromRequested(s, project, rest[1..]);
      }
    }
  }

  lemma {:induction false} CloseFromRequested(s: State, project: Project, rest: seq<Path>, order: seq<Path>)
    requires forall path :: path in order ==> path in project.sources
    ensures CloseFrom(s, project, rest, order).requested == s.requested
    decreases |rest|
  {
    if rest == [] {
      OpenFromRequested(s, project, order);
    } else if rest[0] in project.sources {
      CloseFromRequested(s, project, rest[1..], order);
    }
  }

  lemma ProceedRequested(s: State, collatesBefore: (Path, Path) -> bool)
    requires Enabled(s, Continue)
    ensures Proceed(s, collatesBefore).requested == s.requested
  {
    hide OpenFrom, CloseFrom, OpenOrder, Without;
    if s.task.Idle? && s.queue[0].SyncProject? {
      var t := s.(queue := s.queue[1..]);
      OrderCovers(s.queue[0].project, collatesBefore);
      CloseFromRequested(t, s.queue[0].project, t.keys, OpenOrder(s.queue[0].project, collatesBefore));
    } else if s.task.Closing? {
      OrderCovers(s.task.project, collatesBefore);
      CloseFromRequested(
        s.(documents := s.documents - {s.task.closing}, keys := Without(s.keys, s.task.closing)),
        s.task.project, s.task.rest, OpenOrder(s.task.project, collatesBefore));
    } else if s.task.Opening? {
      OpenFromRequested(s, s.task.project, s.task.rest);
    }
  }

  ghost predicate Stuck(s: State) {
    forall action :: Internal(action) ==> !Enabled(s, action)
  }

  /** While anything is queued, running, scheduled or waiting, a step is possible. */
  lemma StuckIffAtRest(s: State)
    requires Inv(s)
    ensures Stuck(s) <==> AtRest(s) && s.flushes == []
  {
    hide NothingLost, ServerAgrees, KeysAgree, TimersOpen, TaskProgress, LastProject;
    InvWellFormed(s);
    assert forall path :: path in s.changeTimers ==> Enabled(s, FireTimer(s.changeTimers[path]));
    assert forall id :: id in s.pending ==> s.pending[id] in s.changeTimers;
    assert Enabled(s, Continue) <==> !(s.task.Idle? && s.queue == []);
    if s.flushes != [] {
      assert s.flushes[0].ticket <= Queued(s);
      assert s.task.Idle? && s.queue == [] ==> Enabled(s, ResumeFlush(0));
    }
  }

  /** Any run of the client's own steps is no longer than the weight. */
  lemma {:induction false} DrainIsBounded(s: State, actions: seq<Action>, collatesBefore: (Path, Path) -> bool)
    requires Inv(s) && forall i :: 0 <= i < |actions| ==> Internal(actions[i])
    requires Run(s, actions, collatesBefore).Some?
    ensures var t := Run(s, actions, collatesBefore).value;
      |actions| + Weight(t) <= Weight(s) && Inv(t) && t.requested == s.requested
  {
    hide Inv, Step, Enabled, Weight;
    if actions != [] {
      var n := |actions| - 1;
      DrainIsBounded(s, actions[..n], collatesBefore);
      var t := Run(s, actions[..n], collatesBefore).value;
      StepWeight(t, actions[n], collatesBefore);
      StepKeeps(t, actions[n], collatesBefore);
    }
  }

  lemma {:induction false} RunConcat(s: State, first: seq<Action>, second: seq<Action>, collatesBefore: (Path, Path) -> bool)
    requires Run(s, first, collatesBefore).Some?
    ensures Run(s, first + second, collatesBefore) == Run(Run(s, first, collatesBefore).value, second, collatesBefore)
  {
    hide Step, Enabled;
    if second == [] {
      assert first + second == first;
    } else {
      var n := |second| - 1;
      assert (first + second)[..|first| + n] == first + second[..n];
      RunConcat(s, first, second[..n], collatesBefore);
    }
  }

  /** The drain: from any reachable state, however the client's own steps
      interleave, they number at most the weight, and once none is possible the
      server holds exactly the project requested last. */
  lemma DrainReachesTheProject(s: State, actions: seq<Action>, collatesBefore: (Path, Path) -> bool)
    requires Reachable(s, collatesBefore)
    requires forall i :: 0 <= i < |actions| ==> Internal(actions[i])
    requires Run(s, actions, collatesBefore).Some?
    ensures |actions| <= Weight(s)
    ensures var t := Run(s, actions, collatesBefore).value;
      Stuck(t) ==>
        && Serve(t.sent).Some?
        && match s.requested
           case None => Serve(t.sent).value == map[]
           case Some(project) =>
             && Serve(t.sent).value.Keys == project.sources.Keys
             && forall path :: path in project.sources ==> Serve(t.sent).value[path].text == project.sources[path]
  {
    hide Inv, Run, Stuck, Serve, AtRest;
    ReachableInv(s, collatesBefore);
    DrainIsBounded(s, actions, collatesBefore);
    var t := Run(s, actions, collatesBefore).value;
    if Stuck(t) {
      StuckIffAtRest(t);
      var prefix :| Run(Initial, prefix, collatesBefore) == Some(s);
      RunConcat(Initial, prefix, actions, collatesBefore);
      assert Reachable(t, collatesBefore);
      AtRestServerMatches(t, collatesBefore);
    }
  }
}
