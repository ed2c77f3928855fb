/** Setting the analysis options: every call is announced to the server once. */
module LspAnalysis {
  import opened Wrappers
  import opened LspProtocol
  import opened LspSync
  import opened LspSafety
  import opened LspFlush

  /** How often the server was told to look at the watched files again. */
  function Announced(s: State): nat {
    multiset(s.sent)[DidChangeWatchedFiles]
  }

  /** How many calls are still to be announced. */
  function Unannounced(s: State): nat {
    multiset(s.queue)[ConfigureAnalysis] + if s.task.Configuring? then 1 else 0
  }

  function Calls(actions: seq<Action>): nat {
    multiset(actions)[CallConfigure]
  }

  lemma {:induction false} OpenFromAnnounces(s: State, project: Project, rest: seq<Path>)
    requires forall path :: path in rest ==> path in project.sources
    ensures var t := OpenFrom(s, project, rest); Announced(t) == Announced(s) && !t.task.Configuring?
    decreases |rest|
  {
    hide Schedule;
    if rest != [] {
      var path, source := rest[0], project.sources[rest[0]];
      if path in s.documents && s.documents[path].source != source {
        var u := s.(documents := s.documents[path := s.documents[path].(source := source)]);
        ScheduleCounts(u, path);
        OpenFromAnnounces(Schedule(u, path), project, rest[1..]);
      } else if path in s.documents {
        OpenFromAnnounces(s, project, rest[1..]);
      }
    }
  }

  lemma {:induction false} CloseFromAnnounces(s: State, project: Project, rest: seq<Path>, order: seq<Path>)
    requires forall path :: path in order ==> path in project.sources
    ensures var t := CloseFrom(s, project, rest, order); Announced(t) == Announced(s) && !t.task.Configuring?
    decreases |rest|
  {
    hide Cancel, OpenFrom;
    if rest == [] {
      OpenFromAnnounces(s, project, order);
    } else if rest[0] in project.sources {
      CloseFromAnnounces(s, project, rest[1..], order);
    } else {
      ScheduleCounts(s, rest[0]);
    }
  }

  lemma Said(s: State, t: State, message: Message)
    requires t.sent == s.sent + [message]
    ensures Announced(t) == Announced(s) + (if message.DidChangeWatchedFiles? then 1 else 0)
  {
  }

  lemma QueuedMore(s: State, t: State, operation: Operation)
    requires t.queue == s.queue + [operation] && t.task == s.task
    ensures Unannounced(t) == Unannounced(s) + (if operation.ConfigureAnalysis? then 1 else 0)
  {
  }

  lemma Same(s: State, t: State)
    ensures t.sent == s.sent ==> Announced(t) == Announced(s)
    ensures t.queue == s.queue && t.task.Configuring? == s.task.Configuring? ==> Unannounced(t) == Unannounced(s)
  {
  }

  lemma Dequeued(s: State, t: State)
    requires s.task.Idle? && s.queue != [] && t.queue == s.queue[1..]
    ensures Unannounced(s) ==
      Unannounced(t) - (if t.task.Configuring? then 1 else 0) + (if s.queue[0].ConfigureAnalysis? then 1 else 0)
  {
    assert s.queue == [s.queue[0]] + s.queue[1..];
  }

  lemma ChangeAnnounces(s: State, path: Path)
    ensures var t := BeginChange(s, path); Announced(t) == Announced(s) && !t.task.Configuring?
  {
    hide Announced;
    var t := BeginChange(s, path);
    Same(s, t);
    if path in s.documents && Dirty(s.documents[path]) {
      Said(s, t, DidChange(path, t.documents[path].version, s.documents[path].source));
    }
  }

  lemma StartAnnounces(s: State, collatesBefore: (Path, Path) -> bool)
    requires Enabled(s, Continue) && s.task.Idle?
    ensures var t := Proceed(s, collatesBefore); Announced(t) + Unannounced(t) == Announced(s) + Unannounced(s)
  {
    hide OpenFrom, CloseFrom, OpenOrder, WellFormed, BeginChange, Announced, Unannounced;
    ContinueWellFormed(s);
    ProceedCounts(s, collatesBefore);
    Dequeued(s, Proceed(s, collatesBefore));
    var t := s.(queue := s.queue[1..]);
    Same(s, t);
    match s.queue[0]
    case SyncProject(project) =>
      WellFormedHead(s);
      OrderCovers(project, collatesBefore);
      CloseFromAnnounces(t, project, t.keys, OpenOrder(project, collatesBefore));
    case SendChange(path) => ChangeAnnounces(t, path);
    case ConfigureAnalysis => Same(s, t.(task := Configuring));
  }

  lemma Announces(s: State, t: State)
    requires s.task.Configuring? && !t.task.Configuring? && t.queue == s.queue
    ensures Unannounced(s) == Unannounced(t) + 1
  {
  }

  lemma ResumeAnnounces(s: State, collatesBefore: (Path, Path) -> bool)
    requires Enabled(s, Continue) && !s.task.Idle?
    ensures var t := Proceed(s, collatesBefore); Announced(t) + Unannounced(t) == Announced(s) + Unannounced(s)
  {
    hide OpenFrom, CloseFrom, OpenOrder, WellFormed, Without, Announced, Unannounced;
    ContinueWellFormed(s);
    WellFormedTask(s);
    ProceedCounts(s, collatesBefore);
    var t := Proceed(s, collatesBefore);
    Same(s, t);
    match s.task
    case Closing(project, closing, rest) =>
      var u := s.(documents := s.documents - {closing}, keys := Without(s.keys, closing));
      Same(s, u);
      OrderCovers(project, collatesBefore);
      CloseFromAnnounces(u, project, rest, OpenOrder(project, collatesBefore));
    case Opening(project, rest) => OpenFromAnnounces(s, project, rest);
    case Configuring =>
      Said(s, t, DidChangeWatchedFiles);
      Announces(s, t);
    case _ =>
  }

  lemma StepAnnounces(s: State, action: Action, collatesBefore: (Path, Path) -> bool)
    requires Enabled(s, action)
    ensures var t := Step(s, action, collatesBefore);
      Announced(t) + Unannounced(t) == Announced(s) + Unannounced(s) + (if action.CallConfigure? then 1 else 0)
  {
    hide Proceed, WellFormed, Cancel, Announced, Unannounced;
    var t := Step(s, action, collatesBefore);
    Same(s, t);
    match action
    case CallSync(project) => QueuedMore(s, t, SyncProject(project));
    case CallConfigure => QueuedMore(s, t, ConfigureAnalysis);
    case CallFlush(_) =>
    case Continue => if s.task.Idle? { StartAnnounces(s, collatesBefore); } else { ResumeAnnounces(s, collatesBefore); }
    case FireTimer(id) => QueuedMore(s, t, SendChange(s.pending[id]));
    case ResumeFlush(index) =>
      var path := s.flushes[index].path;
      ScheduleCounts(s.(flushes := s.flushes[..index] + s.flushes[index + 1..]), path);
      Same(s, t);
      if path in s.changeTimers { QueuedMore(s, t, SendChange(path)); }
  }

  /** Conservation: in every run, announcements made and still to be made grow by exactly
      the calls. */
  lemma {:induction false} EveryCallAnnounced(s: State, actions: seq<Action>, collatesBefore: (Path, Path) -> bool)
    requires Run(s, actions, collatesBefore).Some?
    ensures var t := Run(s, actions, collatesBefore).value;
      Announced(t) + Unannounced(t) == Announced(s) + Unannounced(s) + Calls(actions)
  {
    hide Step, Enabled, Announced, Unannounced;
    if actions != [] {
      var n := |actions| - 1;
      EveryCallAnnounced(s, actions[..n], collatesBefore);
      StepAnnounces(Run(s, actions[..n], collatesBefore).value, actions[n], collatesBefore);
      assert actions == actions[..n] + [actions[n]];
    }
  }

  /** A client that has come to rest announced every call once. */
  lemma AnnouncedAtRest(actions: seq<Action>, collatesBefore: (Path, Path) -> bool)
    requires Run(Initial, actions, collatesBefore).Some? && AtRest(Run(Initial, actions, collatesBefore).value)
    ensures Announced(Run(Initial, actions, collatesBefore).value) == Calls(actions)
  {
    hide Run;
    EveryCallAnnounced(Initial, actions, collatesBefore);
  }
}
