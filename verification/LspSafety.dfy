/** Safety of document synchronization over every run: the server hears only
    well-formed sessions, no edit is lost, and at rest it holds the project that
    was requested last. */
module LspSafety {
  import opened Wrappers
  import opened LspProtocol
  import opened LspSync
  import Sorting

  lemma InvWellFormed(s: State)
    requires Inv(s)
    ensures WellFormed(s)
  {
    hide Consistent, LastProject;
  }

  lemma {:induction false} LastProjectTail(operation: Operation, rest: seq<Operation>, before: Option<Project>)
    ensures LastProject([operation] + rest, before) ==
      LastProject(rest, if operation.SyncProject? then Some(operation.project) else before)
  {
    var all := [operation] + rest;
    if rest == [] {
      assert all[..|all| - 1] == [];
    } else {
      assert all[..|all| - 1] == [operation] + rest[..|rest| - 1];
      LastProjectTail(operation, rest[..|rest| - 1], before);
    }
  }

  lemma LastProjectSnoc(queue: seq<Operation>, operation: Operation, before: Option<Project>)
    ensures LastProject(queue + [operation], before) ==
      if operation.SyncProject? then Some(operation.project) else LastProject(queue, before)
  {
    assert (queue + [operation])[..|queue|] == queue;
  }

  /** Growing the queue loses no edit. */
  lemma EnqueueKeeps(s: State, operation: Operation, closing: Option<Path>)
    requires Consistent(s, closing)
    ensures Consistent(Enqueue(s, operation), closing)
  {
    hide Serve, ServerView, Sorting.Distinct, TimersAgree;
    TimersSame(s, Enqueue(s, operation));
    assert forall other :: other in s.queue ==> other in s.queue + [operation];
  }

  /** Fields the document invariant does not read. */
  lemma ConsistentSame(s: State, t: State, closing: Option<Path>)
    requires Consistent(s, closing)
    requires t.documents == s.documents && t.keys == s.keys && t.changeTimers == s.changeTimers
    requires t.pending == s.pending && t.nextTimer == s.nextTimer && t.queue == s.queue && t.sent == s.sent
    ensures Consistent(t, closing)
  {
    hide Serve, ServerView, Sorting.Distinct, TimersAgree;
    TimersSame(s, t);
  }

  /** Dropping an operation that sends no change loses no edit. */
  lemma DequeueKeeps(s: State, closing: Option<Path>)
    requires Consistent(s, closing) && s.queue != [] && !s.queue[0].SendChange?
    ensures Consistent(s.(queue := s.queue[1..]), closing)
  {
    hide Serve, ServerView, Sorting.Distinct, TimersAgree;
    TimersSame(s, s.(queue := s.queue[1..]));
    assert s.queue == [s.queue[0]] + s.queue[1..];
    assert forall path :: SendChange(path) in s.queue ==> SendChange(path) in s.queue[1..];
  }

  lemma CallSyncKeeps(s: State, project: Project)
    requires Inv(s) && project.Valid()
    ensures Inv(Enqueue(s, SyncProject(project)).(requested := Some(project)))
  {
    hide Consistent, Mirrors, CloseProgress, OpenProgress;
    var t := Enqueue(s, SyncProject(project)).(requested := Some(project));
    EnqueueKeeps(s, SyncProject(project), ClosingPath(s.task));
    ConsistentSame(Enqueue(s, SyncProject(project)), t, ClosingPath(s.task));
    LastProjectSnoc(s.queue, SyncProject(project), Target(s));
  }

  lemma EnqueueInv(s: State, operation: Operation)
    requires Inv(s) && !operation.SyncProject?
    ensures Inv(Enqueue(s, operation))
  {
    hide Consistent, Mirrors, CloseProgress, OpenProgress;
    EnqueueKeeps(s, operation, ClosingPath(s.task));
    LastProjectSnoc(s.queue, operation, Target(s));
  }

  lemma CallFlushKeeps(s: State, path: Path)
    requires Inv(s)
    ensures Inv(s.(flushes := s.flushes + [Flush(path, Queued(s))]))
  {
    hide Consistent, Mirrors, CloseProgress, OpenProgress, LastProject;
    ConsistentSame(s, s.(flushes := s.flushes + [Flush(path, Queued(s))]), ClosingPath(s.task));
  }

  /** Taking a pending timer away is harmless once its change is queued. */
  lemma TimerToQueue(s: State, path: Path, t: State, closing: Option<Path>)
    requires Consistent(s, closing) && path in s.changeTimers
    requires t == s.(pending := s.pending - {s.changeTimers[path]}, changeTimers := s.changeTimers - {path}, queue := s.queue + [SendChange(path)])
    ensures Consistent(t, closing)
  {
    hide Serve, ServerView, Sorting.Distinct, TimersAgree, Cancel;
    CancelKeeps(s, path);
    assert t == Enqueue(Cancel(s, path), SendChange(path)) by { CancelIs(s, path); }
    TimersSame(Cancel(s, path), t);
    assert forall other :: other in s.queue ==> other in t.queue;
    assert t.queue[|s.queue|] == SendChange(path);
  }

  lemma CancelIs(s: State, path: Path)
    requires path in s.changeTimers
    ensures Cancel(s, path) == s.(pending := s.pending - {s.changeTimers[path]}, changeTimers := s.changeTimers - {path})
  {
  }

  lemma FireKeeps(s: State, id: TimerId)
    requires Inv(s) && id in s.pending
    ensures Inv(FireStep(s, id))
  {
    hide Mirrors, CloseProgress, OpenProgress, NothingLost, ServerAgrees, KeysAgree, TimersOpen;
    var path := s.pending[id];
    assert path in s.changeTimers && s.changeTimers[path] == id;
    TimerToQueue(s, path, FireStep(s, id), ClosingPath(s.task));
    LastProjectSnoc(s.queue, SendChange(path), Target(s));
  }

  lemma FlushKeeps(s: State, index: nat)
    requires Inv(s) && index < |s.flushes|
    ensures Inv(FlushStep(s, index))
  {
    hide Consistent, Mirrors, CloseProgress, OpenProgress, Cancel;
    var path := s.flushes[index].path;
    var t := s.(flushes := s.flushes[..index] + s.flushes[index + 1..]);
    ConsistentSame(s, t, ClosingPath(s.task));
    if path in t.changeTimers {
      CancelIs(t, path);
      TimerToQueue(t, path, FlushStep(s, index), ClosingPath(s.task));
      LastProjectSnoc(s.queue, SendChange(path), Target(s));
    }
  }

  /** A sync starts: the documents outside the project are those to close. */
  lemma SyncProgress(s: State, project: Project)
    requires KeysAgree(s) && project.Valid()
    ensures CloseProgress(s.documents, project, s.keys)
  {
  }

  lemma StartKeeps(s: State, collatesBefore: (Path, Path) -> bool)
    requires Inv(s) && s.task.Idle? && s.queue != []
    ensures WellFormed(s) && Inv(Proceed(s, collatesBefore))
  {
    hide Consistent, Mirrors, CloseProgress, OpenProgress, CloseFrom, OpenFrom, BeginChange, OpenOrder;
    InvWellFormed(s);
    var t := s.(queue := s.queue[1..]);
    assert s.queue == [s.queue[0]] + t.queue;
    LastProjectTail(s.queue[0], t.queue, s.applied);
    match s.queue[0]
    case SyncProject(project) =>
      DequeueKeeps(s, None);
      assert CloseProgress(t.documents, project, t.keys) by { ConsistentKeys(t); SyncProgress(t, project); }
      OrderCovers(project, collatesBefore);
      CloseFromKeeps(t, project, t.keys, OpenOrder(project, collatesBefore));
    case SendChange(path) =>
      assert t.(queue := [SendChange(path)] + t.queue) == s;
      BeginChangeKeeps(t, path);
    case ConfigureAnalysis =>
      DequeueKeeps(s, None);
      ConsistentSame(t, t.(task := Configuring), None);
  }

  lemma ConsistentKeys(s: State)
    requires Consistent(s, None)
    ensures KeysAgree(s)
  {
  }

  /** After a close: the deleted document was the one outside the project. */
  lemma ClosedProgress(documents: map<Path, Document>, project: Project, path: Path, rest: seq<Path>)
    requires CloseProgress(documents, project, [path] + rest)
    ensures CloseProgress(documents - {path}, project, rest)
  {
    var all := [path] + rest;
    Sorting.DistinctSplit(all, 0);
    assert all[1..] == rest;
    assert forall p :: p in rest ==> p in all;
    assert forall p :: p in all ==> p == path || p in rest;
  }

  lemma ResumeKeeps(s: State, collatesBefore: (Path, Path) -> bool)
    requires Inv(s) && !s.task.Idle?
    ensures WellFormed(s) && Inv(Proceed(s, collatesBefore))
  {
    hide Consistent, Mirrors, CloseProgress, OpenProgress, CloseFrom, OpenFrom, OpenOrder, Without, LastProject;
    InvWellFormed(s);
    match s.task
    case Closing(project, path, rest) =>
      var t := s.(documents := s.documents - {path}, keys := Without(s.keys, path));
      DeleteKeeps(s, path);
      ClosedProgress(s.documents, project, path, rest);
      OrderCovers(project, collatesBefore);
      CloseFromKeeps(t, project, rest, OpenOrder(project, collatesBefore));
    case Opening(project, rest) =>
      OpenFromKeeps(s, project, rest);
    case Sending =>
      ConsistentSame(s, Finish(s), None);
    case Configuring =>
      WatchedKeeps(s);
    case Announcing =>
      ConsistentSame(s, Finish(s), None);
  }

  /** A message about no document changes nothing at the server. */
  lemma WatchedKeeps(s: State)
    requires Consistent(s, None)
    ensures Consistent(s.(sent := s.sent + [DidChangeWatchedFiles], task := Announcing), None)
  {
    hide Serve, ServerView, Sorting.Distinct, TimersAgree;
    var t := s.(sent := s.sent + [DidChangeWatchedFiles], task := Announcing);
    TimersSame(s, t);
    ServerAgreesSnoc(s, None, t, None, DidChangeWatchedFiles);
  }

  lemma StepKeeps(s: State, action: Action, collatesBefore: (Path, Path) -> bool)
    requires Inv(s) && Enabled(s, action)
    ensures Inv(Step(s, action, collatesBefore))
  {
    hide Inv, WellFormed, Proceed;
    match action
    case CallSync(project) => CallSyncKeeps(s, project);
    case CallConfigure => EnqueueInv(s, ConfigureAnalysis);
    case CallFlush(path) => CallFlushKeeps(s, path);
    case Continue => if s.task.Idle? { StartKeeps(s, collatesBefore); } else { ResumeKeeps(s, collatesBefore); }
    case FireTimer(id) => FireKeeps(s, id);
    case ResumeFlush(index) => FlushKeeps(s, index);
  }

  lemma InitialInv()
    ensures Inv(Initial)
  {
    assert ServerView(map[], None) == map[];
  }

  lemma {:induction false} RunKeeps(s: State, actions: seq<Action>, collatesBefore: (Path, Path) -> bool)
    requires Inv(s) && Run(s, actions, collatesBefore).Some?
    ensures Inv(Run(s, actions, collatesBefore).value)
  {
    hide Inv, Step, Enabled;
    if actions != [] {
      RunKeeps(s, actions[..|actions| - 1], collatesBefore);
      StepKeeps(Run(s, actions[..|actions| - 1], collatesBefore).value, actions[|actions| - 1], collatesBefore);
    }
  }

  /** Reachable from a new client. */
  ghost predicate Reachable(s: State, collatesBefore: (Path, Path) -> bool) {
    exists actions :: Run(Initial, actions, collatesBefore) == Some(s)
  }

  lemma ReachableInv(s: State, collatesBefore: (Path, Path) -> bool)
    requires Reachable(s, collatesBefore)
    ensures Inv(s)
  {
    hide Inv, Run;
    var actions :| Run(Initial, actions, collatesBefore) == Some(s);
    InitialInv();
    RunKeeps(Initial, actions, collatesBefore);
  }

  /** Protocol legality: in every reachable state the messages sent form, document
      by document, sessions of an open at version 1, changes with consecutive
      versions that each change the text, and a close; and the server holds
      exactly the text and version the client believes it sent, for every document
      but one whose close is in flight. */
  lemma ServerHearsSessions(s: State, collatesBefore: (Path, Path) -> bool)
    requires Reachable(s, collatesBefore)
    ensures SessionsOnly(s.sent)
    ensures Serve(s.sent).Some?
    ensures forall path :: path in Serve(s.sent).value <==> path in s.documents && ClosingPath(s.task) != Some(path)
    ensures forall path :: path in Serve(s.sent).value ==>
      Serve(s.sent).value[path] == Held(s.documents[path].version, s.documents[path].sentSource)
  {
    hide Reachable, SessionsOnly, Serve, KeysAgree, TimersAgree, TimersOpen, NothingLost, TaskProgress, QueueProgress;
    ReachableInv(s, collatesBefore);
    ServedIffSessions(s.sent);
  }

  /** The text waits for a timer or in the queue, and the document is not being closed:
      once a close is in flight, a send queued behind it finds no document. */
  ghost predicate WillBeSent(s: State, path: Path) {
    ClosingPath(s.task) != Some(path) && (path in s.changeTimers || SendChange(path) in s.queue)
  }

  /** No lost update, with its one exception: a document whose text was not sent
      is waiting to be sent, unless its own close is in flight. */
  lemma NoLostUpdate(s: State, collatesBefore: (Path, Path) -> bool)
    requires Reachable(s, collatesBefore)
    ensures (forall path :: path in s.documents && Dirty(s.documents[path]) ==> WillBeSent(s, path)) <==>
      !(s.task.Closing? && s.task.closing in s.documents && Dirty(s.documents[s.task.closing]))
  {
    hide Reachable, KeysAgree, TimersAgree, ServerAgrees, TaskProgress, QueueProgress;
    ReachableInv(s, collatesBefore);
    if s.task.Closing? && Dirty(s.documents[s.task.closing]) {
      assert s.task.closing in s.documents && !WillBeSent(s, s.task.closing);
    }
  }

  /** When a flush resumes and finds no timer, it returns at once. The server then has
      the client's text exactly if no unsent text is left, which is certain unless a send
      of the document is still queued behind the flush. */
  lemma FlushFindsNoTimer(s: State, index: nat, collatesBefore: (Path, Path) -> bool)
    requires Reachable(s, collatesBefore) && Enabled(s, ResumeFlush(index))
    requires var path := s.flushes[index].path;
      path in s.documents && path !in s.changeTimers && ClosingPath(s.task) != Some(path)
    ensures var path, t := s.flushes[index].path, Step(s, ResumeFlush(index), collatesBefore);
      && t == s.(flushes := s.flushes[..index] + s.flushes[index + 1..])
      && Serve(t.sent).Some? && path in Serve(t.sent).value
      && (Serve(t.sent).value[path].text == t.documents[path].source <==> !Dirty(t.documents[path]))
      && (SendChange(path) !in s.queue ==> !Dirty(t.documents[path]))
  {
    hide Reachable, Serve, KeysAgree, TimersAgree, TaskProgress, QueueProgress, SessionsOnly, Cancel;
    ReachableInv(s, collatesBefore);
    ServerHearsSessions(s, collatesBefore);
  }

  /** Nothing queued, running or scheduled. */
  ghost predicate AtRest(s: State) {
    s.task.Idle? && s.queue == [] && s.changeTimers == map[]
  }

  /** At rest the server has open exactly the documents of the project requested
      last, with exactly their texts. */
  lemma AtRestServerMatches(s: State, collatesBefore: (Path, Path) -> bool)
    requires Reachable(s, collatesBefore) && AtRest(s)
    ensures Serve(s.sent).Some?
    ensures match s.requested
      case None => Serve(s.sent).value == map[]
      case Some(project) =>
        && Serve(s.sent).value.Keys == project.sources.Keys
        && forall path :: path in project.sources ==> Serve(s.sent).value[path].text == project.sources[path]
  {
    hide Reachable, Serve, KeysAgree, TimersAgree, TimersOpen;
    ReachableInv(s, collatesBefore);
    assert LastProject([], s.applied) == s.applied;
    assert Serve(s.sent).value == ServerView(s.documents, None);
  }

  lemma RunSnoc(s: State, actions: seq<Action>, action: Action, collatesBefore: (Path, Path) -> bool)
    requires Run(s, actions, collatesBefore).Some? && Enabled(Run(s, actions, collatesBefore).value, action)
    ensures Run(s, actions + [action], collatesBefore) == Some(Step(Run(s, actions, collatesBefore).value, action, collatesBefore))
  {
    hide Step, Enabled;
    assert (actions + [action])[..|actions|] == actions;
  }

  lemma ReachableStep(s: State, action: Action, collatesBefore: (Path, Path) -> bool)
    requires Reachable(s, collatesBefore) && Enabled(s, action)
    ensures Reachable(Step(s, action, collatesBefore), collatesBefore)
  {
    hide Run, Step, Enabled;
    var actions :| Run(Initial, actions, collatesBefore) == Some(s);
    RunSnoc(Initial, actions, action, collatesBefore);
  }

  lemma InitialReachable(collatesBefore: (Path, Path) -> bool)
    ensures Reachable(Initial, collatesBefore)
  {
    assert Run(Initial, [], collatesBefore) == Some(Initial);
  }

  /** A project with one document, and one with none. */
  function OneDocument(path: Path, text: SourceText): Project {
    Project(path, [path], map[path := text])
  }

  const NoDocuments := Project("", [], map[])

  lemma OrderOfOne(path: Path, text: SourceText, collatesBefore: (Path, Path) -> bool)
    ensures OpenOrder(OneDocument(path, text), collatesBefore) == [path]
    ensures OneDocument(path, text).Valid()
  {
    OrderCovers(OneDocument(path, text), collatesBefore);
    var order := OpenOrder(OneDocument(path, text), collatesBefore);
    assert order[0] in order;
  }

  /** The exception is real: edit a document, then remove it before its timer fires.
      While the close is in flight its last text is neither scheduled nor queued. */
  lemma CloseWindowIsReachable(path: Path, first: SourceText, second: SourceText, collatesBefore: (Path, Path) -> bool)
    requires first != second
    ensures exists s ::
      && Reachable(s, collatesBefore) && ClosingPath(s.task) == Some(path)
      && path in s.documents && Dirty(s.documents[path])
      && path !in s.changeTimers && SendChange(path) !in s.queue
  {
    hide Reachable, OpenOrder;
    var s := EditedAtRest(path, first, second, collatesBefore);
    assert NoDocuments.Valid();
    var t := SyncFromRest(s, NoDocuments, collatesBefore);
    ClosesOne(s.(requested := Some(NoDocuments)), path, OpenOrder(NoDocuments, collatesBefore));
  }

  /** A client with one document, edited and waiting for its timer. */
  lemma EditedAtRest(path: Path, first: SourceText, second: SourceText, collatesBefore: (Path, Path) -> bool) returns (s: State)
    requires first != second
    ensures Reachable(s, collatesBefore) && s.task.Idle? && s.queue == []
    ensures s.keys == [path] && path in s.documents && Dirty(s.documents[path])
  {
    hide Reachable, OpenOrder;
    InitialReachable(collatesBefore);
    OrderOfOne(path, first, collatesBefore);
    OrderOfOne(path, second, collatesBefore);
    var s1 := SyncFromRest(Initial, OneDocument(path, first), collatesBefore);
    OpensOne(Initial.(requested := Some(OneDocument(path, first))), path, first);
    ReachableStep(s1, Continue, collatesBefore);
    var s2 := Step(s1, Continue, collatesBefore);
    assert s2.task.Idle? && s2.queue == [] && s2.documents == s1.documents && s2.keys == s1.keys;
    s := SyncFromRest(s2, OneDocument(path, second), collatesBefore);
    UpdatesOne(s2.(requested := Some(OneDocument(path, second))), path, second);
  }

  lemma OpensOne(s: State, path: Path, text: SourceText)
    requires s.keys == [] && path !in s.documents
    ensures var t := CloseFrom(s, OneDocument(path, text), s.keys, [path]);
      && t.keys == [path]
      && t.documents == s.documents[path := Document(text, 1, text)]
      && t.task == Opening(OneDocument(path, text), [])
      && t.queue == s.queue
  {
    assert [path][1..] == [];
    assert s.keys + [path] == [path];
  }

  lemma UpdatesOne(s: State, path: Path, text: SourceText)
    requires s.keys == [path] && path in s.documents && s.documents[path].source != text
    ensures var t := CloseFrom(s, OneDocument(path, text), s.keys, [path]);
      && t.keys == [path]
      && t.documents == s.documents[path := s.documents[path].(source := text)]
      && t.task.Idle?
      && t.queue == s.queue
  {
    var project := OneDocument(path, text);
    assert [path][1..] == [];
    var u := Schedule(s.(documents := s.documents[path := s.documents[path].(source := text)]), path);
    assert CloseFrom(s, project, [path], [path]) == CloseFrom(s, project, [], [path]) == OpenFrom(s, project, [path]);
    assert OpenFrom(s, project, [path]) == OpenFrom(u, project, [path][1..]) == OpenFrom(u, project, []);
  }

  lemma ClosesOne(s: State, path: Path, order: seq<Path>)
    requires s.keys == [path] && forall p :: p in order ==> p in NoDocuments.sources
    ensures var t := CloseFrom(s, NoDocuments, s.keys, order);
      && t.task == Closing(NoDocuments, path, [])
      && t.documents == s.documents && t.queue == s.queue
      && path !in t.changeTimers
  {
    assert [path][1..] == [];
  }

  /** A sync requested of a client with nothing to do starts at once. */
  lemma SyncFromRest(s: State, project: Project, collatesBefore: (Path, Path) -> bool) returns (t: State)
    requires Reachable(s, collatesBefore) && s.task.Idle? && s.queue == [] && project.Valid()
    ensures Reachable(t, collatesBefore)
    ensures forall path :: path in OpenOrder(project, collatesBefore) ==> path in project.sources
    ensures t == CloseFrom(s.(requested := Some(project)), project, s.keys, OpenOrder(project, collatesBefore))
  {
    hide Reachable, OpenOrder, CloseFrom;
    OrderCovers(project, collatesBefore);
    ReachableStep(s, CallSync(project), collatesBefore);
    var called := Step(s, CallSync(project), collatesBefore);
    assert called.queue == [SyncProject(project)];
    ReachableStep(called, Continue, collatesBefore);
    t := Step(called, Continue, collatesBefore);
    assert called.(queue := called.queue[1..]) == s.(requested := Some(project));
  }
}
