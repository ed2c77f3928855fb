/** The document synchronization of `OndaBrowserLsp` as a state machine over its
    atomic steps: a step runs from one `await` to the next, debounce timers and
    waiting flushes interleave between steps, and queued operations run one at a
    time in order. */
module LspSync {
  import opened Wrappers
  import opened LspProtocol
  import Sorting

  datatype Document = Document(source: SourceText, version: nat, sentSource: SourceText)

  /** A snapshot of a project: its source paths in insertion order, with their texts. */
  datatype Project = Project(entry: Path, paths: seq<Path>, sources: map<Path, SourceText>) {
    ghost predicate Valid() {
      Sorting.Distinct(paths) && forall path :: path in paths <==> path in sources
    }
  }

  /** Operations on the promise queue. */
  datatype Operation =
    | SyncProject(project: Project)
    | SendChange(path: Path)
    | ConfigureAnalysis

  /** The running operation, by the `await` it is suspended at. */
  datatype Task =
    | Idle
    | Closing(project: Project, closing: Path, rest: seq<Path>)
    | Opening(project: Project, rest: seq<Path>)
    | Sending
    | Configuring
    | Announcing

  type TimerId = nat

  /** A `flushDocument` call waiting for the operations queued before it. */
  datatype Flush = Flush(path: Path, ticket: nat)

  /** The client's fields, the timers pending in the host, and three histories:
      the messages sent, the project last requested and the one last applied. */
  datatype State = State(
    documents: map<Path, Document>,
    keys: seq<Path>,
    changeTimers: map<Path, TimerId>,
    pending: map<TimerId, Path>,
    nextTimer: TimerId,
    queue: seq<Operation>,
    task: Task,
    finished: nat,
    flushes: seq<Flush>,
    sent: seq<Message>,
    requested: Option<Project>,
    applied: Option<Project>)

  const Initial := State(map[], [], map[], map[], 0, [], Idle, 0, [], [], None, None)

  /** The order documents are opened in: by collation, the entry last. */
  function OpenOrder(project: Project, collatesBefore: (Path, Path) -> bool): seq<Path> {
    Sorting.Sort(project.paths, EntryLast(project.entry, collatesBefore))
  }

  function EntryLast(entry: Path, collatesBefore: (Path, Path) -> bool): (Path, Path) -> bool {
    (left: Path, right: Path) => left != entry && (right == entry || collatesBefore(left, right))
  }

  function Without(paths: seq<Path>, path: Path): seq<Path> {
    if paths == [] then []
    else if paths[0] == path then Without(paths[1..], path)
    else [paths[0]] + Without(paths[1..], path)
  }

  /** `cancelPendingChange`. */
  function Cancel(s: State, path: Path): State {
    if path in s.changeTimers then
      s.(pending := s.pending - {s.changeTimers[path]}, changeTimers := s.changeTimers - {path})
    else s
  }

  /** `scheduleChange`. */
  function Schedule(s: State, path: Path): State {
    var c := Cancel(s, path);
    c.(pending := c.pending[c.nextTimer := path],
    changeTimers := c.changeTimers[path := c.nextTimer],
    nextTimer := c.nextTimer + 1)
  }

  function Enqueue(s: State, operation: Operation): State {
    s.(queue := s.queue + [operation])
  }

  /** How many operations have been queued so far. */
  function Queued(s: State): nat {
    s.finished + |s.queue| + (if s.task.Idle? then 0 else 1)
  }

  function Finish(s: State): State {
    s.(task := Idle, finished := s.finished + 1)
  }

  /** The second loop of `syncProject`, up to its next `await` or its end. */
  function OpenFrom(s: State, project: Project, rest: seq<Path>): State
    requires forall path :: path in rest ==> path in project.sources
    decreases |rest|
  {
    if rest == [] then Finish(s).(applied := Some(project))
    else
      var path, source := rest[0], project.sources[rest[0]];
      if path !in s.documents then
        s.(documents := s.documents[path := Document(source, 1, source)],
        keys := s.keys + [path],
        sent := s.sent + [DidOpen(path, 1, source)],
        task := Opening(project, rest[1..]))
      else if s.documents[path].source != source then
        OpenFrom(Schedule(s.(documents := s.documents[path := s.documents[path].(source := source)]), path), project, rest[1..])
      else OpenFrom(s, project, rest[1..])
  }

  /** The first loop of `syncProject`, up to its next `await`, or into the second. */
  function CloseFrom(s: State, project: Project, rest: seq<Path>, order: seq<Path>): State
    requires forall path :: path in order ==> path in project.sources
    decreases |rest|
  {
    if rest == [] then OpenFrom(s, project, order)
    else if rest[0] in project.sources then CloseFrom(s, project, rest[1..], order)
    else
      var c := Cancel(s, rest[0]);
      c.(sent := c.sent + [DidClose(rest[0])], task := Closing(project, rest[0], rest[1..]))
  }

  /** `sendDocumentChange`, up to its `await` or its early return. */
  function BeginChange(s: State, path: Path): State {
    if path !in s.documents || s.documents[path].source == s.documents[path].sentSource then Finish(s)
    else
      var document := s.documents[path];
      var updated := document.(version := document.version + 1, sentSource := document.source);
      s.(documents := s.documents[path := updated],
      sent := s.sent + [DidChange(path, updated.version, document.source)],
      task := Sending)
  }

  ghost predicate WellFormed(s: State) {
    && (forall i :: 0 <= i < |s.queue| && s.queue[i].SyncProject? ==> s.queue[i].project.Valid())
    && (s.task.Closing? ==> s.task.project.Valid())
    && (s.task.Opening? ==> forall path :: path in s.task.rest ==> path in s.task.project.sources)
  }

  lemma OrderCovers(project: Project, collatesBefore: (Path, Path) -> bool)
    requires project.Valid()
    ensures forall path :: path in OpenOrder(project, collatesBefore) <==> path in project.sources
    ensures Sorting.Distinct(OpenOrder(project, collatesBefore))
    ensures |OpenOrder(project, collatesBefore)| == |project.paths|
  {
    var smaller := EntryLast(project.entry, collatesBefore);
    Sorting.SortElements(project.paths, smaller);
    Sorting.SortPermutes(project.paths, smaller);
    Sorting.NoDuplicatesFromMultiset(project.paths, OpenOrder(project, collatesBefore));
  }

  /** The entry document is opened after every other. */
  lemma EntryOpensLast(project: Project, collatesBefore: (Path, Path) -> bool)
    requires project.Valid() && project.entry in project.sources
    ensures var order := OpenOrder(project, collatesBefore); order != [] && order[|order| - 1] == project.entry
  {
    Sorting.SortPutsLast(project.paths, EntryLast(project.entry, collatesBefore), project.entry);
  }

  /** The other documents are opened in collation order, if the collation is consistent. */
  lemma OthersOpenInOrder(project: Project, collatesBefore: (Path, Path) -> bool)
    requires Sorting.Consistent(collatesBefore)
    ensures var order := OpenOrder(project, collatesBefore);
      forall i, j :: 0 <= i < j < |order| && order[i] != project.entry && order[j] != project.entry ==>
        !collatesBefore(order[j], order[i])
  {
    var smaller, order := EntryLast(project.entry, collatesBefore), OpenOrder(project, collatesBefore);
    Sorting.SortOrders(project.paths, smaller);
    assert forall i, j :: 0 <= i < j < |order| ==> !smaller(order[j], order[i]);
  }

  /** The next queued operation starts, or the running one resumes. */
  ghost function Proceed(s: State, collatesBefore: (Path, Path) -> bool): State
    requires WellFormed(s) && !(s.task.Idle? && s.queue == [])
  {
    match s.task
    case Idle =>
      var t := s.(queue := s.queue[1..]);
      (match s.queue[0]
       case SyncProject(project) =>
         OrderCovers(project, collatesBefore);
         CloseFrom(t, project, t.keys, OpenOrder(project, collatesBefore))
       case SendChange(path) => BeginChange(t, path)
       case ConfigureAnalysis => t.(task := Configuring))
    case Closing(project, path, rest) =>
      OrderCovers(project, collatesBefore);
      CloseFrom(
        s.(documents := s.documents - {path}, keys := Without(s.keys, path)),
        project, rest, OpenOrder(project, collatesBefore))
    case Opening(project, rest) => OpenFrom(s, project, rest)
    case Sending => Finish(s)
    case Configuring => s.(sent := s.sent + [DidChangeWatchedFiles], task := Announcing)
    case Announcing => Finish(s)
  }

  /** What can happen next. The first three come from outside; the others are the
      client's own steps. */
  datatype Action =
    | CallSync(project: Project)
    | CallConfigure
    | CallFlush(path: Path)
    | Continue
    | FireTimer(id: TimerId)
    | ResumeFlush(index: nat)

  predicate Internal(action: Action) {
    action.Continue? || action.FireTimer? || action.ResumeFlush?
  }

  ghost predicate Enabled(s: State, action: Action) {
    match action
    case CallSync(project) => project.Valid()
    case CallConfigure => true
    case CallFlush(_) => true
    case Continue => WellFormed(s) && !(s.task.Idle? && s.queue == [])
    case FireTimer(id) => id in s.pending
    case ResumeFlush(index) => index < |s.flushes| && s.flushes[index].ticket <= s.finished
  }

  function FireStep(s: State, id: TimerId): State
    requires id in s.pending
  {
    var path := s.pending[id];
    Enqueue(s.(pending := s.pending - {id}, changeTimers := s.changeTimers - {path}), SendChange(path))
  }

  /** The rest of `flushDocument` after its first `await`. */
  function FlushStep(s: State, index: nat): State
    requires index < |s.flushes|
  {
    var path := s.flushes[index].path;
    var t := s.(flushes := s.flushes[..index] + s.flushes[index + 1..]);
    if path in t.changeTimers then Enqueue(Cancel(t, path), SendChange(path)) else t
  }

  ghost function Step(s: State, action: Action, collatesBefore: (Path, Path) -> bool): State
    requires Enabled(s, action)
  {
    match action
    case CallSync(project) => Enqueue(s, SyncProject(project)).(requested := Some(project))
    case CallConfigure => Enqueue(s, ConfigureAnalysis)
    case CallFlush(path) => s.(flushes := s.flushes + [Flush(path, Queued(s))])
    case Continue => Proceed(s, collatesBefore)
    case FireTimer(id) => FireStep(s, id)
    case ResumeFlush(index) => FlushStep(s, index)
  }

  /** The state after a sequence of actions, if each was possible in its turn. */
  ghost function Run(s: State, actions: seq<Action>, collatesBefore: (Path, Path) -> bool): Option<State> {
    if actions == [] then Some(s)
    else
      match Run(s, actions[..|actions| - 1], collatesBefore)
      case None => None
      case Some(t) =>
        if Enabled(t, actions[|actions| - 1]) then Some(Step(t, actions[|actions| - 1], collatesBefore)) else None
  }

  // ------------------------------------------------------------ invariant

  function ClosingPath(task: Task): Option<Path> {
    if task.Closing? then Some(task.closing) else None
  }

  predicate Dirty(document: Document) {
    document.source != document.sentSource
  }

  /** What the server must hold: every document as last sent, except the one whose
      close is in flight. */
  function ServerView(documents: map<Path, Document>, closing: Option<Path>): map<Path, Held> {
    map path | path in documents && Some(path) != closing :: Held(documents[path].version, documents[path].sentSource)
  }

  /** Timers in the host and the client's table of them agree, one per path. */
  ghost predicate TimersAgree(s: State) {
    && (forall path :: path in s.changeTimers ==>
          s.changeTimers[path] in s.pending && s.pending[s.changeTimers[path]] == path)
    && (forall id :: id in s.pending ==>
          s.pending[id] in s.changeTimers && s.changeTimers[s.pending[id]] == id)
    && (forall id :: id in s.pending ==> id < s.nextTimer)
  }

  /** A document whose text was not sent has a timer, a queued send, or is being closed. */
  ghost predicate NothingLost(s: State, closing: Option<Path>) {
    forall path :: path in s.documents && Dirty(s.documents[path]) ==>
      path in s.changeTimers || SendChange(path) in s.queue || closing == Some(path)
  }

  ghost predicate KeysAgree(s: State) {
    Sorting.Distinct(s.keys) && forall path :: path in s.keys <==> path in s.documents
  }

  /** Timers run only for open documents that are not being closed. */
  ghost predicate TimersOpen(s: State, closing: Option<Path>) {
    forall path :: path in s.changeTimers ==> path in s.documents && closing != Some(path)
  }

  ghost predicate ServerAgrees(s: State, closing: Option<Path>) {
    Serve(s.sent) == Some(ServerView(s.documents, closing))
  }

  ghost predicate Consistent(s: State, closing: Option<Path>) {
    && KeysAgree(s)
    && TimersAgree(s)
    && TimersOpen(s, closing)
    && NothingLost(s, closing)
    && (closing.Some? ==> closing.value in s.documents)
    && ServerAgrees(s, closing)
  }

  /** The client's documents are those of a project. */
  ghost predicate Mirrors(documents: map<Path, Document>, project: Option<Project>) {
    match project
    case None => documents == map[]
    case Some(p) =>
      && documents.Keys == p.sources.Keys
      && forall path :: path in documents ==> documents[path].source == p.sources[path]
  }

  /** Still to close: documents outside the project. */
  ghost predicate CloseProgress(documents: map<Path, Document>, project: Project, rest: seq<Path>) {
    && project.Valid()
    && Sorting.Distinct(rest)
    && (forall path :: path in rest ==> path in documents)
    && (forall path :: path in documents && path !in project.sources ==> path in rest)
  }

  /** Still to open or update: the paths in `rest`. */
  ghost predicate OpenProgress(documents: map<Path, Document>, project: Project, rest: seq<Path>) {
    && Sorting.Distinct(rest)
    && (forall path :: path in rest ==> path in project.sources)
    && (forall path :: path in documents ==> path in project.sources)
    && (forall path :: path in project.sources ==> path in documents || path in rest)
    && (forall path :: path in documents && path !in rest ==> documents[path].source == project.sources[path])
  }

  ghost predicate TaskProgress(s: State) {
    match s.task
    case Closing(project, path, rest) =>
      path !in project.sources && CloseProgress(s.documents, project, [path] + rest)
    case Opening(project, rest) => project.Valid() && OpenProgress(s.documents, project, rest)
    case _ => Mirrors(s.documents, s.applied)
  }

  /** The project that will have been applied last once everything queued has run. */
  function LastProject(queue: seq<Operation>, before: Option<Project>): Option<Project> {
    if queue == [] then before
    else if queue[|queue| - 1].SyncProject? then Some(queue[|queue| - 1].project)
    else LastProject(queue[..|queue| - 1], before)
  }

  function Target(s: State): Option<Project> {
    if s.task.Closing? || s.task.Opening? then Some(s.task.project) else s.applied
  }

  ghost predicate QueueProgress(s: State) {
    && LastProject(s.queue, Target(s)) == s.requested
    && (forall i :: 0 <= i < |s.queue| && s.queue[i].SyncProject? ==> s.queue[i].project.Valid())
    && (forall i :: 0 <= i < |s.flushes| ==> s.flushes[i].ticket <= Queued(s))
  }

  ghost predicate Inv(s: State) {
    Consistent(s, ClosingPath(s.task)) && TaskProgress(s) && QueueProgress(s)
  }

  // ------------------------------------------------------------ preservation

  lemma TimersSame(s: State, t: State)
    requires TimersAgree(s)
    requires t.changeTimers == s.changeTimers && t.pending == s.pending && t.nextTimer == s.nextTimer
    ensures TimersAgree(t)
  {
  }

  lemma CancelKeeps(s: State, path: Path)
    requires TimersAgree(s)
    ensures var c := Cancel(s, path);
      && TimersAgree(c)
      && c.changeTimers == s.changeTimers - {path}
      && c == s.(pending := c.pending, changeTimers := c.changeTimers)
      && c.nextTimer == s.nextTimer
  {
  }

  lemma ScheduleKeeps(s: State, path: Path)
    requires TimersAgree(s)
    ensures var c := Schedule(s, path);
      && TimersAgree(c)
      && c.changeTimers.Keys == s.changeTimers.Keys + {path}
      && c == s.(pending := c.pending, changeTimers := c.changeTimers, nextTimer := c.nextTimer)
  {
    CancelKeeps(s, path);
  }

  lemma ServeSnoc(log: seq<Message>, message: Message)
    ensures Serve(log + [message]) == if Serve(log).None? then None else Receive(Serve(log).value, message)
  {
    assert (log + [message])[..|log|] == log;
  }

  lemma {:induction false} WithoutContents(paths: seq<Path>, path: Path)
    ensures forall p :: p in Without(paths, path) <==> p in paths && p != path
    ensures Sorting.Distinct(paths) ==> Sorting.Distinct(Without(paths, path))
    ensures Sorting.Distinct(paths) && path in paths ==> |Without(paths, path)| + 1 == |paths|
    ensures path !in paths ==> Without(paths, path) == paths
  {
    if paths != [] {
      WithoutContents(paths[1..], path);
      assert paths == [paths[0]] + paths[1..];
      if Sorting.Distinct(paths) {
        Sorting.DistinctSplit(paths, 0);
        var r := Without(paths, path);
        if paths[0] != path {
          DistinctCons(paths[0], Without(paths[1..], path));
        }
      }
    }
  }

  lemma DistinctCons(path: Path, rest: seq<Path>)
    requires Sorting.Distinct(rest) && path !in rest
    ensures Sorting.Distinct([path] + rest)
  {
  }

  lemma DistinctSnoc(rest: seq<Path>, path: Path)
    requires Sorting.Distinct(rest) && path !in rest
    ensures Sorting.Distinct(rest + [path])
  {
  }

  /** What a stretch of a sync leaves alone. */
  ghost predicate SameElsewhere(s: State, t: State) {
    t.queue == s.queue && t.flushes == s.flushes && t.requested == s.requested
  }

  /** One more message the server accepts. */
  lemma ServerAgreesSnoc(s: State, closing: Option<Path>, t: State, next: Option<Path>, message: Message)
    requires ServerAgrees(s, closing) && t.sent == s.sent + [message]
    requires Receive(ServerView(s.documents, closing), message) == Some(ServerView(t.documents, next))
    ensures ServerAgrees(t, next)
  {
    hide ServerView, Receive;
    ServeSnoc(s.sent, message);
  }

  lemma FinishSyncKeeps(s: State, project: Project)
    requires Consistent(s, None) && OpenProgress(s.documents, project, [])
    ensures var t := Finish(s).(applied := Some(project));
      Consistent(t, None) && Mirrors(t.documents, t.applied)
  {
    hide Serve, ServerView, Sorting.Distinct;
    assert s.documents.Keys == project.sources.Keys;
  }

  lemma OpenOneKeeps(s: State, project: Project, rest: seq<Path>)
    requires Consistent(s, None) && project.Valid() && OpenProgress(s.documents, project, rest)
    requires rest != [] && rest[0] !in s.documents
    ensures var t := OpenFrom(s, project, rest);
      Consistent(t, None) && OpenProgress(t.documents, project, rest[1..])
  {
    hide Serve, TimersAgree, ServerView, Receive, ServerAgrees, Sorting.Distinct, OpenProgress;
    OpenProgressSources(s.documents, project, rest);
    var path, source := rest[0], project.sources[rest[0]];
    var t := OpenFrom(s, project, rest);
    TimersSame(s, t);
    DistinctSnoc(s.keys, path);
    ViewOpened(s.documents, path, source);
    ServerAgreesSnoc(s, None, t, None, DidOpen(path, 1, source));
    OpenedProgress(s.documents, project, rest);
  }

  lemma OpenProgressSources(documents: map<Path, Document>, project: Project, rest: seq<Path>)
    requires OpenProgress(documents, project, rest)
    ensures forall path :: path in rest ==> path in project.sources
  {
  }

  lemma ViewOpened(documents: map<Path, Document>, path: Path, source: SourceText)
    requires path !in documents
    ensures Receive(ServerView(documents, None), DidOpen(path, 1, source)) ==
      Some(ServerView(documents[path := Document(source, 1, source)], None))
  {
    assert ServerView(documents[path := Document(source, 1, source)], None) ==
      ServerView(documents, None)[path := Held(1, source)];
  }

  lemma OpenedProgress(documents: map<Path, Document>, project: Project, rest: seq<Path>)
    requires OpenProgress(documents, project, rest) && rest != []
    ensures forall version, sent ::
      OpenProgress(documents[rest[0] := Document(project.sources[rest[0]], version, sent)], project, rest[1..])
    ensures rest[0] in documents && documents[rest[0]].source == project.sources[rest[0]] ==>
      OpenProgress(documents, project, rest[1..])
  {
    Sorting.DistinctSplit(rest, 0);
    assert rest == [rest[0]] + rest[1..];
  }

  /** A new text for an open document: unsent, but with a timer. */
  lemma UpdateKeeps(s: State, path: Path, source: SourceText)
    requires Consistent(s, None) && path in s.documents
    ensures var u := s.(documents := s.documents[path := s.documents[path].(source := source)]);
      Consistent(Schedule(u, path), None) && Schedule(u, path).documents == u.documents && SameElsewhere(s, Schedule(u, path))
      && Schedule(u, path).finished == s.finished
  {
    hide Serve, TimersAgree, Sorting.Distinct, Schedule, ServerView;
    var u := s.(documents := s.documents[path := s.documents[path].(source := source)]);
    TimersSame(s, u);
    ScheduleKeeps(u, path);
    assert ServerView(u.documents, None) == ServerView(s.documents, None) by { ViewUpdated(s.documents, path, source); }
  }

  lemma ViewUpdated(documents: map<Path, Document>, path: Path, source: SourceText)
    requires path in documents
    ensures ServerView(documents[path := documents[path].(source := source)], None) == ServerView(documents, None)
  {
  }

  /** Opening: the stretch up to the next await keeps the invariant. */
  lemma {:induction false} OpenFromKeeps(s: State, project: Project, rest: seq<Path>)
    requires Consistent(s, None) && project.Valid() && OpenProgress(s.documents, project, rest)
    ensures var t := OpenFrom(s, project, rest);
      && Consistent(t, ClosingPath(t.task)) && TaskProgress(t)
      && SameElsewhere(s, t)
      && Target(t) == Some(project)
      && (t.task.Opening? || t.task.Idle?)
      && t.finished == s.finished + (if t.task.Idle? then 1 else 0)
    decreases |rest|
  {
    hide Consistent, Schedule;
    if rest == [] {
      FinishSyncKeeps(s, project);
    } else {
      hide OpenProgress;
      var path, source := rest[0], project.sources[rest[0]];
      OpenedProgress(s.documents, project, rest);
      if path !in s.documents {
        OpenOneKeeps(s, project, rest);
      } else if s.documents[path].source != source {
        UpdateKeeps(s, path, source);
        var document := s.documents[path];
        assert document.(source := source) == Document(source, document.version, document.sentSource);
        OpenFromKeeps(Schedule(s.(documents := s.documents[path := document.(source := source)]), path), project, rest[1..]);
      } else {
        OpenFromKeeps(s, project, rest[1..]);
      }
    }
  }

  /** Closing: the stretch up to the next await keeps the invariant. */
  lemma {:induction false} CloseFromKeeps(s: State, project: Project, rest: seq<Path>, order: seq<Path>)
    requires Consistent(s, None) && CloseProgress(s.documents, project, rest)
    requires Sorting.Distinct(order) && forall path :: path in order <==> path in project.sources
    ensures var t := CloseFrom(s, project, rest, order);
      && Consistent(t, ClosingPath(t.task)) && TaskProgress(t)
      && SameElsewhere(s, t)
      && Target(t) == Some(project)
      && (t.task.Closing? || t.task.Opening? || t.task.Idle?)
      && t.finished == s.finished + (if t.task.Idle? then 1 else 0)
    decreases |rest|
  {
    hide Consistent, Cancel;
    if rest == [] {
      OpenFromKeeps(s, project, order);
    } else {
      assert rest == [rest[0]] + rest[1..];
      if rest[0] in project.sources {
        Sorting.DistinctSplit(rest, 0);
        CloseFromKeeps(s, project, rest[1..], order);
      } else {
        CloseOneKeeps(s, rest[0], Closing(project, rest[0], rest[1..]));
      }
    }
  }

  lemma CloseOneKeeps(s: State, path: Path, task: Task)
    requires Consistent(s, None) && path in s.documents
    ensures var c := Cancel(s, path);
      && Consistent(c.(sent := c.sent + [DidClose(path)], task := task), Some(path))
      && SameElsewhere(s, c) && c.finished == s.finished && c.documents == s.documents
  {
    hide Serve, Cancel, ServerView, Sorting.Distinct, TimersAgree, Receive;
    CancelKeeps(s, path);
    var c := Cancel(s, path);
    var t := c.(sent := c.sent + [DidClose(path)], task := task);
    TimersSame(c, t);
    ViewClosed(s.documents, path);
    ServerAgreesSnoc(s, None, t, Some(path), DidClose(path));
  }

  lemma ViewClosed(documents: map<Path, Document>, path: Path)
    requires path in documents
    ensures Receive(ServerView(documents, None), DidClose(path)) == Some(ServerView(documents, Some(path)))
  {
    assert ServerView(documents, Some(path)) == ServerView(documents, None) - {path};
  }

  /** The document leaves the table once its close has been answered. */
  lemma DeleteKeeps(s: State, path: Path)
    requires Consistent(s, Some(path))
    ensures Consistent(s.(documents := s.documents - {path}, keys := Without(s.keys, path)), None)
  {
    hide Serve, ServerView, KeysAgree, TimersAgree, NothingLost;
    var t := s.(documents := s.documents - {path}, keys := Without(s.keys, path));
    TimersSame(s, t);
    DeleteKeys(s, path);
    DeleteLosesNothing(s, path);
    ViewDeleted(s.documents, path);
  }

  lemma DeleteKeys(s: State, path: Path)
    requires KeysAgree(s)
    ensures KeysAgree(s.(documents := s.documents - {path}, keys := Without(s.keys, path)))
  {
    hide Sorting.Distinct;
    WithoutContents(s.keys, path);
  }

  lemma DeleteLosesNothing(s: State, path: Path)
    requires NothingLost(s, Some(path))
    ensures NothingLost(s.(documents := s.documents - {path}, keys := Without(s.keys, path)), None)
  {
  }

  lemma ViewDeleted(documents: map<Path, Document>, path: Path)
    ensures ServerView(documents - {path}, None) == ServerView(documents, Some(path))
  {
  }

  /** Sending a change brings the server up to date with the document. */
  lemma BeginChangeKeeps(s: State, path: Path)
    requires Consistent(s.(queue := [SendChange(path)] + s.queue), None) && Mirrors(s.documents, s.applied)
    ensures var t := BeginChange(s, path);
      && Consistent(t, None) && Mirrors(t.documents, t.applied)
      && SameElsewhere(s, t)
      && t.applied == s.applied
      && (t.task.Sending? || t.task.Idle?)
      && t.finished == s.finished + (if t.task.Idle? then 1 else 0)
  {
    hide Serve, TimersAgree, KeysAgree, NothingLost, Mirrors, ServerView, Receive, ServerAgrees;
    var q, t := s.(queue := [SendChange(path)] + s.queue), BeginChange(s, path);
    TimersSame(q, t);
    KeysSame(q, s);
    ChangeLosesNothing(s, path);
    if path in s.documents && Dirty(s.documents[path]) {
      var document := s.documents[path];
      ChangeKeepsSources(s, path);
      ViewChanged(s.documents, path);
      ServerAgreesSnoc(q, None, t, None, DidChange(path, document.version + 1, document.source));
    } else {
      ServerAgreesSame(q, t, None);
      KeysSame(q, t);
    }
  }

  lemma KeysSame(s: State, t: State)
    requires KeysAgree(s) && t.keys == s.keys && t.documents.Keys == s.documents.Keys
    ensures KeysAgree(t)
  {
  }

  lemma ChangeKeepsSources(s: State, path: Path)
    requires KeysAgree(s) && Mirrors(s.documents, s.applied) && path in s.documents
    ensures KeysAgree(BeginChange(s, path)) && Mirrors(BeginChange(s, path).documents, s.applied)
  {
    hide Sorting.Distinct;
  }

  lemma ChangeLosesNothing(s: State, path: Path)
    requires NothingLost(s.(queue := [SendChange(path)] + s.queue), None)
    ensures NothingLost(BeginChange(s, path), None)
  {
    assert forall operation :: operation in [SendChange(path)] + s.queue <==> operation == SendChange(path) || operation in s.queue;
  }

  lemma ServerAgreesSame(s: State, t: State, closing: Option<Path>)
    requires ServerAgrees(s, closing) && t.sent == s.sent && t.documents == s.documents
    ensures ServerAgrees(t, closing)
  {
  }

  lemma ViewChanged(documents: map<Path, Document>, path: Path)
    requires path in documents && Dirty(documents[path])
    ensures var d := documents[path];
      Receive(ServerView(documents, None), DidChange(path, d.version + 1, d.source)) ==
      Some(ServerView(documents[path := Document(d.source, d.version + 1, d.source)], None))
  {
    var d := documents[path];
    assert ServerView(documents[path := Document(d.source, d.version + 1, d.source)], None) ==
      ServerView(documents, None)[path := Held(d.version + 1, d.source)];
  }
}
