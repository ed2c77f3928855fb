/** The client object: its fields updated in place, each method an atomic stretch
    between two awaits, proved to take the step of the state machine. */
module LspClient {
  import opened Wrappers
  import opened LspProtocol
  import opened LspSync
  import opened LspSafety

  class OndaBrowserLsp {
    var documents: map<Path, Document>
    var keys: seq<Path>
    var changeTimers: map<Path, TimerId>
    var queue: seq<Operation>
    var task: Task
    var finished: nat
    var flushes: seq<Flush>
    // The host: timers that can still fire, and the messages the server receives.
    var pending: map<TimerId, Path>
    var nextTimer: TimerId
    var sent: seq<Message>
    ghost var requested: Option<Project>
    ghost var applied: Option<Project>

    const collatesBefore: (Path, Path) -> bool

    ghost function Model(): State
      reads this
    {
      State(documents, keys, changeTimers, pending, nextTimer, queue, task, finished, flushes, sent, requested, applied)
    }

    /** The invariant of every reachable client. */
    ghost predicate Valid()
      reads this
    {
      Inv(Model())
    }

    constructor (collatesBefore: (Path, Path) -> bool)
      ensures Valid() && Model() == Initial && this.collatesBefore == collatesBefore
    {
      this.collatesBefore := collatesBefore;
      documents, keys, changeTimers, pending, nextTimer := map[], [], map[], map[], 0;
      queue, task, finished, flushes, sent := [], Idle, 0, [], [];
      requested, applied := None, None;
      new;
      InitialInv();
    }

    /** `syncProject`: the snapshot is queued; nothing is sent yet. */
    method SyncProject(project: Project)
      requires Valid() && project.Valid()
      modifies this
      ensures Valid() && Model() == Step(old(Model()), CallSync(project), collatesBefore)
    {
      hide Inv, Proceed, WellFormed;
      StepKeeps(Model(), CallSync(project), collatesBefore);
      queue := queue + [Operation.SyncProject(project)];
      requested := Some(project);
    }

    /** `setAnalysisOptions`. */
    method SetAnalysisOptions()
      requires Valid()
      modifies this
      ensures Valid() && Model() == Step(old(Model()), CallConfigure, collatesBefore)
    {
      hide Inv, Proceed, WellFormed;
      StepKeeps(Model(), CallConfigure, collatesBefore);
      queue := queue + [ConfigureAnalysis];
    }

    /** `flushDocument` up to its first await. */
    method FlushDocument(path: Path)
      requires Valid()
      modifies this
      ensures Valid() && Model() == Step(old(Model()), CallFlush(path), collatesBefore)
    {
      hide Inv, Proceed, WellFormed;
      StepKeeps(Model(), CallFlush(path), collatesBefore);
      var running := if task.Idle? then 0 else 1;
      flushes := flushes + [Flush(path, finished + |queue| + running)];
    }

    /** `flushDocument` after its first await. */
    method ResumeFlushDocument(index: nat)
      requires Valid() && index < |flushes| && flushes[index].ticket <= finished
      modifies this
      ensures Valid() && Model() == Step(old(Model()), ResumeFlush(index), collatesBefore)
    {
      hide Inv, Proceed, WellFormed;
      StepKeeps(Model(), ResumeFlush(index), collatesBefore);
      var path := flushes[index].path;
      flushes := flushes[..index] + flushes[index + 1..];
      if path in changeTimers {
        CancelPendingChange(path);
        queue := queue + [SendChange(path)];
      }
    }

    /** The callback of a debounce timer. */
    method OnTimer(id: TimerId)
      requires Valid() && id in pending
      modifies this
      ensures Valid() && Model() == Step(old(Model()), FireTimer(id), collatesBefore)
    {
      hide Inv, Proceed, WellFormed;
      StepKeeps(Model(), FireTimer(id), collatesBefore);
      var path := pending[id];
      pending := pending - {id};
      changeTimers := changeTimers - {path};
      queue := queue + [SendChange(path)];
    }

    method CancelPendingChange(path: Path)
      modifies this
      ensures Model() == Cancel(old(Model()), path)
    {
      if path in changeTimers {
        pending := pending - {changeTimers[path]};
        changeTimers := changeTimers - {path};
      }
    }

    method ScheduleChange(path: Path)
      modifies this
      ensures Model() == Schedule(old(Model()), path)
    {
      CancelPendingChange(path);
      pending := pending[nextTimer := path];
      changeTimers := changeTimers[path := nextTimer];
      nextTimer := nextTimer + 1;
    }

    /** One round of the second loop; tells whether the sync now awaits its message. */
    method OpenOrUpdate(project: Project, rest: seq<Path>) returns (sending: bool)
      requires rest != [] && forall path :: path in rest ==> path in project.sources
      modifies this
      ensures if sending then Model() == OpenFrom(old(Model()), project, rest)
              else OpenFrom(Model(), project, rest[1..]) == OpenFrom(old(Model()), project, rest)
    {
      hide Schedule;
      var path := rest[0];
      var source := project.sources[path];
      if path !in documents {
        documents := documents[path := Document(source, 1, source)];
        keys := keys + [path];
        sent := sent + [DidOpen(path, 1, source)];
        task := Opening(project, rest[1..]);
        return true;
      }
      if documents[path].source != source {
        documents := documents[path := documents[path].(source := source)];
        ScheduleChange(path);
      }
      return false;
    }

    /** The second loop of a sync, until it sends or is done. */
    method OpenDocuments(project: Project, paths: seq<Path>)
      requires forall path :: path in paths ==> path in project.sources
      modifies this
      ensures Model() == OpenFrom(old(Model()), project, paths)
    {
      NothingToOpen(project);
      hide OpenFrom;
      var rest := paths;
      while rest != []
        invariant forall path :: path in rest ==> path in project.sources
        invariant OpenFrom(Model(), project, rest) == OpenFrom(old(Model()), project, paths)
        decreases |rest|
      {
        var sending := OpenOrUpdate(project, rest);
        if sending {
          return;
        }
        rest := rest[1..];
      }
      task := Idle;
      finished := finished + 1;
      applied := Some(project);
    }

    /** The first loop of a sync, until it sends or goes on to the second. */
    method CloseDocuments(project: Project, paths: seq<Path>, order: seq<Path>)
      requires forall path :: path in order ==> path in project.sources
      modifies this
      ensures Model() == CloseFrom(old(Model()), project, paths, order)
    {
      var rest := paths;
      while rest != []
        invariant CloseFrom(Model(), project, rest, order) == CloseFrom(old(Model()), project, paths, order)
        decreases |rest|
      {
        var path := rest[0];
        if path !in project.sources {
          CancelPendingChange(path);
          sent := sent + [DidClose(path)];
          task := Closing(project, path, rest[1..]);
          return;
        }
        rest := rest[1..];
      }
      OpenDocuments(project, order);
    }

    /** `sendDocumentChange`. */
    method SendDocumentChange(path: Path)
      modifies this
      ensures Model() == BeginChange(old(Model()), path)
    {
      if path !in documents || documents[path].source == documents[path].sentSource {
        task := Idle;
        finished := finished + 1;
        return;
      }
      var document := documents[path];
      document := document.(version := document.version + 1);
      document := document.(sentSource := document.source);
      documents := documents[path := document];
      sent := sent + [DidChange(path, document.version, document.source)];
      task := Sending;
    }

    /** The promise queue: resume the running operation, or start the next one. */
    method RunQueue()
      requires Valid() && !(task.Idle? && queue == [])
      modifies this
      ensures Valid() && Enabled(old(Model()), Continue)
      ensures Model() == Step(old(Model()), Continue, collatesBefore)
    {
      hide Inv, CloseFrom, OpenFrom, BeginChange, OpenOrder, Without;
      InvWellFormed(Model());
      StepKeeps(Model(), Continue, collatesBefore);
      match task
      case Idle =>
        var operation := queue[0];
        queue := queue[1..];
        match operation {
          case SyncProject(project) =>
            OrderCovers(project, collatesBefore);
            CloseDocuments(project, keys, OpenOrder(project, collatesBefore));
          case SendChange(path) => SendDocumentChange(path);
          case ConfigureAnalysis => task := Configuring;
        }
      case Closing(project, path, rest) =>
        documents := documents - {path};
        keys := Without(keys, path);
        OrderCovers(project, collatesBefore);
        CloseDocuments(project, rest, OpenOrder(project, collatesBefore));
      case Opening(project, rest) =>
        OpenDocuments(project, rest);
      case Sending =>
        task := Idle;
        finished := finished + 1;
      case Configuring =>
        sent := sent + [DidChangeWatchedFiles];
        task := Announcing;
      case Announcing =>
        task := Idle;
        finished := finished + 1;
    }
  }

  lemma NothingToOpen(project: Project)
    ensures forall s: State :: OpenFrom(s, project, []) == Finish(s).(applied := Some(project))
  {
  }
}
