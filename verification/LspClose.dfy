/** What closing a document drops: the text the server was not told yet, whether it
    waits for a timer or in the queue. */
module LspClose {
  import opened Wrappers
  import opened LspProtocol
  import opened LspSync
  import opened LspSafety
  import Sorting

  // ------------------------------------------------------------ messages only accumulate

  ghost predicate Extends(t: State, s: State) {
    |s.sent| <= |t.sent| && t.sent[..|s.sent|] == s.sent
  }

  lemma {:induction false} OpenFromExtends(s: State, project: Project, rest: seq<Path>)
    requires forall path :: path in rest ==> path in project.sources
    ensures Extends(OpenFrom(s, project, rest), s) && !OpenFrom(s, project, rest).task.Closing?
    decreases |rest|
  {
    hide Schedule;
    if rest != [] {
      var path, source := rest[0], project.sources[rest[0]];
      if path in s.documents {
        if s.documents[path].source != source {
          var u := s.(documents := s.documents[path := s.documents[path].(source := source)]);
          ScheduleSends(u, path);
          OpenFromExtends(Schedule(u, path), project, rest[1..]);
        } else {
          OpenFromExtends(s, project, rest[1..]);
        }
      }
    }
  }

  lemma ScheduleSends(s: State, path: Path)
    ensures Schedule(s, path).sent == s.sent && Cancel(s, path).sent == s.sent
    ensures Cancel(s, path).documents == s.documents && Cancel(s, path).queue == s.queue
  {
  }

  /** The closing loop stops at the close it sends, and has sent nothing else. */
  lemma {:induction false} CloseFromSends(s: State, project: Project, rest: seq<Path>, order: seq<Path>)
    requires forall path :: path in order ==> path in project.sources
    ensures var t := CloseFrom(s, project, rest, order);
      && Extends(t, s)
      && (t.task.Closing? ==>
            && t.task.closing in rest && t.documents == s.documents
            && t.sent == s.sent + [DidClose(t.task.closing)])
    decreases |rest|
  {
    hide OpenFrom, Cancel;
    if rest == [] {
      OpenFromExtends(s, project, order);
    } else if rest[0] in project.sources {
      CloseFromSends(s, project, rest[1..], order);
    } else {
      ScheduleSends(s, rest[0]);
    }
  }

  lemma ProceedExtends(s: State, collatesBefore: (Path, Path) -> bool)
    requires Enabled(s, Continue)
    ensures Extends(Proceed(s, collatesBefore), s)
  {
    hide OpenFrom, CloseFrom, OpenOrder, Without;
    if s.task.Idle? && s.queue[0].SyncProject? {
      var t := s.(queue := s.queue[1..]);
      OrderCovers(s.queue[0].project, collatesBefore);
      CloseFromSends(t, s.queue[0].project, t.keys, OpenOrder(s.queue[0].project, collatesBefore));
    } else if s.task.Closing? {
      OrderCovers(s.task.project, collatesBefore);
      CloseFromSends(
        s.(documents := s.documents - {s.task.closing}, keys := Without(s.keys, s.task.closing)),
        s.task.project, s.task.rest, OpenOrder(s.task.project, collatesBefore));
    } else if s.task.Opening? {
      OpenFromExtends(s, s.task.project, s.task.rest);
    }
  }

  lemma StepExtends(s: State, action: Action, collatesBefore: (Path, Path) -> bool)
    requires Enabled(s, action)
    ensures Extends(Step(s, action, collatesBefore), s)
  {
    hide Proceed, WellFormed;
    if action.Continue? {
      ProceedExtends(s, collatesBefore);
    }
  }

  lemma {:induction false} RunExtends(s: State, actions: seq<Action>, collatesBefore: (Path, Path) -> bool)
    requires Reachable(s, collatesBefore) && Run(s, actions, collatesBefore).Some?
    ensures Reachable(Run(s, actions, collatesBefore).value, collatesBefore)
    ensures Extends(Run(s, actions, collatesBefore).value, s)
  {
    hide Reachable, Step, Enabled;
    if actions != [] {
      var n := |actions| - 1;
      RunExtends(s, actions[..n], collatesBefore);
      var t := Run(s, actions[..n], collatesBefore).value;
      ReachableStep(t, actions[n], collatesBefore);
      StepExtends(t, actions[n], collatesBefore);
    }
  }

  // ------------------------------------------------------------ what a close drops

  /** The step that starts a close sends just that, and leaves the documents in place. */
  lemma CloseStarts(s: State, collatesBefore: (Path, Path) -> bool)
    requires Inv(s) && Enabled(s, Continue) && Step(s, Continue, collatesBefore).task.Closing?
    ensures var t := Step(s, Continue, collatesBefore);
      var path := t.task.closing;
      && t.sent == s.sent + [DidClose(path)]
      && path in s.documents && path in t.documents && t.documents[path] == s.documents[path]
      && ClosingPath(s.task) != Some(path)
  {
    hide CloseFrom, OpenFrom, OpenOrder, Without, ServerAgrees, TimersAgree, TimersOpen, QueueProgress, NothingLost;
    match s.task
    case Idle =>
      if s.queue[0].SyncProject? {
        var project, t := s.queue[0].project, s.(queue := s.queue[1..]);
        OrderCovers(project, collatesBefore);
        CloseFromSends(t, project, t.keys, OpenOrder(project, collatesBefore));
      }
    case Closing(project, path, rest) =>
      OrderCovers(project, collatesBefore);
      var t := s.(documents := s.documents - {path}, keys := Without(s.keys, path));
      assert forall p :: p in rest ==> p in [path] + rest;
      Sorting.DistinctSplit([path] + rest, 0);
      assert ([path] + rest)[1..] == rest;
      CloseFromSends(t, project, rest, OpenOrder(project, collatesBefore));
    case Opening(project, rest) => OpenFromExtends(s, project, rest);
    case _ =>
  }

  /** A close drops the client's text if and only if the document still has unsent text
      when the close starts, whether that waits for a timer or in the queue: the server
      closes with the client's text exactly if the document was clean, and however the
      client is used from there, no change of the document follows until it is opened
      again. */
  lemma CloseDropsIff(s: State, more: seq<Action>, collatesBefore: (Path, Path) -> bool)
    requires Reachable(s, collatesBefore) && Enabled(s, Continue)
    requires Step(s, Continue, collatesBefore).task.Closing?
    requires Run(Step(s, Continue, collatesBefore), more, collatesBefore).Some?
    ensures var t := Step(s, Continue, collatesBefore);
      var path, last := t.task.closing, Run(t, more, collatesBefore).value;
      && t.sent == s.sent + [DidClose(path)]
      && path in s.documents && path in t.documents && t.documents[path] == s.documents[path]
      && Serve(s.sent).Some? && path in Serve(s.sent).value
      && (Serve(s.sent).value[path].text == t.documents[path].source <==> !Dirty(s.documents[path]))
      && Extends(last, t) && ChangesAfterOpen(last.sent, |t.sent|, path)
  {
    hide Reachable, Inv, Step, Enabled, Run, Serve, SessionsOnly, ChangesAfterOpen;
    ReachableInv(s, collatesBefore);
    ServerHearsSessions(s, collatesBefore);
    CloseStarts(s, collatesBefore);
    var t := Step(s, Continue, collatesBefore);
    ReachableStep(s, Continue, collatesBefore);
    RunExtends(t, more, collatesBefore);
    var last := Run(t, more, collatesBefore).value;
    ServerHearsSessions(last, collatesBefore);
    assert last.sent[|t.sent| - 1] == t.sent[|t.sent| - 1];
    AfterClose(last.sent, |t.sent|, t.task.closing);
  }

  /** A queued send does not save the text: while the analysis options are being set, the
      document is removed from the project, and then its timer fires. The sync runs first,
      and the send behind it finds no document. */
  lemma QueuedSendIsDropped(path: Path, first: SourceText, second: SourceText, collatesBefore: (Path, Path) -> bool)
    returns (s: State, last: State)
    requires first != second
    ensures Reachable(s, collatesBefore) && ClosingPath(s.task) == Some(path)
    ensures path in s.documents && Dirty(s.documents[path]) && SendChange(path) in s.queue
    ensures Run(s, [Continue, Continue], collatesBefore) == Some(last)
    ensures last.task.Idle? && last.queue == [] && path !in last.documents && last.sent == s.sent
  {
    hide Reachable, Run, OpenOrder, CloseFrom;
    var edited := EditedAtRest(path, first, second, collatesBefore);
    var ready := SendBehindSync(edited, path, collatesBefore);
    OrderCovers(NoDocuments, collatesBefore);
    ReachableStep(ready, Continue, collatesBefore);
    s := Step(ready, Continue, collatesBefore);
    ClosesOne(ready.(queue := ready.queue[1..]), path, OpenOrder(NoDocuments, collatesBefore));
    last := ClosedThenSkipped(s, path, collatesBefore);
  }

  /** From an edited client at rest to a queue of the sync that removes the document and,
      behind it, the send of its text. */
  lemma SendBehindSync(edited: State, path: Path, collatesBefore: (Path, Path) -> bool) returns (ready: State)
    requires Reachable(edited, collatesBefore) && edited.task.Idle? && edited.queue == []
    requires edited.keys == [path] && path in edited.documents && Dirty(edited.documents[path])
    ensures Reachable(ready, collatesBefore) && ready.task.Idle?
    ensures ready.queue == [SyncProject(NoDocuments), SendChange(path)] && Enabled(ready, Continue)
    ensures ready.keys == edited.keys && ready.documents == edited.documents
  {
    hide Reachable, KeysAgree, ServerAgrees, TaskProgress, QueueProgress;
    ReachableInv(edited, collatesBefore);
    var id := edited.changeTimers[path];
    assert NoDocuments.Valid();
    ReachableStep(edited, CallConfigure, collatesBefore);
    var called := Step(edited, CallConfigure, collatesBefore);
    ReachableStep(called, Continue, collatesBefore);
    var setting := Step(called, Continue, collatesBefore);
    ReachableStep(setting, CallSync(NoDocuments), collatesBefore);
    var removed := Step(setting, CallSync(NoDocuments), collatesBefore);
    ReachableStep(removed, FireTimer(id), collatesBefore);
    var fired := Step(removed, FireTimer(id), collatesBefore);
    ReachableStep(fired, Continue, collatesBefore);
    var announcing := Step(fired, Continue, collatesBefore);
    ReachableStep(announcing, Continue, collatesBefore);
    ready := Step(announcing, Continue, collatesBefore);
  }

  lemma CloseEnds(s: State, path: Path, collatesBefore: (Path, Path) -> bool)
    requires WellFormed(s) && s.task == Closing(NoDocuments, path, [])
    ensures var t := Proceed(s, collatesBefore);
      t.task.Idle? && t.queue == s.queue && path !in t.documents && t.sent == s.sent
  {
    hide Without, OpenOrder;
    OrderCovers(NoDocuments, collatesBefore);
    assert OpenOrder(NoDocuments, collatesBefore) == [];
  }

  lemma SendSkipped(s: State, path: Path, collatesBefore: (Path, Path) -> bool)
    requires WellFormed(s) && s.task.Idle? && s.queue == [SendChange(path)] && path !in s.documents
    ensures Proceed(s, collatesBefore) == Finish(s.(queue := []))
  {
    assert s.queue[1..] == [];
  }

  /** The sync deletes the document and ends; the send then does nothing. */
  lemma ClosedThenSkipped(s: State, path: Path, collatesBefore: (Path, Path) -> bool) returns (last: State)
    requires Reachable(s, collatesBefore) && s.task == Closing(NoDocuments, path, []) && s.queue == [SendChange(path)]
    ensures Run(s, [Continue, Continue], collatesBefore) == Some(last)
    ensures last.task.Idle? && last.queue == [] && path !in last.documents && last.sent == s.sent
  {
    hide Reachable, Run, Inv, WellFormed, Proceed;
    ReachableInv(s, collatesBefore);
    InvWellFormed(s);
    CloseEnds(s, path, collatesBefore);
    ReachableStep(s, Continue, collatesBefore);
    var closed := Step(s, Continue, collatesBefore);
    ReachableInv(closed, collatesBefore);
    InvWellFormed(closed);
    SendSkipped(closed, path, collatesBefore);
    last := Step(closed, Continue, collatesBefore);
    NoRun(s, collatesBefore);
    RunSnoc(s, [], Continue, collatesBefore);
    assert [] + [Continue] == [Continue] && [Continue] + [Continue] == [Continue, Continue];
    RunSnoc(s, [Continue], Continue, collatesBefore);
  }

  lemma NoRun(s: State, collatesBefore: (Path, Path) -> bool)
    ensures Run(s, [], collatesBefore) == Some(s)
  {
  }
}
