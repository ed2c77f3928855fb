/** What a flush waits for, and what it brings to the server: it resumes once everything
    queued at its call has finished, takes the document's timer over, and by the time its
    own send has started the server was told the client's text. */
module LspFlush {
  import opened Wrappers
  import opened LspProtocol
  import opened LspSync
  import opened LspSafety
  import opened LspClose

  // ------------------------------------------------------------ operations in order

  /** How many operations have started so far. */
  function Started(s: State): nat {
    s.finished + if s.task.Idle? then 0 else 1
  }

  lemma {:induction false} OpenFromCounts(s: State, project: Project, rest: seq<Path>)
    requires forall path :: path in rest ==> path in project.sources
    ensures var t := OpenFrom(s, project, rest);
      t.queue == s.queue && t.flushes == s.flushes && Started(t) == s.finished + 1
    decreases |rest|
  {
    hide Schedule;
    if rest != [] {
      var path, source := rest[0], project.sources[rest[0]];
      if path in s.documents && s.documents[path].source != source {
        var u := s.(documents := s.documents[path := s.documents[path].(source := source)]);
        ScheduleCounts(u, path);
        OpenFromCounts(Schedule(u, path), project, rest[1..]);
      } else if path in s.documents {
        OpenFromCounts(s, project, rest[1..]);
      }
    }
  }

  lemma ScheduleCounts(s: State, path: Path)
    ensures var t := Schedule(s, path);
      && t.queue == s.queue && t.flushes == s.flushes && t.finished == s.finished && t.task == s.task
      && t.documents == s.documents && t.sent == s.sent
    ensures var t := Cancel(s, path);
      && t.queue == s.queue && t.flushes == s.flushes && t.finished == s.finished && t.task == s.task
      && t.documents == s.documents && t.sent == s.sent
  {
  }

  lemma {:induction false} CloseFromCounts(s: State, project: Project, rest: seq<Path>, order: seq<Path>)
    requires forall path :: path in order ==> path in project.sources
    ensures var t := CloseFrom(s, project, rest, order);
      t.queue == s.queue && t.flushes == s.flushes && Started(t) == s.finished + 1
    decreases |rest|
  {
    hide Cancel, OpenFrom;
    if rest == [] {
      OpenFromCounts(s, project, order);
    } else if rest[0] in project.sources {
      CloseFromCounts(s, project, rest[1..], order);
    } else {
      ScheduleCounts(s, rest[0]);
    }
  }

  lemma ProceedCounts(s: State, collatesBefore: (Path, Path) -> bool)
    requires Enabled(s, Continue)
    ensures var t := Proceed(s, collatesBefore);
      && t.flushes == s.flushes
      && t.queue == (if s.task.Idle? then s.queue[1..] else s.queue)
      && Started(t) == Started(s) + (if s.task.Idle? then 1 else 0)
  {
    hide OpenFrom, CloseFrom, OpenOrder, Without, WellFormed;
    ContinueWellFormed(s);
    if s.task.Idle? {
      if s.queue[0].SyncProject? {
        var t := s.(queue := s.queue[1..]);
        WellFormedHead(s);
        OrderCovers(s.queue[0].project, collatesBefore);
        CloseFromCounts(t, s.queue[0].project, t.keys, OpenOrder(s.queue[0].project, collatesBefore));
      }
    } else if s.task.Closing? {
      WellFormedTask(s);
      OrderCovers(s.task.project, collatesBefore);
      CloseFromCounts(
        s.(documents := s.documents - {s.task.closing}, keys := Without(s.keys, s.task.closing)),
        s.task.project, s.task.rest, OpenOrder(s.task.project, collatesBefore));
    } else if s.task.Opening? {
      WellFormedTask(s);
      OpenFromCounts(s, s.task.project, s.task.rest);
    }
  }

  /** Operations start in the order they were queued: a step starts the first one, or
      starts none and at most appends to the queue. */
  lemma StartsInOrder(s: State, action: Action, collatesBefore: (Path, Path) -> bool)
    requires Enabled(s, action)
    ensures var t := Step(s, action, collatesBefore);
      if action.Continue? && s.task.Idle? then
        s.queue != [] && t.queue == s.queue[1..] && Started(t) == Started(s) + 1
      else
        |s.queue| <= |t.queue| && t.queue[..|s.queue|] == s.queue && Started(t) == Started(s)
  {
    hide Proceed, WellFormed;
    if action.Continue? {
      ProceedCounts(s, collatesBefore);
    }
  }

  lemma ContinueWellFormed(s: State)
    requires Enabled(s, Continue)
    ensures WellFormed(s)
  {
  }

  lemma WellFormedHead(s: State)
    requires WellFormed(s) && s.queue != [] && s.queue[0].SyncProject?
    ensures s.queue[0].project.Valid()
  {
  }

  lemma WellFormedTask(s: State)
    requires WellFormed(s)
    ensures s.task.Closing? ==> s.task.project.Valid()
    ensures s.task.Opening? ==> forall path :: path in s.task.rest ==> path in s.task.project.sources
  {
  }

  // ------------------------------------------------------------ when a flush resumes

  /** Where a flush waiting at some place stands after these actions, unless it resumed. */
  function Place(place: nat, actions: seq<Action>): Option<nat> {
    if actions == [] then Some(place)
    else
      match Place(place, actions[..|actions| - 1])
      case None => None
      case Some(p) =>
        match actions[|actions| - 1]
        case ResumeFlush(index) => if index == p then None else if index < p then Some(p - 1) else Some(p)
        case _ => Some(p)
  }

  lemma StepFlushes(s: State, action: Action, collatesBefore: (Path, Path) -> bool)
    requires Enabled(s, action)
    ensures var t := Step(s, action, collatesBefore);
      if action.CallFlush? then |t.flushes| == |s.flushes| + 1 && t.flushes[..|s.flushes|] == s.flushes
      else if action.ResumeFlush? then
        action.index < |s.flushes| && t.flushes == s.flushes[..action.index] + s.flushes[action.index + 1..]
      else t.flushes == s.flushes
  {
    hide Proceed, WellFormed, Cancel;
    match action
    case Continue => ProceedCounts(s, collatesBefore);
    case ResumeFlush(index) =>
      ScheduleCounts(s.(flushes := s.flushes[..index] + s.flushes[index + 1..]), s.flushes[index].path);
    case _ =>
  }

  lemma {:induction false} FlushStays(s: State, place: nat, actions: seq<Action>, collatesBefore: (Path, Path) -> bool)
    requires place < |s.flushes| && Run(s, actions, collatesBefore).Some? && Place(place, actions).Some?
    ensures var t, p := Run(s, actions, collatesBefore).value, Place(place, actions).value;
      p < |t.flushes| && t.flushes[p] == s.flushes[place]
  {
    hide Step, Enabled;
    if actions != [] {
      var n := |actions| - 1;
      FlushStays(s, place, actions[..n], collatesBefore);
      StepFlushes(Run(s, actions[..n], collatesBefore).value, actions[n], collatesBefore);
    }
  }

  /** A flush resumes exactly once as many operations have finished as had been queued
      when it was called; they start in order, so these are the same ones. */
  lemma FlushWaits(s: State, path: Path, more: seq<Action>, collatesBefore: (Path, Path) -> bool)
    requires Run(s, [CallFlush(path)] + more, collatesBefore).Some? && Place(|s.flushes|, more).Some?
    ensures var t, p := Run(s, [CallFlush(path)] + more, collatesBefore).value, Place(|s.flushes|, more).value;
      Enabled(t, ResumeFlush(p)) <==> t.finished >= s.finished + |s.queue| + (if s.task.Idle? then 0 else 1)
  {
    hide Run;
    NoRun(s, collatesBefore);
    RunSnoc(s, [], CallFlush(path), collatesBefore);
    var called := Step(s, CallFlush(path), collatesBefore);
    assert [] + [CallFlush(path)] == [CallFlush(path)];
    RunSplit(s, [CallFlush(path)], more, collatesBefore);
    FlushStays(called, |s.flushes|, more, collatesBefore);
  }

  lemma {:induction false} RunSplit(s: State, first: seq<Action>, second: seq<Action>,
                                    collatesBefore: (Path, Path) -> bool)
    ensures Run(s, first + second, collatesBefore) ==
      if Run(s, first, collatesBefore).None? then None
      else Run(Run(s, first, collatesBefore).value, second, collatesBefore)
  {
    hide Step, Enabled;
    if second == [] {
      assert first + second == first;
    } else {
      var n := |second| - 1;
      assert (first + second)[..|first| + n] == first + second[..n];
      RunSplit(s, first, second[..n], collatesBefore);
    }
  }

  // ------------------------------------------------------------ taking the timer over

  /** A flush that finds the document's timer takes it over: no timer of the document is
      left in the table or the host, its send is the last thing queued, and nothing else
      changes. The document is then open, and not being closed. */
  lemma FlushTakesTimer(s: State, index: nat, collatesBefore: (Path, Path) -> bool)
    requires Reachable(s, collatesBefore) && Enabled(s, ResumeFlush(index))
    requires s.flushes[index].path in s.changeTimers
    ensures var path, t := s.flushes[index].path, Step(s, ResumeFlush(index), collatesBefore);
      && path !in t.changeTimers && (forall id :: id in t.pending ==> t.pending[id] != path)
      && (forall other :: other in s.changeTimers && other != path ==>
            other in t.changeTimers && t.changeTimers[other] == s.changeTimers[other]
            && s.changeTimers[other] in t.pending && t.pending[s.changeTimers[other]] == other)
      && t.queue == s.queue + [SendChange(path)]
      && t.documents == s.documents && t.task == s.task && t.finished == s.finished && t.sent == s.sent
      && path in t.documents && ClosingPath(t.task) != Some(path)
  {
    hide Reachable, KeysAgree, ServerAgrees, NothingLost, TaskProgress, QueueProgress;
    ReachableInv(s, collatesBefore);
  }

  // ------------------------------------------------------------ the send reaches the server

  /** A sync that gives the document one of these texts, or an operation that is no sync. */
  ghost predicate Gives(project: Project, path: Path, texts: iset<SourceText>) {
    path in project.sources && project.sources[path] in texts
  }

  /** Operation number k is the document's send, still to start; until then the document
      stays open with one of these texts. */
  ghost predicate Awaited(s: State, k: nat, path: Path, texts: iset<SourceText>) {
    && Started(s) <= k < Started(s) + |s.queue|
    && s.queue[k - Started(s)] == SendChange(path)
    && path in s.documents && s.documents[path].source in texts
    && (s.task.Closing? ==> s.task.closing != path)
    && (s.task.Closing? || s.task.Opening? ==> Gives(s.task.project, path, texts))
    && (forall j :: 0 <= j < k - Started(s) && s.queue[j].SyncProject? ==> Gives(s.queue[j].project, path, texts))
  }

  /** What the stretches of a sync leave of an open document it keeps. */
  ghost predicate StaysOpen(t: State, project: Project, path: Path, texts: iset<SourceText>) {
    && path in t.documents && t.documents[path].source in texts
    && (t.task.Closing? ==> t.task.closing != path)
    && (t.task.Closing? || t.task.Opening? ==> t.task.project == project)
  }

  lemma {:induction false} OpenFromStays(s: State, project: Project, rest: seq<Path>, path: Path,
                                         texts: iset<SourceText>)
    requires forall p :: p in rest ==> p in project.sources
    requires path in s.documents && s.documents[path].source in texts && Gives(project, path, texts)
    ensures StaysOpen(OpenFrom(s, project, rest), project, path, texts)
    decreases |rest|
  {
    hide Schedule;
    if rest != [] {
      var p, source := rest[0], project.sources[rest[0]];
      if p in s.documents && s.documents[p].source != source {
        var u := s.(documents := s.documents[p := s.documents[p].(source := source)]);
        ScheduleCounts(u, p);
        OpenFromStays(Schedule(u, p), project, rest[1..], path, texts);
      } else if p in s.documents {
        OpenFromStays(s, project, rest[1..], path, texts);
      }
    }
  }

  lemma {:induction false} CloseFromStays(s: State, project: Project, rest: seq<Path>, order: seq<Path>,
                                          path: Path, texts: iset<SourceText>)
    requires forall p :: p in order ==> p in project.sources
    requires path in s.documents && s.documents[path].source in texts && Gives(project, path, texts)
    ensures StaysOpen(CloseFrom(s, project, rest, order), project, path, texts)
    decreases |rest|
  {
    hide Cancel, OpenFrom;
    if rest == [] {
      OpenFromStays(s, project, order, path, texts);
    } else if rest[0] in project.sources {
      CloseFromStays(s, project, rest[1..], order, path, texts);
    } else {
      ScheduleCounts(s, rest[0]);
    }
  }

  /** The send is about to start. */
  ghost predicate AboutToSend(s: State, k: nat, path: Path, texts: iset<SourceText>) {
    Awaited(s, k, path, texts) && s.task.Idle? && s.finished == k
  }

  /** A step other than the start of the send leaves it awaited. */
  lemma StillAwaited(s: State, action: Action, k: nat, path: Path, texts: iset<SourceText>,
                     collatesBefore: (Path, Path) -> bool)
    requires Enabled(s, action) && Awaited(s, k, path, texts)
    requires !(action.Continue? && AboutToSend(s, k, path, texts))
    ensures Awaited(Step(s, action, collatesBefore), k, path, texts)
  {
    hide Proceed, Enabled, Cancel;
    StartsInOrder(s, action, collatesBefore);
    match action
    case Continue =>
      if s.task.Idle? { StartStillAwaited(s, k, path, texts, collatesBefore); }
      else { ResumeStillAwaited(s, k, path, texts, collatesBefore); }
    case ResumeFlush(index) =>
      assert index < |s.flushes| by { EnabledIndex(s, index); }
      ScheduleCounts(s.(flushes := s.flushes[..index] + s.flushes[index + 1..]), s.flushes[index].path);
    case _ =>
  }

  lemma EnabledIndex(s: State, index: nat)
    requires Enabled(s, ResumeFlush(index))
    ensures index < |s.flushes|
  {
  }

  lemma StartStillAwaited(s: State, k: nat, path: Path, texts: iset<SourceText>, collatesBefore: (Path, Path) -> bool)
    requires Enabled(s, Continue) && s.task.Idle? && Awaited(s, k, path, texts) && s.finished != k
    ensures Awaited(Proceed(s, collatesBefore), k, path, texts)
  {
    hide OpenFrom, CloseFrom, OpenOrder, WellFormed;
    ContinueWellFormed(s);
    StartsInOrder(s, Continue, collatesBefore);
    var t := s.(queue := s.queue[1..]);
    if s.queue[0].SyncProject? {
      WellFormedHead(s);
      var project := s.queue[0].project;
      assert Gives(project, path, texts);
      OrderCovers(project, collatesBefore);
      CloseFromStays(t, project, t.keys, OpenOrder(project, collatesBefore), path, texts);
    }
  }

  lemma ResumeStillAwaited(s: State, k: nat, path: Path, texts: iset<SourceText>, collatesBefore: (Path, Path) -> bool)
    requires Enabled(s, Continue) && !s.task.Idle? && Awaited(s, k, path, texts)
    ensures Awaited(Proceed(s, collatesBefore), k, path, texts)
  {
    hide OpenFrom, CloseFrom, OpenOrder, WellFormed, Without;
    ContinueWellFormed(s);
    WellFormedTask(s);
    StartsInOrder(s, Continue, collatesBefore);
    match s.task
    case Closing(project, closing, rest) =>
      OrderCovers(project, collatesBefore);
      CloseFromStays(
        s.(documents := s.documents - {closing}, keys := Without(s.keys, closing)),
        project, rest, OpenOrder(project, collatesBefore), path, texts);
    case Opening(project, rest) => OpenFromStays(s, project, rest, path, texts);
    case _ =>
  }

  /** When the send starts, the server is brought to the client's text. */
  lemma SendTells(s: State, k: nat, path: Path, texts: iset<SourceText>, collatesBefore: (Path, Path) -> bool)
    requires Reachable(s, collatesBefore) && Enabled(s, Continue) && AboutToSend(s, k, path, texts)
    ensures var t := Step(s, Continue, collatesBefore);
      && Serve(t.sent).Some? && path in Serve(t.sent).value
      && Serve(t.sent).value[path].text == s.documents[path].source
  {
    hide Reachable, Serve, SessionsOnly, WellFormed;
    var t := Step(s, Continue, collatesBefore);
    assert t == BeginChange(s.(queue := s.queue[1..]), path);
    ReachableStep(s, Continue, collatesBefore);
    ServerHearsSessions(t, collatesBefore);
  }

  /** After i of the actions the awaited send starts, and the server is told one of the
      texts: the one the client holds just then. */
  ghost predicate ToldAt(t: State, actions: seq<Action>, i: nat, path: Path, texts: iset<SourceText>,
                         collatesBefore: (Path, Path) -> bool) {
    && i < |actions| && actions[i] == Continue
    && Run(t, actions[..i], collatesBefore).Some? && Run(t, actions[..i + 1], collatesBefore).Some?
    && var v, w := Run(t, actions[..i], collatesBefore).value, Run(t, actions[..i + 1], collatesBefore).value;
    && v.task.Idle? && v.queue != [] && v.queue[0] == SendChange(path)
    && path in v.documents && v.documents[path].source in texts
    && Serve(w.sent).Some? && path in Serve(w.sent).value
    && Serve(w.sent).value[path].text == v.documents[path].source
  }

  lemma ToldAtPrefix(t: State, actions: seq<Action>, n: nat, i: nat, path: Path, texts: iset<SourceText>,
                     collatesBefore: (Path, Path) -> bool)
    requires n <= |actions| && ToldAt(t, actions[..n], i, path, texts, collatesBefore)
    ensures ToldAt(t, actions, i, path, texts, collatesBefore)
  {
    hide Run, Serve;
    assert actions[..n][..i] == actions[..i] && actions[..n][..i + 1] == actions[..i + 1];
  }

  lemma {:induction false} AwaitedOrTold(t: State, actions: seq<Action>, k: nat, path: Path,
                                         texts: iset<SourceText>, collatesBefore: (Path, Path) -> bool)
    requires Reachable(t, collatesBefore) && Awaited(t, k, path, texts) && Run(t, actions, collatesBefore).Some?
    ensures Awaited(Run(t, actions, collatesBefore).value, k, path, texts)
      || exists i :: ToldAt(t, actions, i, path, texts, collatesBefore)
  {
    hide Reachable, Step, Enabled, Awaited, ToldAt;
    if actions != [] {
      var n := |actions| - 1;
      AwaitedOrTold(t, actions[..n], k, path, texts, collatesBefore);
      if exists i :: ToldAt(t, actions[..n], i, path, texts, collatesBefore) {
        var i :| ToldAt(t, actions[..n], i, path, texts, collatesBefore);
        ToldAtPrefix(t, actions, n, i, path, texts, collatesBefore);
      } else {
        var v := Run(t, actions[..n], collatesBefore).value;
        RunExtends(t, actions[..n], collatesBefore);
        if actions[n].Continue? && AboutToSend(v, k, path, texts) {
          StartTold(t, actions, k, path, texts, collatesBefore);
        } else {
          StillAwaited(v, actions[n], k, path, texts, collatesBefore);
        }
      }
    }
  }

  lemma StartTold(t: State, actions: seq<Action>, k: nat, path: Path, texts: iset<SourceText>,
                  collatesBefore: (Path, Path) -> bool)
    requires Run(t, actions, collatesBefore).Some? && actions != [] && actions[|actions| - 1] == Continue
    requires var v := Run(t, actions[..|actions| - 1], collatesBefore).value;
      Reachable(v, collatesBefore) && AboutToSend(v, k, path, texts)
    ensures ToldAt(t, actions, |actions| - 1, path, texts, collatesBefore)
  {
    hide Reachable, Step, Enabled, Serve;
    var n := |actions| - 1;
    SendTells(Run(t, actions[..n], collatesBefore).value, k, path, texts, collatesBefore);
    assert actions[..n + 1] == actions;
  }

  /** A flush that takes the timer over brings the text to the server. Suppose the
      document's text at that moment is one of `texts`, as is every text that syncs still
      running or queued then give it; in particular none of them closes it. In any run
      from there by whose end the flush's send has started, that is as many operations as
      were queued before it and one more, the server was told one of these texts at the
      start of the send: the one the client held just then. */
  lemma FlushBringsText(s: State, index: nat, texts: iset<SourceText>, more: seq<Action>,
                        collatesBefore: (Path, Path) -> bool)
    requires Reachable(s, collatesBefore) && Enabled(s, ResumeFlush(index))
    requires var path := s.flushes[index].path;
      && path in s.changeTimers
      && path in s.documents && s.documents[path].source in texts
      && (s.task.Closing? || s.task.Opening? ==> Gives(s.task.project, path, texts))
      && (forall j :: 0 <= j < |s.queue| && s.queue[j].SyncProject? ==> Gives(s.queue[j].project, path, texts))
    requires var t := Step(s, ResumeFlush(index), collatesBefore);
      && Run(t, more, collatesBefore).Some?
      && var u := Run(t, more, collatesBefore).value;
         u.finished + (if u.task.Idle? then 0 else 1) > s.finished + (if s.task.Idle? then 0 else 1) + |s.queue|
    ensures var path, t := s.flushes[index].path, Step(s, ResumeFlush(index), collatesBefore);
      exists i :: ToldAt(t, more, i, path, texts, collatesBefore)
  {
    hide Reachable, Step, Enabled, Run, ToldAt;
    EnabledIndex(s, index);
    var path, t := s.flushes[index].path, Step(s, ResumeFlush(index), collatesBefore);
    FlushTakesTimer(s, index, collatesBefore);
    ReachableStep(s, ResumeFlush(index), collatesBefore);
    AwaitedOrTold(t, more, Started(s) + |s.queue|, path, texts, collatesBefore);
  }

  ghost function Only(text: SourceText): iset<SourceText> {
    iset{text}
  }

  /** With nothing queued or running, as in a hover shortly after typing, the server is
      told exactly the text the client had when the flush resumed. */
  lemma FlushBringsThisText(s: State, index: nat, more: seq<Action>, collatesBefore: (Path, Path) -> bool)
    requires Reachable(s, collatesBefore) && Enabled(s, ResumeFlush(index))
    requires s.flushes[index].path in s.changeTimers && s.task.Idle? && s.queue == []
    requires var t := Step(s, ResumeFlush(index), collatesBefore);
      Run(t, more, collatesBefore).Some? && Run(t, more, collatesBefore).value.finished > s.finished
    ensures var path, t := s.flushes[index].path, Step(s, ResumeFlush(index), collatesBefore);
      && path in s.documents
      && exists i :: ToldAt(t, more, i, path, Only(s.documents[path].source), collatesBefore)
  {
    hide Reachable, Step, Enabled, Run, ToldAt;
    EnabledIndex(s, index);
    FlushTakesTimer(s, index, collatesBefore);
    FlushBringsText(s, index, Only(s.documents[s.flushes[index].path].source), more, collatesBefore);
  }
}
