/** The order in which a sync opens documents, as the server sees it. */
module LspOrder {
  import opened Wrappers
  import opened LspProtocol
  import opened LspSync
  import opened LspSafety
  import opened LspFlush
  import Sorting

  /** An open of one of the paths was the last thing sent, and those behind it are left. */
  ghost predicate OpenedOneOf(t: State, project: Project, paths: seq<Path>) {
    exists k :: 0 <= k < |paths| && OpenedAt(t, project, paths, k)
  }

  ghost predicate OpenedAt(t: State, project: Project, paths: seq<Path>, k: nat)
    requires k < |paths|
  {
    && paths[k] in project.sources
    && t.task == Opening(project, paths[k + 1..])
    && t.sent != [] && t.sent[|t.sent| - 1] == DidOpen(paths[k], 1, project.sources[paths[k]])
  }

  lemma OpenedBehind(t: State, project: Project, paths: seq<Path>)
    requires paths != [] && OpenedOneOf(t, project, paths[1..])
    ensures OpenedOneOf(t, project, paths)
  {
    var k :| 0 <= k < |paths| - 1 && OpenedAt(t, project, paths[1..], k);
    assert paths[1..][k + 1..] == paths[k + 2..];
    assert OpenedAt(t, project, paths, k + 1);
  }

  lemma {:induction false} OpenFromOpens(s: State, project: Project, rest: seq<Path>)
    requires forall path :: path in rest ==> path in project.sources
    ensures var t := OpenFrom(s, project, rest); t.task.Idle? || OpenedOneOf(t, project, rest)
    decreases |rest|
  {
    hide Schedule, OpenedOneOf;
    if rest != [] {
      var path, source := rest[0], project.sources[rest[0]];
      var t := OpenFrom(s, project, rest);
      if path !in s.documents {
        assert OpenedOneOf(t, project, rest) by { OpenedFirst(t, project, rest); }
      } else if s.documents[path].source != source {
        var u := s.(documents := s.documents[path := s.documents[path].(source := source)]);
        OpenFromOpens(Schedule(u, path), project, rest[1..]);
        if !t.task.Idle? { OpenedBehind(t, project, rest); }
      } else {
        OpenFromOpens(s, project, rest[1..]);
        if !t.task.Idle? { OpenedBehind(t, project, rest); }
      }
    }
  }

  lemma OpenedFirst(t: State, project: Project, rest: seq<Path>)
    requires rest != [] && OpenedAt(t, project, rest, 0)
    ensures OpenedOneOf(t, project, rest)
  {
  }

  lemma {:induction false} CloseFromOpens(s: State, project: Project, rest: seq<Path>, order: seq<Path>)
    requires forall path :: path in order ==> path in project.sources
    ensures var t := CloseFrom(s, project, rest, order);
      t.task.Idle? || (t.task.Closing? && t.task.project == project) || OpenedOneOf(t, project, order)
    decreases |rest|
  {
    hide Cancel, OpenFrom, OpenedOneOf;
    if rest == [] {
      OpenFromOpens(s, project, order);
    } else if rest[0] in project.sources {
      CloseFromOpens(s, project, rest[1..], order);
    }
  }

  /** While a sync waits for an open, that open was the last message, and what is left to
      open comes behind it in the project's order. */
  ghost predicate OpensInTurn(s: State, collatesBefore: (Path, Path) -> bool) {
    s.task.Opening? ==> OpenedOneOf(s, s.task.project, OpenOrder(s.task.project, collatesBefore))
  }

  lemma {:induction false} OpenedLater(t: State, project: Project, paths: seq<Path>, from: nat)
    requires from <= |paths| && OpenedOneOf(t, project, paths[from..])
    ensures OpenedOneOf(t, project, paths)
  {
    hide OpenedOneOf;
    if from == 0 {
      assert paths[0..] == paths;
    } else {
      assert paths[from - 1..][1..] == paths[from..];
      OpenedBehind(t, project, paths[from - 1..]);
      OpenedLater(t, project, paths, from - 1);
    }
  }

  lemma ProceedOpens(s: State, collatesBefore: (Path, Path) -> bool)
    requires Enabled(s, Continue) && OpensInTurn(s, collatesBefore)
    ensures OpensInTurn(Proceed(s, collatesBefore), collatesBefore)
  {
    hide OpenFrom, CloseFrom, OpenOrder, Without, WellFormed, OpenedOneOf;
    ContinueWellFormed(s);
    WellFormedTask(s);
    match s.task
    case Idle =>
      if s.queue[0].SyncProject? {
        WellFormedHead(s);
        var project, t := s.queue[0].project, s.(queue := s.queue[1..]);
        OrderCovers(project, collatesBefore);
        CloseFromOpens(t, project, t.keys, OpenOrder(project, collatesBefore));
        TaskProject(Proceed(s, collatesBefore), project, OpenOrder(project, collatesBefore));
      }
    case Closing(project, closing, rest) =>
      OrderCovers(project, collatesBefore);
      CloseFromOpens(
        s.(documents := s.documents - {closing}, keys := Without(s.keys, closing)),
        project, rest, OpenOrder(project, collatesBefore));
      TaskProject(Proceed(s, collatesBefore), project, OpenOrder(project, collatesBefore));
    case Opening(project, rest) =>
      OpenFromOpens(s, project, rest);
      var t := Proceed(s, collatesBefore);
      if !t.task.Idle? {
        var k := OpenedWhere(s, project, OpenOrder(project, collatesBefore));
        TaskProject(t, project, rest);
        OpenedLater(t, project, OpenOrder(project, collatesBefore), k + 1);
      }
    case _ =>
  }

  lemma TaskProject(t: State, project: Project, paths: seq<Path>)
    ensures OpenedOneOf(t, project, paths) ==> t.task.Opening? && t.task.project == project
  {
  }

  lemma OpenedWhere(s: State, project: Project, paths: seq<Path>) returns (k: nat)
    requires OpenedOneOf(s, project, paths)
    ensures k < |paths| && OpenedAt(s, project, paths, k)
  {
    k :| 0 <= k < |paths| && OpenedAt(s, project, paths, k);
  }

  lemma StepOpens(s: State, action: Action, collatesBefore: (Path, Path) -> bool)
    requires Enabled(s, action) && OpensInTurn(s, collatesBefore)
    ensures OpensInTurn(Step(s, action, collatesBefore), collatesBefore)
  {
    hide Proceed, WellFormed, Cancel, OpenOrder, OpenedOneOf;
    var t := Step(s, action, collatesBefore);
    match action
    case Continue => ProceedOpens(s, collatesBefore);
    case ResumeFlush(index) =>
      ScheduleCounts(s.(flushes := s.flushes[..index] + s.flushes[index + 1..]), s.flushes[index].path);
      if s.task.Opening? { SameOpened(s, t, s.task.project, OpenOrder(s.task.project, collatesBefore)); }
    case _ =>
      if s.task.Opening? { SameOpened(s, t, s.task.project, OpenOrder(s.task.project, collatesBefore)); }
  }

  lemma SameOpened(s: State, t: State, project: Project, paths: seq<Path>)
    requires OpenedOneOf(s, project, paths) && t.sent == s.sent && t.task == s.task
    ensures OpenedOneOf(t, project, paths)
  {
    var k := OpenedWhere(s, project, paths);
    assert OpenedAt(t, project, paths, k);
  }

  lemma {:induction false} RunOpens(actions: seq<Action>, collatesBefore: (Path, Path) -> bool)
    requires Run(Initial, actions, collatesBefore).Some?
    ensures OpensInTurn(Run(Initial, actions, collatesBefore).value, collatesBefore)
  {
    hide Step, Enabled, OpensInTurn;
    if actions == [] {
      assert OpensInTurn(Initial, collatesBefore) by { NothingOpens(collatesBefore); }
    } else {
      var n := |actions| - 1;
      RunOpens(actions[..n], collatesBefore);
      StepOpens(Run(Initial, actions[..n], collatesBefore).value, actions[n], collatesBefore);
    }
  }

  lemma NothingOpens(collatesBefore: (Path, Path) -> bool)
    ensures OpensInTurn(Initial, collatesBefore)
  {
  }

  /** In every reachable state in which a sync waits for an open, the document opened is
      the project's entry only if nothing is left to open; and no other document left to
      open collates before it, if the collation is consistent. */
  lemma EntryIsOpenedLast(s: State, collatesBefore: (Path, Path) -> bool)
    requires Reachable(s, collatesBefore) && s.task.Opening? && s.task.project.Valid()
    ensures s.sent != [] && s.sent[|s.sent| - 1].DidOpen?
    ensures s.sent[|s.sent| - 1].path == s.task.project.entry ==> s.task.rest == []
    ensures Sorting.Consistent(collatesBefore) ==>
      forall path :: path in s.task.rest && path != s.task.project.entry ==>
        !collatesBefore(path, s.sent[|s.sent| - 1].path)
  {
    hide Run, OpenOrder, Sorting.Consistent, Sorting.Distinct;
    var project, order := s.task.project, OpenOrder(s.task.project, collatesBefore);
    var actions :| Run(Initial, actions, collatesBefore) == Some(s);
    RunOpens(actions, collatesBefore);
    var k := OpenedWhere(s, project, order);
    OrderCovers(project, collatesBefore);
    if order[k] == project.entry {
      EntryOpensLast(project, collatesBefore);
      SamePlace(order, k, |order| - 1);
    } else if Sorting.Consistent(collatesBefore) {
      OthersOpenInOrder(project, collatesBefore);
      forall path | path in s.task.rest && path != project.entry ensures !collatesBefore(path, order[k]) {
        var i :| 0 <= i < |s.task.rest| && s.task.rest[i] == path;
        assert order[k + 1 + i] == path;
      }
    }
  }

  lemma SamePlace(order: seq<Path>, j: nat, k: nat)
    requires Sorting.Distinct(order) && j < |order| && k < |order| && order[j] == order[k]
    ensures j == k
  {
  }

  // ------------------------------------------------------------ what a sync leaves alone

  /** The document and its timer are as they were, and nothing was sent about it. */
  ghost predicate LeavesAlone(s: State, t: State, path: Path) {
    && path in s.documents && path in t.documents && t.documents[path] == s.documents[path]
    && (path in t.changeTimers <==> path in s.changeTimers)
    && (path in s.changeTimers ==> t.changeTimers[path] == s.changeTimers[path])
    && |s.sent| <= |t.sent| && (forall i :: |s.sent| <= i < |t.sent| ==> !Concerns(t.sent[i], path))
  }

  lemma ScheduleLeaves(s: State, p: Path, path: Path)
    requires p != path && path in s.documents
    ensures LeavesAlone(s, Schedule(s, p), path) && LeavesAlone(s, Cancel(s, p), path)
  {
  }

  lemma LeavesTwice(s: State, t: State, u: State, path: Path)
    requires LeavesAlone(s, t, path) && LeavesAlone(t, u, path) && t.sent == s.sent
    ensures LeavesAlone(s, u, path)
  {
  }

  lemma {:induction false} OpenFromLeaves(s: State, project: Project, rest: seq<Path>, path: Path)
    requires forall p :: p in rest ==> p in project.sources
    requires path in project.sources && path in s.documents && s.documents[path].source == project.sources[path]
    ensures LeavesAlone(s, OpenFrom(s, project, rest), path)
    decreases |rest|
  {
    hide Schedule;
    if rest != [] {
      var p, source := rest[0], project.sources[rest[0]];
      if p in s.documents && s.documents[p].source != source {
        var u := s.(documents := s.documents[p := s.documents[p].(source := source)]);
        ScheduleLeaves(u, p, path);
        ScheduleCounts(u, p);
        OpenFromLeaves(Schedule(u, p), project, rest[1..], path);
        LeavesTwice(s, Schedule(u, p), OpenFrom(Schedule(u, p), project, rest[1..]), path);
      } else if p in s.documents {
        OpenFromLeaves(s, project, rest[1..], path);
      }
    }
  }

  lemma {:induction false} CloseFromLeaves(s: State, project: Project, rest: seq<Path>, order: seq<Path>, path: Path)
    requires forall p :: p in order ==> p in project.sources
    requires path in project.sources && path in s.documents && s.documents[path].source == project.sources[path]
    ensures LeavesAlone(s, CloseFrom(s, project, rest, order), path)
    decreases |rest|
  {
    hide Cancel, OpenFrom;
    if rest == [] {
      OpenFromLeaves(s, project, order, path);
    } else if rest[0] in project.sources {
      CloseFromLeaves(s, project, rest[1..], order, path);
    } else {
      ScheduleLeaves(s, rest[0], path);
      ScheduleCounts(s, rest[0]);
    }
  }

  /** A sync, at its start and at every resumption, leaves a document alone whose text the
      project does not change: no message, no new timer, and a timer already running goes on. */
  lemma SyncLeavesUnchanged(s: State, project: Project, path: Path, collatesBefore: (Path, Path) -> bool)
    requires Reachable(s, collatesBefore) && Enabled(s, Continue)
    requires if s.task.Idle? then s.queue[0] == SyncProject(project)
             else (s.task.Closing? || s.task.Opening?) && s.task.project == project
    requires path in project.sources && path in s.documents && s.documents[path].source == project.sources[path]
    ensures LeavesAlone(s, Step(s, Continue, collatesBefore), path)
  {
    hide Reachable, OpenFrom, CloseFrom, OpenOrder, Without, WellFormed, LeavesAlone;
    ContinueWellFormed(s);
    WellFormedTask(s);
    match s.task
    case Idle =>
      WellFormedHead(s);
      var t := s.(queue := s.queue[1..]);
      OrderCovers(project, collatesBefore);
      CloseFromLeaves(t, project, t.keys, OpenOrder(project, collatesBefore), path);
      LeavesFrom(t, s, Step(s, Continue, collatesBefore), path);
    case Closing(_, closing, rest) =>
      var t := s.(documents := s.documents - {closing}, keys := Without(s.keys, closing));
      assert closing !in project.sources by { ClosesOutside(s, collatesBefore); }
      OrderCovers(project, collatesBefore);
      CloseFromLeaves(t, project, rest, OpenOrder(project, collatesBefore), path);
      LeavesFrom(t, s, Step(s, Continue, collatesBefore), path);
    case Opening(_, rest) => OpenFromLeaves(s, project, rest, path);
    case _ =>
  }

  lemma LeavesFrom(s: State, r: State, t: State, path: Path)
    requires LeavesAlone(s, t, path) && r.sent == s.sent && r.changeTimers == s.changeTimers
    requires path in r.documents && r.documents[path] == s.documents[path]
    ensures LeavesAlone(r, t, path)
  {
  }

  lemma ClosesOutside(s: State, collatesBefore: (Path, Path) -> bool)
    requires Reachable(s, collatesBefore) && s.task.Closing?
    ensures s.task.closing !in s.task.project.sources
  {
    hide Reachable, Consistent, QueueProgress;
    ReachableInv(s, collatesBefore);
  }

  lemma {:induction false} NothingToOpen(s: State, project: Project, rest: seq<Path>)
    requires forall p :: p in rest ==>
      p in project.sources && p in s.documents && s.documents[p].source == project.sources[p]
    ensures OpenFrom(s, project, rest) == Finish(s).(applied := Some(project))
    decreases |rest|
  {
    if rest != [] {
      NothingToOpen(s, project, rest[1..]);
    }
  }

  lemma {:induction false} NothingToClose(s: State, project: Project, rest: seq<Path>, order: seq<Path>)
    requires forall p :: p in order ==>
      p in project.sources && p in s.documents && s.documents[p].source == project.sources[p]
    requires forall p :: p in rest ==> p in project.sources
    ensures CloseFrom(s, project, rest, order) == Finish(s).(applied := Some(project))
    decreases |rest|
  {
    hide OpenFrom, Cancel;
    if rest == [] {
      NothingToOpen(s, project, order);
    } else {
      NothingToClose(s, project, rest[1..], order);
    }
  }

  /** Syncing the project that is there already does nothing at all: it is over at once,
      with no message and no timer touched. */
  lemma SameProjectDoesNothing(s: State, project: Project, collatesBefore: (Path, Path) -> bool)
    requires Reachable(s, collatesBefore) && Enabled(s, Continue) && s.task.Idle? && s.queue[0] == SyncProject(project)
    requires s.documents.Keys == project.sources.Keys
    requires forall path :: path in s.documents ==> s.documents[path].source == project.sources[path]
    ensures Step(s, Continue, collatesBefore) ==
      s.(queue := s.queue[1..], finished := s.finished + 1, applied := Some(project))
  {
    hide Reachable, OpenFrom, CloseFrom, OpenOrder, WellFormed;
    ContinueWellFormed(s);
    WellFormedHead(s);
    OrderCovers(project, collatesBefore);
    KeysOpen(s, collatesBefore);
    var t := s.(queue := s.queue[1..]);
    NothingToClose(t, project, t.keys, OpenOrder(project, collatesBefore));
  }

  lemma KeysOpen(s: State, collatesBefore: (Path, Path) -> bool)
    requires Reachable(s, collatesBefore)
    ensures forall path :: path in s.keys ==> path in s.documents
  {
    hide Reachable, TimersAgree, TimersOpen, NothingLost, ServerAgrees, TaskProgress, QueueProgress;
    ReachableInv(s, collatesBefore);
  }

  // ------------------------------------------------------------ the order of closing

  /** The documents open at the server, in the order they were opened. */
  function OpenBy(log: seq<Message>): seq<Path> {
    if log == [] then []
    else
      var before := OpenBy(log[..|log| - 1]);
      match log[|log| - 1]
      case DidOpen(path, _, _) => before + [path]
      case DidClose(path) => Without(before, path)
      case _ => before
  }

  lemma OpenBySnoc(log: seq<Message>, message: Message)
    ensures OpenBy(log + [message]) ==
      if message.DidOpen? then OpenBy(log) + [message.path]
      else if message.DidClose? then Without(OpenBy(log), message.path)
      else OpenBy(log)
  {
    assert (log + [message])[..|log|] == log;
  }

  /** A close in flight is that of the oldest open document outside the project, and those
      left to look at are the ones opened after it; otherwise the table lists the open
      documents, oldest first. */
  ghost predicate ClosesInTurn(s: State) {
    match s.task
    case Closing(project, path, rest) =>
      && s.sent != [] && s.sent[|s.sent| - 1] == DidClose(path)
      && OpenBy(s.sent[..|s.sent| - 1]) == s.keys
      && path in s.keys && OldestOutside(s.keys, project, path, rest)
    case _ => OpenBy(s.sent) == s.keys
  }

  ghost predicate OldestOutside(keys: seq<Path>, project: Project, path: Path, rest: seq<Path>) {
    exists k :: 0 <= k < |keys| && ClosedAt(keys, project, path, rest, k)
  }

  ghost predicate ClosedAt(keys: seq<Path>, project: Project, path: Path, rest: seq<Path>, k: nat)
    requires k < |keys|
  {
    keys[k] == path && keys[k + 1..] == rest && forall j :: 0 <= j < k ==> keys[j] in project.sources
  }

  lemma {:induction false} OpenFromKeepsTurn(s: State, project: Project, rest: seq<Path>)
    requires forall path :: path in rest ==> path in project.sources
    requires OpenBy(s.sent) == s.keys
    ensures var t := OpenFrom(s, project, rest); OpenBy(t.sent) == t.keys && !t.task.Closing?
    decreases |rest|
  {
    hide Schedule;
    if rest != [] {
      var path, source := rest[0], project.sources[rest[0]];
      if path !in s.documents {
        OpenBySnoc(s.sent, DidOpen(path, 1, source));
      } else if s.documents[path].source != source {
        var u := s.(documents := s.documents[path := s.documents[path].(source := source)]);
        ScheduleKeys(u, path);
        OpenFromKeepsTurn(Schedule(u, path), project, rest[1..]);
      } else {
        OpenFromKeepsTurn(s, project, rest[1..]);
      }
    }
  }

  lemma ScheduleKeys(s: State, path: Path)
    ensures Schedule(s, path).sent == s.sent && Schedule(s, path).keys == s.keys
    ensures Cancel(s, path).sent == s.sent && Cancel(s, path).keys == s.keys
  {
  }

  lemma {:induction false} CloseFromKeepsTurn(s: State, project: Project, m: nat, order: seq<Path>)
    requires forall path :: path in order ==> path in project.sources
    requires OpenBy(s.sent) == s.keys && m <= |s.keys| && forall j :: 0 <= j < m ==> s.keys[j] in project.sources
    ensures ClosesInTurn(CloseFrom(s, project, s.keys[m..], order))
    decreases |s.keys| - m
  {
    hide Cancel, OpenFrom, OpenBy;
    var rest := s.keys[m..];
    if rest == [] {
      OpenFromKeepsTurn(s, project, order);
    } else {
      assert rest[1..] == s.keys[m + 1..];
      if rest[0] in project.sources {
        CloseFromKeepsTurn(s, project, m + 1, order);
      } else {
        ScheduleKeys(s, rest[0]);
        var t := CloseFrom(s, project, rest, order);
        assert t.sent[..|t.sent| - 1] == s.sent;
        assert ClosedAt(s.keys, project, rest[0], rest[1..], m);
      }
    }
  }

  lemma {:induction false} WithoutAt(keys: seq<Path>, k: nat)
    requires Sorting.Distinct(keys) && k < |keys|
    ensures Without(keys, keys[k]) == keys[..k] + keys[k + 1..]
  {
    Sorting.DistinctSplit(keys, 0);
    var rest := keys[1..];
    if k == 0 {
      WithoutContents(rest, keys[0]);
    } else {
      WithoutAt(rest, k - 1);
      assert rest[k - 1] == keys[k];
      assert keys[..k] == [keys[0]] + rest[..k - 1];
      assert rest[k - 1 + 1..] == keys[k + 1..];
    }
  }

  lemma ClosedKeepsTurn(s: State, collatesBefore: (Path, Path) -> bool)
    requires Inv(s) && Enabled(s, Continue) && s.task.Closing? && ClosesInTurn(s)
    ensures ClosesInTurn(Proceed(s, collatesBefore))
  {
    hide OpenFrom, CloseFrom, OpenOrder, Without, OpenBy, TaskProgress, QueueProgress, Consistent, Enabled;
    var project, path, rest := s.task.project, s.task.closing, s.task.rest;
    var k :| 0 <= k < |s.keys| && ClosedAt(s.keys, project, path, rest, k);
    assert Sorting.Distinct(s.keys) by { DistinctKeys(s); }
    WithoutAt(s.keys, k);
    var t := s.(documents := s.documents - {path}, keys := Without(s.keys, path));
    assert s.sent == s.sent[..|s.sent| - 1] + [DidClose(path)];
    OpenBySnoc(s.sent[..|s.sent| - 1], DidClose(path));
    assert t.keys[k..] == rest;
    ContinueWellFormed(s);
    WellFormedTask(s);
    OrderCovers(project, collatesBefore);
    CloseFromKeepsTurn(t, project, k, OpenOrder(project, collatesBefore));
  }

  lemma DistinctKeys(s: State)
    requires Inv(s)
    ensures Sorting.Distinct(s.keys)
  {
    hide TimersAgree, TimersOpen, NothingLost, ServerAgrees, TaskProgress, QueueProgress, Sorting.Distinct;
  }

  lemma ProceedKeepsTurn(s: State, collatesBefore: (Path, Path) -> bool)
    requires Inv(s) && Enabled(s, Continue) && ClosesInTurn(s)
    ensures ClosesInTurn(Proceed(s, collatesBefore))
  {
    hide OpenFrom, CloseFrom, OpenOrder, Without, OpenBy, Inv, WellFormed;
    ContinueWellFormed(s);
    WellFormedTask(s);
    match s.task
    case Idle =>
      var t := s.(queue := s.queue[1..]);
      match s.queue[0] {
        case SyncProject(project) =>
          WellFormedHead(s);
          OrderCovers(project, collatesBefore);
          assert t.keys[0..] == t.keys;
          CloseFromKeepsTurn(t, project, 0, OpenOrder(project, collatesBefore));
        case SendChange(path) =>
          if path in s.documents && Dirty(s.documents[path]) {
            OpenBySnoc(s.sent, DidChange(path, s.documents[path].version + 1, s.documents[path].source));
          }
        case ConfigureAnalysis =>
      }
    case Closing(_, _, _) => ClosedKeepsTurn(s, collatesBefore);
    case Opening(project, rest) =>
      OpenFromKeepsTurn(s, project, rest);
    case Configuring => OpenBySnoc(s.sent, DidChangeWatchedFiles);
    case _ =>
  }

  lemma {:induction false} RunCloses(actions: seq<Action>, collatesBefore: (Path, Path) -> bool)
    requires Run(Initial, actions, collatesBefore).Some?
    ensures ClosesInTurn(Run(Initial, actions, collatesBefore).value)
  {
    hide Step, Enabled, ClosesInTurn, Inv;
    if actions == [] {
      assert ClosesInTurn(Initial) by { NothingCloses(); }
    } else {
      var n := |actions| - 1;
      RunCloses(actions[..n], collatesBefore);
      InitialInv();
      RunKeeps(Initial, actions[..n], collatesBefore);
      StepCloses(Run(Initial, actions[..n], collatesBefore).value, actions[n], collatesBefore);
    }
  }

  lemma NothingCloses()
    ensures ClosesInTurn(Initial)
  {
  }

  lemma StepCloses(s: State, action: Action, collatesBefore: (Path, Path) -> bool)
    requires Inv(s) && Enabled(s, action) && ClosesInTurn(s)
    ensures ClosesInTurn(Step(s, action, collatesBefore))
  {
    hide Proceed, WellFormed, Cancel, OpenBy, OldestOutside, Inv;
    match action
    case Continue => ProceedKeepsTurn(s, collatesBefore);
    case ResumeFlush(index) =>
      var t := s.(flushes := s.flushes[..index] + s.flushes[index + 1..]);
      ScheduleCounts(t, s.flushes[index].path);
      ScheduleKeys(t, s.flushes[index].path);
    case _ =>
  }

  /** The k-th of these documents is the first that the project does not have. */
  ghost predicate FirstOutside(open: seq<Path>, project: Project, path: Path, k: nat) {
    && k < |open| && open[k] == path && path !in project.sources
    && forall j :: 0 <= j < k ==> open[j] in project.sources
  }

  /** In every reachable state with a close in flight, the document being closed is the
      oldest of those open at the server before the close that the project does not have. */
  lemma OldestIsClosedFirst(s: State, collatesBefore: (Path, Path) -> bool) returns (k: nat)
    requires Reachable(s, collatesBefore) && s.task.Closing?
    ensures s.sent != [] && s.sent[|s.sent| - 1] == DidClose(s.task.closing)
    ensures FirstOutside(OpenBy(s.sent[..|s.sent| - 1]), s.task.project, s.task.closing, k)
  {
    hide Run;
    var actions :| Run(Initial, actions, collatesBefore) == Some(s);
    RunCloses(actions, collatesBefore);
    ClosesOutside(s, collatesBefore);
    k :| 0 <= k < |s.keys| && ClosedAt(s.keys, s.task.project, s.task.closing, s.task.rest, k);
  }
}
