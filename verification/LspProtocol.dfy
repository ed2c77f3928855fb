/** Text document synchronization as the server sees it: the messages of the
    'Text Document Synchronization' section of LSP 3.17, applied in send order by
    a server that tolerates no irregularity. */
module LspProtocol {
  import opened Wrappers

  type Path = string
  type SourceText = string

  datatype Message =
    | DidOpen(path: Path, version: nat, text: SourceText)
    | DidChange(path: Path, version: nat, text: SourceText)
    | DidClose(path: Path)
    | DidChangeWatchedFiles

  /** What the server holds for an open document. */
  datatype Held = Held(version: nat, text: SourceText)

  /** One message; None where a strict server would object: opening an open
      document, opening at another version than 1, changing or closing a closed
      one, skipping a version, or a change that changes nothing. */
  function Receive(server: map<Path, Held>, message: Message): Option<map<Path, Held>> {
    match message
    case DidOpen(path, version, text) =>
      if path in server || version != 1 then None else Some(server[path := Held(version, text)])
    case DidChange(path, version, text) =>
      if path !in server || version != server[path].version + 1 || text == server[path].text then None
      else Some(server[path := Held(version, text)])
    case DidClose(path) =>
      if path !in server then None else Some(server - {path})
    case DidChangeWatchedFiles => Some(server)
  }

  /** A whole conversation, from a server with nothing open. */
  function Serve(log: seq<Message>): Option<map<Path, Held>> {
    if log == [] then Some(map[])
    else
      match Serve(log[..|log| - 1])
      case None => None
      case Some(server) => Receive(server, log[|log| - 1])
  }

  predicate Concerns(message: Message, path: Path) {
    !message.DidChangeWatchedFiles? && message.path == path
  }

  /** The last message about a document among the first n. */
  function Previous(log: seq<Message>, n: nat, path: Path): Option<Message>
    requires n <= |log|
  {
    if n == 0 then None
    else if Concerns(log[n - 1], path) then Some(log[n - 1])
    else Previous(log, n - 1, path)
  }

  /** The sessions of one document, said of neighbouring messages: an open starts
      a session at version 1, each change continues it with the next version and
      another text, a close ends it. */
  predicate Follows(previous: Option<Message>, message: Message) {
    match message
    case DidOpen(_, version, _) => version == 1 && (previous.None? || previous.value.DidClose?)
    case DidChange(_, version, text) =>
      && previous.Some?
      && (previous.value.DidOpen? || previous.value.DidChange?)
      && version == previous.value.version + 1
      && text != previous.value.text
    case DidClose(_) => previous.Some? && !previous.value.DidClose?
    case DidChangeWatchedFiles => true
  }

  ghost predicate SessionsOnly(log: seq<Message>) {
    forall i :: 0 <= i < |log| && !log[i].DidChangeWatchedFiles? ==> Follows(Previous(log, i, log[i].path), log[i])
  }

  lemma {:induction false} PreviousPrefix(log: seq<Message>, k: nat, n: nat, path: Path)
    requires n <= k <= |log|
    ensures Previous(log[..k], n, path) == Previous(log, n, path)
  {
    if n > 0 {
      PreviousPrefix(log, k, n - 1, path);
    }
  }

  lemma {:induction false} PreviousConcerns(log: seq<Message>, n: nat, path: Path)
    requires n <= |log| && Previous(log, n, path).Some?
    ensures Concerns(Previous(log, n, path).value, path)
  {
    if !Concerns(log[n - 1], path) {
      PreviousConcerns(log, n - 1, path);
    }
  }

  /** What the server holds is what the last message about a document says. */
  ghost predicate HeldAsTold(server: map<Path, Held>, log: seq<Message>) {
    forall path :: Told(server, Previous(log, |log|, path), path)
  }

  predicate Told(server: map<Path, Held>, previous: Option<Message>, path: Path) {
    if previous.None? || previous.value.DidClose? || previous.value.DidChangeWatchedFiles? then path !in server
    else path in server && server[path] == Held(previous.value.version, previous.value.text)
  }

  /** A strict server accepts a conversation exactly when, document by document,
      it consists of well-formed sessions; it then holds what it was last told. */
  lemma {:induction false} ServedIffSessions(log: seq<Message>)
    ensures Serve(log).Some? <==> SessionsOnly(log)
    ensures Serve(log).Some? ==> HeldAsTold(Serve(log).value, log)
  {
    if log != [] {
      var n := |log| - 1;
      var earlier := log[..n];
      ServedIffSessions(earlier);
      SessionsOnlySnoc(log);
      if Serve(earlier).Some? {
        var server := Serve(earlier).value;
        ReceivedIffFollows(server, log);
      }
    }
  }

  lemma SessionsOnlySnoc(log: seq<Message>)
    requires log != []
    ensures var n := |log| - 1;
      SessionsOnly(log) <==>
        SessionsOnly(log[..n]) && (!log[n].DidChangeWatchedFiles? ==> Follows(Previous(log, n, log[n].path), log[n]))
  {
    var n := |log| - 1;
    var earlier := log[..n];
    forall i | 0 <= i < n && !log[i].DidChangeWatchedFiles?
      ensures earlier[i] == log[i] && Previous(earlier, i, log[i].path) == Previous(log, i, log[i].path)
    {
      PreviousPrefix(log, n, i, log[i].path);
    }
  }

  lemma ReceivedTold(server: map<Path, Held>, message: Message, previous: Option<Message>, path: Path)
    requires Told(server, previous, path) && Receive(server, message).Some?
    ensures Told(Receive(server, message).value, if Concerns(message, path) then Some(message) else previous, path)
  {
  }

  lemma ReceivedIffFollows(server: map<Path, Held>, log: seq<Message>)
    requires log != [] && HeldAsTold(server, log[..|log| - 1])
    ensures var n := |log| - 1;
      Receive(server, log[n]).Some? <==>
        (!log[n].DidChangeWatchedFiles? ==> Follows(Previous(log, n, log[n].path), log[n]))
    ensures Receive(server, log[|log| - 1]).Some? ==> HeldAsTold(Receive(server, log[|log| - 1]).value, log)
  {
    var n := |log| - 1;
    var message := log[n];
    forall path
      ensures Told(server, Previous(log, n, path), path)
    {
      PreviousPrefix(log, n, n, path);
      assert Told(server, Previous(log[..n], |log[..n]|, path), path);
    }
    if !message.DidChangeWatchedFiles? && Previous(log, n, message.path).Some? {
      PreviousConcerns(log, n, message.path);
    }
    if Receive(server, message).Some? {
      var next := Receive(server, message).value;
      forall path
        ensures Told(next, Previous(log, |log|, path), path)
      {
        assert Told(server, Previous(log, n, path), path);
        assert Previous(log, |log|, path) == if Concerns(message, path) then Some(message) else Previous(log, n, path);
        ReceivedTold(server, message, Previous(log, n, path), path);
      }
    }
  }

  /** Where the last message about a document among the first n stands. */
  lemma {:induction false} PreviousAt(log: seq<Message>, n: nat, path: Path) returns (m: nat)
    requires n <= |log| && Previous(log, n, path).Some?
    ensures m < n && Concerns(log[m], path) && Previous(log, n, path) == Some(log[m])
    ensures forall i :: m < i < n ==> !Concerns(log[i], path)
  {
    if Concerns(log[n - 1], path) {
      m := n - 1;
    } else {
      m := PreviousAt(log, n - 1, path);
    }
  }

  /** From a position on, a document changes only after it is opened. */
  ghost predicate ChangesAfterOpen(log: seq<Message>, from: nat, path: Path) {
    forall j :: from <= j < |log| && log[j].DidChange? && log[j].path == path ==> OpenedBetween(log, from, j, path)
  }

  ghost predicate OpenedBetween(log: seq<Message>, from: nat, to: nat, path: Path) {
    exists i :: from <= i < to && i < |log| && log[i].DidOpen? && log[i].path == path
  }

  /** In legal sessions, after a close a document changes only once it was opened again. */
  lemma AfterClose(log: seq<Message>, from: nat, path: Path)
    requires SessionsOnly(log) && 0 < from <= |log| && log[from - 1] == DidClose(path)
    ensures ChangesAfterOpen(log, from, path)
  {
    hide SessionsOnly;
    forall j | from <= j < |log| && log[j].DidChange? && log[j].path == path
      ensures OpenedBetween(log, from, j, path)
    {
      OpenedBefore(log, from, j, path);
    }
  }

  lemma {:induction false} OpenedBefore(log: seq<Message>, from: nat, j: nat, path: Path)
    requires SessionsOnly(log) && 0 < from <= j < |log| && log[from - 1] == DidClose(path)
    requires log[j].DidChange? && log[j].path == path
    ensures OpenedBetween(log, from, j, path)
    decreases j
  {
    hide Previous;
    assert Follows(Previous(log, j, path), log[j]);
    var m := PreviousAt(log, j, path);
    assert m >= from - 1;
    if log[m].DidChange? {
      OpenedBefore(log, from, m, path);
    }
  }
}
