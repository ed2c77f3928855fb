/** Switching between MIDI input ports without leaving notes or handlers behind. */
module MidiInputs {
  import opened Wrappers
  import opened MidiLabels
  import opened MidiNotes

  const CONNECT := "Connect MIDI device\U{2026}"

  /** The port with an id. */
  ghost function PortWith(ports: seq<Port>, id: string): (r: Option<Port>)
    ensures r.Some? <==> HasId(ports, id)
    ensures r.Some? ==> r.value in ports && r.value.id == id
  {
    if HasId(ports, id) then
      var j :| 0 <= j < |ports| && ports[j].id == id;
      Some(ports[j])
    else None
  }

  predicate SameObject(a: Option<Port>, b: Option<Port>) {
    a.Some? && b.Some? && a.value.handle == b.value.handle
  }

  /** Selecting the port with an id closes another port. */
  ghost predicate Closes(ports: seq<Port>, previousId: Option<string>, id: string) {
    previousId.Some? && previousId.value != id && PortWith(ports, previousId.value).Some?
  }

  /** What can happen while the previous port is closing. */
  datatype Meanwhile =
    | PortsChanged(ports: seq<Port>)
    | Rebuilt
    | Redeclared(names: set<string>)
    | Arrived(handle: nat, data: seq<Byte>)

  predicate AllDistinct(events: seq<Meanwhile>) {
    forall k :: 0 <= k < |events| && events[k].PortsChanged? ==> DistinctIds(events[k].ports)
  }

  /** The ports the browser has, and those last shown, after some events. */
  function Elapsed(visible: seq<Port>, shown: seq<Port>, events: seq<Meanwhile>): (seq<Port>, seq<Port>) {
    if events == [] then (visible, shown)
    else
      var (has, showed) := Elapsed(visible, shown, events[..|events| - 1]);
      match events[|events| - 1]
      case PortsChanged(ports) => (ports, showed)
      case Rebuilt => (has, has)
      case _ => (has, showed)
  }

  /** The notes meanwhile: with no port connected, only declarations matter. */
  function NotesMeanwhile(notes: Notes, events: seq<Meanwhile>): Notes {
    if events == [] then notes
    else
      var before := NotesMeanwhile(notes, events[..|events| - 1]);
      match events[|events| - 1]
      case Redeclared(names) => After(before, Declare(names))
      case _ => before
  }

  datatype Selected = Connected | Disconnected | Listed | Refused | Unavailable

  class BrowserMidiInputs {
    /** The ports the browser shows, once permission was granted. */
    var access: Option<seq<Port>>
    var current: string
    var currentId: Option<string>
    var inputs: map<string, Port>
    var inputIds: map<string, string>
    var notes: Notes
    /** The ports as they were when the tables were last built. */
    ghost var shown: seq<Port>
    /** The port objects whose `onmidimessage` is set. */
    var handlers: set<nat>

    constructor ()
      ensures Valid() && access == None && current == KEYBOARD && handlers == {}
      ensures notes == Notes({}, [], [])
    {
      access, current, currentId := None, KEYBOARD, None;
      inputs, inputIds, shown := map[], map[], [];
      notes, handlers := Notes({}, [], []), {};
      NothingTabulated();
    }

    function CurrentPort(): Option<Port>
      reads this
    {
      if current in inputs then Some(inputs[current]) else None
    }

    /** At most the current port has a handler, without a selected port no note is on,
        and the tables index the ports last shown by the labels these are given. */
    ghost predicate Valid()
      reads this
    {
      && (currentId.None? <==> current == KEYBOARD)
      && KEYBOARD !in inputs
      && (forall h <- handlers :: CurrentPort().Some? && h == CurrentPort().value.handle)
      && (currentId.None? ==> notes.active == [])
      && DistinctIds(shown) && Tabulated(shown, inputs, inputIds)
    }

    /** The selected id and the selected label denote the same port. */
    ghost predicate Synced()
      reads this
    {
      currentId.Some? ==>
        && current in inputs && current in inputIds
        && inputIds[current] == currentId.value && inputs[current].id == currentId.value
    }

    /** Ports come and go in the browser at any time. */
    method PortsChange(ports: seq<Port>)
      requires Valid()
      modifies this`access
      ensures Valid() && (access == if old(access).Some? then Some(ports) else None)
    {
      if access.Some? {
        access := Some(ports);
      }
    }

    method SetDeclared(events: set<string>)
      requires Valid()
      modifies this`notes
      ensures Valid() && notes == After(old(notes), Declare(events))
      ensures StaysInStep(old(notes), notes)
    {
      hide DistinctIds, Tabulated;
      StepsAndSilence(notes);
      notes := notes.(declared := events);
    }

    /** A message arriving at a port object; without a handler nothing happens. */
    method OnMessage(handle: nat, data: seq<Byte>)
      requires Valid()
      modifies this`notes
      ensures Valid()
      ensures notes == if handle in handlers then After(old(notes), Message(data)) else old(notes)
      ensures StaysInStep(old(notes), notes)
    {
      hide DistinctIds, Tabulated, AfterMessage, StaysInStep;
      StepsAndSilence(notes);
      if handle in handlers {
        notes := AfterMessage(notes, data);
      }
    }

    /** One note-off per active note, in the order they were pressed. */
    method ReleaseActiveNotes()
      modifies this`notes
      ensures notes == After(old(notes), Release) && notes.active == []
      ensures Silences(old(notes), notes)
    {
      hide Silences, StaysInStep;
      StepsAndSilence(notes);
      if "note_off" in notes.declared {
        var active := notes.active;
        var i := 0;
        while i < |active|
          invariant 0 <= i <= |active|
          invariant notes == old(notes).(dispatched := old(notes).dispatched + Releases(active[..i]))
        {
          var soFar := active[..i + 1];
          assert soFar[..|soFar| - 1] == active[..i];
          notes := notes.(dispatched := notes.dispatched + [NoteOff(active[i].0, active[i].1, 0.0)]);
          i := i + 1;
        }
        assert active[..i] == active;
      } else {
        assert notes.dispatched + [] == notes.dispatched;
      }
      notes := notes.(active := []);
    }

    method DetachInputs()
      requires Valid()
      modifies this`handlers
      ensures handlers == {}
    {
      handlers := handlers - set name | name in inputs :: inputs[name].handle;
    }

    method ConnectCurrent()
      requires Valid()
      modifies this`handlers
      ensures handlers == if CurrentPort().Some? then {CurrentPort().value.handle} else {}
    {
      if current != KEYBOARD && current in inputs {
        assert handlers <= {inputs[current].handle};
        handlers := handlers + {inputs[current].handle};
      }
    }

    /** The synchronous part of disconnecting; closing the port changes nothing here. */
    method Disconnect()
      requires Valid()
      modifies this`notes, this`handlers, this`current, this`currentId
      ensures Valid() && current == KEYBOARD && handlers == {}
      ensures notes == After(old(notes), Release) && Silences(old(notes), notes)
    {
      hide DistinctIds, Tabulated, After, Silences;
      ReleaseActiveNotes();
      DetachInputs();
      current, currentId := KEYBOARD, None;
    }

    ghost function Visible(): seq<Port>
      reads this
    {
      if access.Some? then access.value else []
    }

    /** What relabelling leaves, given the selection and the notes before: the selected
        id on its port, under whatever label that port has now, or dropped with it. Notes
        are released exactly when the port is gone or is another object. */
    ghost predicate Relabelled(previousId: Option<string>, previousPort: Option<Port>, before: Notes)
      reads this
    {
      var found := if previousId.Some? then PortWith(Visible(), previousId.value) else None;
      var kept := previousId.None? || SameObject(found, previousPort);
      && Synced() && shown == Visible()
      && (currentId == if found.Some? then previousId else None)
      && CurrentPort() == found
      && (handlers == if found.Some? then {found.value.handle} else {})
      && (notes == if kept then before else After(before, Release))
      && (if kept then StaysInStep(before, notes) else Silences(before, notes))
    }

    method RebuildInputs()
      requires Valid() && DistinctIds(Visible())
      modifies this
      ensures Valid() && access == old(access)
      ensures Relabelled(old(currentId), old(CurrentPort()), old(notes))
    {
      hide DistinctIds, HasId, After, Tabulated, StaysInStep, Silences, PortWith;
      StepsAndSilence(notes);
      var previousId, previousInput := currentId, CurrentPort();
      var given := TakeTables();
      if previousId.Some? {
        var found := if given.Some? then Some(inputs[given.value]) else None;
        if found.None? {
          ReleaseActiveNotes();
          current, currentId := KEYBOARD, None;
        } else {
          if !SameObject(found, previousInput) {
            ReleaseActiveNotes();
          }
          current := given.value;
        }
      }
      ConnectCurrent();
    }

    /** The first half of relabelling: no handlers, new tables, and the label under which
        the selected id is found in them. */
    method TakeTables() returns (given: Option<string>)
      requires Valid() && DistinctIds(Visible())
      modifies this`inputs, this`inputIds, this`shown, this`handlers
      ensures handlers == {} && shown == Visible() && DistinctIds(shown) && Tabulated(shown, inputs, inputIds)
      ensures KEYBOARD !in inputs
      ensures currentId.None? ==> given.None?
      ensures currentId.Some? ==> (given.Some? <==> PortWith(shown, currentId.value).Some?)
      ensures given.Some? ==>
        && given.value in inputs && given.value in inputIds
        && inputIds[given.value] == currentId.value && inputs[given.value].id == currentId.value
        && PortWith(shown, currentId.value) == Some(inputs[given.value])
    {
      hide Labelled, Bound, DistinctIds, HasId, Distinct, Tabulated, PortWith;
      DetachInputs();
      var ports := if access.Some? then access.value else [];
      var byId: map<string, string>;
      ghost var labels: seq<string>;
      inputs, inputIds, byId, labels := BuildTables(ports);
      shown := ports;
      KeyboardKept(ports, labels, inputs, inputIds, byId);
      given := None;
      if currentId.Some? {
        LookupById(ports, labels, inputs, inputIds, byId, currentId.value);
        if currentId.value in byId {
          given := Some(byId[currentId.value]);
        }
      }
    }

    /** Asking for access, once; the answer comes from the user. */
    method EnsureAccess(answer: Option<seq<Port>>) returns (granted: bool)
      requires Valid()
      modifies this`access
      ensures Valid() && access == (if old(access).Some? then old(access) else answer)
      ensures granted == access.Some?
    {
      if access.None? {
        access := answer;
      }
      return access.Some?;
    }

    /** Selecting a device, up to the point where closing the previous port is awaited:
        unless that very port was selected already, no note and no handler remains. There
        is a port to close only if another one was selected and is still there. */
    method BeginSelect(name: string) returns (id: Option<string>, closing: bool)
      requires Valid() && DistinctIds(Visible())
      modifies this
      ensures Valid() && Synced() && access == old(access) && shown == Visible()
      ensures id.Some? <==> name in Labels(shown)
      ensures id.Some? ==> LabelOf(shown, id.value) == Some(name) && name != KEYBOARD
      ensures id.Some? ==> if id == old(currentId) then currentId == id && current == name else currentId == None
      ensures id.Some? ==>
        var kept := id == old(currentId) && SameObject(PortWith(shown, id.value), old(CurrentPort()));
        && (notes == if kept then old(notes) else After(old(notes), Release))
        && (if kept then StaysInStep(old(notes), notes) else Silences(old(notes), notes))
      ensures id.None? ==> Relabelled(old(currentId), old(CurrentPort()), old(notes))
      ensures closing <==> id.Some? && Closes(shown, old(currentId), id.value)
    {
      hide HasId, DistinctIds, After, Tabulated, Labels, LabelOf, StaysInStep, Silences;
      RebuildInputs();
      TabulatedFacts(shown, inputs, inputIds);
      ReleaseTwice(old(notes));
      StepsAndSilence(old(notes));
      TabulatedName(shown, inputs, inputIds, name);
      if name !in inputs {
        return None, false;
      }
      id := Some(inputIds[name]);
      TabulatedLabel(shown, inputs, inputIds, name, id.value);
      TabulatedLabel(shown, inputs, inputIds, current, id.value);
      closing := id != currentId && current in inputs;
      if id != currentId {
        Disconnect();
      }
    }

    /** The rest of selecting. Ports may have been relabelled while the previous one was
        closing: the selection is on the chosen port exactly when the ports now shown
        still give that port the label it was chosen by. */
    method FinishSelect(name: string, id: string)
      requires Valid() && name != KEYBOARD
      requires currentId == None || (currentId == Some(id) && current == name)
      modifies this`current, this`currentId, this`handlers
      ensures Valid() && current == name && currentId == Some(id)
      ensures handlers == if CurrentPort().Some? then {CurrentPort().value.handle} else {}
      ensures Synced() <==> LabelOf(shown, id) == Some(name)
      ensures Synced() ==> CurrentPort() == PortWith(shown, id)
    {
      hide HasId, DistinctIds, Tabulated, LabelOf, Labels;
      TabulatedFacts(shown, inputs, inputIds);
      TabulatedLabel(shown, inputs, inputIds, name, id);
      current, currentId := name, Some(id);
      ConnectCurrent();
    }

    /** What happens between the two halves of a selection, one event after another. */
    method Elapse(events: seq<Meanwhile>)
      requires Valid() && access.Some? && DistinctIds(access.value) && currentId == None && AllDistinct(events)
      modifies this
      ensures Valid() && access.Some? && DistinctIds(access.value) && currentId == None
      ensures (access.value, shown) == Elapsed(old(access).value, old(shown), events)
      ensures notes == NotesMeanwhile(old(notes), events)
    {
      hide DistinctIds, After, Tabulated, StaysInStep, Silences;
      assert events[..0] == [];
      var k := 0;
      while k < |events|
        invariant k <= |events| && Valid() && access.Some? && DistinctIds(access.value) && currentId == None
        invariant (access.value, shown) == Elapsed(old(access).value, old(shown), events[..k])
        invariant notes == NotesMeanwhile(old(notes), events[..k])
      {
        ghost var soFar := events[..k + 1];
        assert soFar[..|soFar| - 1] == events[..k] && soFar[|soFar| - 1] == events[k];
        match events[k] {
          case PortsChanged(ports) => PortsChange(ports);
          case Rebuilt => RebuildInputs();
          case Redeclared(names) => SetDeclared(names);
          case Arrived(handle, data) => OnMessage(handle, data);
        }
        k := k + 1;
      }
      assert events[..|events|] == events;
    }

    /** `select`, with everything that happens while the previous port is closing, if
        there is one. The device chosen is the one labelled `name` among the ports shown at
        the start; the selection ends up on it exactly when the ports shown at the end give
        it that label too, which is certain when no port had to be closed. */
    method Select(name: string, answer: Option<seq<Port>>, meanwhile: seq<Meanwhile>) returns (r: Selected)
      requires Valid() && DistinctIds(Visible()) && (answer.Some? ==> DistinctIds(answer.value)) && AllDistinct(meanwhile)
      modifies this
      ensures Valid() && DistinctIds(Visible())
      ensures var ports := if old(access).Some? then old(access) else answer;
        match r
        case Disconnected =>
          && (name == "" || name == KEYBOARD)
          && access == old(access) && current == KEYBOARD && handlers == {}
          && notes == After(old(notes), Release) && Silences(old(notes), notes)
        case Refused =>
          && name != "" && name != KEYBOARD && ports == None
          && access == None && current == old(current) && currentId == old(currentId)
          && handlers == old(handlers) && notes == old(notes)
        case Listed =>
          && name == CONNECT && ports.Some? && access == ports
          && Relabelled(old(currentId), old(CurrentPort()), old(notes))
        case Unavailable =>
          && name != "" && name != KEYBOARD && name != CONNECT
          && ports.Some? && access == ports && name !in Labels(ports.value)
          && Relabelled(old(currentId), old(CurrentPort()), old(notes))
        case Connected =>
          && name != "" && name != KEYBOARD && name != CONNECT
          && ports.Some? && name in Labels(ports.value)
          && current == name && currentId.Some?
          && LabelOf(ports.value, currentId.value) == Some(name)
          && handlers == (if CurrentPort().Some? then {CurrentPort().value.handle} else {})
          && (Synced() <==> LabelOf(shown, currentId.value) == LabelOf(ports.value, currentId.value))
          && (Synced() ==> CurrentPort() == PortWith(shown, currentId.value))
          && (if Closes(ports.value, old(currentId), currentId.value) then
                && access == Some(Elapsed(ports.value, ports.value, meanwhile).0)
                && shown == Elapsed(ports.value, ports.value, meanwhile).1
                && notes == NotesMeanwhile(After(old(notes), Release), meanwhile)
              else
                var kept := currentId == old(currentId) && SameObject(CurrentPort(), old(CurrentPort()));
                && Synced() && access == ports && shown == ports.value
                && (notes == if kept then old(notes) else After(old(notes), Release))
                && (kept ==> StaysInStep(old(notes), notes)))
          && (currentId != old(currentId) || !SameObject(PortWith(ports.value, currentId.value), old(CurrentPort())) ==>
                Silences(old(notes), notes))
    {
      hide HasId, DistinctIds, After, Tabulated, Labels, LabelOf, StaysInStep, Silences, Elapsed, NotesMeanwhile, AllDistinct;
      if name == "" || name == KEYBOARD {
        Disconnect();
        return Disconnected;
      }
      var granted := EnsureAccess(answer);
      if !granted {
        return Refused;
      }
      if name == CONNECT {
        RebuildInputs();
        return Listed;
      }
      var id, closing := BeginSelect(name);
      if id.None? {
        return Unavailable;
      }
      if closing {
        SilenceLasts(old(notes), notes, meanwhile);
        Elapse(meanwhile);
      }
      FinishSelect(name, id.value);
      return Connected;
    }
  }

  /** The tables index the ports by the labels the ports are given. */
  ghost predicate Tabulated(ports: seq<Port>, inputs: map<string, Port>, inputIds: map<string, string>) {
    exists labels, byId :: Labelled(ports, labels) && Bound(ports, labels, inputs, inputIds, byId)
  }

  lemma KeyboardKept(ports: seq<Port>, labels: seq<string>, inputs: map<string, Port>, inputIds: map<string, string>,
                     byId: map<string, string>)
    requires Labelled(ports, labels) && Bound(ports, labels, inputs, inputIds, byId)
    ensures KEYBOARD !in inputs && Tabulated(ports, inputs, inputIds)
  {
    LabelsDistinct(ports, labels);
  }

  lemma TabulatedFacts(ports: seq<Port>, inputs: map<string, Port>, inputIds: map<string, string>)
    requires Tabulated(ports, inputs, inputIds)
    ensures inputs.Keys == inputIds.Keys && KEYBOARD !in inputs
    ensures forall name <- inputs :: inputs[name].id == inputIds[name] && inputs[name] in ports
  {
    hide Labelled, Bound;
    var labels, byId :| Labelled(ports, labels) && Bound(ports, labels, inputs, inputIds, byId);
    KeyboardKept(ports, labels, inputs, inputIds, byId);
    BoundFacts(ports, labels, inputs, inputIds, byId);
  }

  lemma NothingTabulated()
    ensures Tabulated([], map[], map[]) && DistinctIds([])
  {
    assert Labelled([], []) && Bound([], [], map[], map[], map[]);
  }

  lemma TabulatedByLabels(ports: seq<Port>, inputs: map<string, Port>, inputIds: map<string, string>)
    requires Tabulated(ports, inputs, inputIds)
    ensures exists byId :: Bound(ports, Labels(ports), inputs, inputIds, byId)
    ensures Distinct(Labels(ports))
  {
    hide Labelled, Labels, Bound, Distinct;
    var labels, byId :| Labelled(ports, labels) && Bound(ports, labels, inputs, inputIds, byId);
    LabelsFit(ports);
    LabelsDetermined(ports, labels, Labels(ports));
    LabelsDistinct(ports, labels);
  }

  lemma TabulatedName(ports: seq<Port>, inputs: map<string, Port>, inputIds: map<string, string>, name: string)
    requires Tabulated(ports, inputs, inputIds)
    ensures name in inputs <==> name in Labels(ports)
  {
    hide Labels, Tabulated;
    TabulatedByLabels(ports, inputs, inputIds);
  }

  /** A name leads to the port with an id exactly when it is that port's label. */
  lemma TabulatedLabel(ports: seq<Port>, inputs: map<string, Port>, inputIds: map<string, string>, name: string, id: string)
    requires Tabulated(ports, inputs, inputIds) && DistinctIds(ports)
    ensures name in inputs && inputs[name].id == id <==> LabelOf(ports, id) == Some(name)
    ensures name in inputs && inputs[name].id == id ==> PortWith(ports, id) == Some(inputs[name])
  {
    hide Labels, Tabulated, BoundAt, Bound, LabelOf;
    TabulatedByLabels(ports, inputs, inputIds);
    var byId :| Bound(ports, Labels(ports), inputs, inputIds, byId);
    LookupById(ports, Labels(ports), inputs, inputIds, byId, id);
    BoundLabel(ports, inputs, inputIds, byId, name);
    if HasId(ports, id) {
      LabelOfBound(ports, inputs, inputIds, byId, id);
    }
  }

  /** The label of the port under a name is that name. */
  lemma BoundLabel(ports: seq<Port>, inputs: map<string, Port>, inputIds: map<string, string>, byId: map<string, string>,
                   name: string)
    requires DistinctIds(ports) && Bound(ports, Labels(ports), inputs, inputIds, byId)
    ensures name in inputs ==> HasId(ports, inputs[name].id) && LabelOf(ports, inputs[name].id) == Some(name)
  {
    hide Labels, LabelOf, DistinctIds;
    if name in inputs {
      var j :| 0 <= j < |ports| && Labels(ports)[j] == name;
      assert BoundAt(ports[j], name, inputs, inputIds, byId);
      LabelOfAt(ports, j);
    }
  }

  /** The port with an id is under its label. */
  lemma LabelOfBound(ports: seq<Port>, inputs: map<string, Port>, inputIds: map<string, string>, byId: map<string, string>,
                     id: string)
    requires DistinctIds(ports) && Bound(ports, Labels(ports), inputs, inputIds, byId) && HasId(ports, id)
    ensures LabelOf(ports, id).Some? && LabelOf(ports, id).value in inputs
    ensures inputs[LabelOf(ports, id).value].id == id
    ensures PortWith(ports, id) == Some(inputs[LabelOf(ports, id).value])
  {
    hide Labels, LabelOf, DistinctIds, PortWith;
    var j :| 0 <= j < |ports| && ports[j].id == id;
    assert BoundAt(ports[j], Labels(ports)[j], inputs, inputIds, byId);
    LabelOfAt(ports, j);
    PortAt(ports, j);
  }

  lemma PortAt(ports: seq<Port>, j: nat)
    requires DistinctIds(ports) && j < |ports|
    ensures PortWith(ports, ports[j].id) == Some(ports[j])
  {
    assert HasId(ports, ports[j].id);
  }

  lemma {:induction false} SilenceLasts(before: Notes, after: Notes, events: seq<Meanwhile>)
    requires Silences(before, after)
    ensures Silences(before, NotesMeanwhile(after, events))
  {
    if events != [] {
      SilenceLasts(before, after, events[..|events| - 1]);
    }
  }

  /** No two ports share a label. */
  lemma LabelOfOnePort(ports: seq<Port>, i: nat, id: string)
    requires DistinctIds(ports) && i < |ports| && LabelOf(ports, id) == Some(Labels(ports)[i])
    ensures id == ports[i].id
  {
    hide Labels, LabelOf, Labelled, DistinctIds;
    LabelsFit(ports);
    LabelsDistinct(ports, Labels(ports));
    var j :| 0 <= j < |ports| && ports[j].id == id;
    LabelOfAt(ports, j);
  }

  lemma PadsMeanwhile(a: Port, b: Port, c: Port)
    requires DistinctIds([a, b, c])
    ensures DistinctIds([b, c]) && AllDistinct([]) && AllDistinct([PortsChanged([b, c]), Rebuilt])
    ensures Elapsed([a, b, c], [a, b, c], [PortsChanged([b, c]), Rebuilt]).1 == [b, c]
  {
    var events := [PortsChanged([b, c]), Rebuilt];
    assert [a, b, c][1].id != [a, b, c][2].id;
    assert events[..1] == [PortsChanged([b, c])] && events[..1][..0] == [];
    assert Elapsed([a, b, c], [a, b, c], events[..1]) == ([b, c], [a, b, c]);
  }

  /** The chosen port can be lost: of three ports of one name the first is selected, then
      the second; while the first is closing it is unplugged, and everything is relabelled.
      The selection then carries the second port's id with the third port's handler. */
  method LosesChosenPort(a: Port, b: Port, c: Port) returns (client: BrowserMidiInputs)
    requires a.name == b.name == c.name == "Pad" && DistinctIds([a, b, c])
    ensures fresh(client) && client.Valid() && !client.Synced()
    ensures client.currentId == Some(b.id) && client.CurrentPort() == Some(c) && client.handlers == {c.handle}
  {
    PadLabels(a, b, c);
    PadsMeanwhile(a, b, c);
    hide Labels, LabelOf, PortWith, Elapsed, AllDistinct, NotesMeanwhile, After, Silences, HasId, DistinctIds, Tabulated;
    client := new BrowserMidiInputs();
    var labels := ["Pad", "Pad (2)", "Pad (3)"];
    assert labels[0] in labels && labels[1] in labels && [a, b, c][0] == a;
    var first := client.Select("Pad", Some([a, b, c]), []);
    LabelOfOnePort([a, b, c], 0, client.currentId.value);
    PortAt([a, b, c], 0);
    assert [a, b, c][0].id != [a, b, c][1].id;
    var second := client.Select("Pad (2)", None, [PortsChanged([b, c]), Rebuilt]);
    assert [a, b, c][1] == b;
    LabelOfOnePort([a, b, c], 1, client.currentId.value);
    assert client.shown == [b, c];
    TabulatedLabel([b, c], client.inputs, client.inputIds, "Pad (2)", c.id);
    assert [b, c][1] == c;
    PortAt([b, c], 1);
  }

  lemma BoundFacts(ports: seq<Port>, labels: seq<string>, inputs: map<string, Port>, inputIds: map<string, string>,
                   byId: map<string, string>)
    requires Bound(ports, labels, inputs, inputIds, byId)
    ensures inputs.Keys == inputIds.Keys
    ensures forall name <- inputs :: inputs[name].id == inputIds[name] && inputs[name] in ports
  {
    hide BoundAt;
    forall name | name in inputs
      ensures name in inputIds && inputs[name].id == inputIds[name] && inputs[name] in ports
    {
      var j :| 0 <= j < |labels| && labels[j] == name;
      BoundName(ports[j], name, inputs, inputIds, byId);
    }
  }

  lemma BoundName(port: Port, name: string, inputs: map<string, Port>, inputIds: map<string, string>, byId: map<string, string>)
    requires BoundAt(port, name, inputs, inputIds, byId)
    ensures name in inputs && name in inputIds && inputs[name] == port && inputIds[name] == port.id
  {
  }

  /** Releasing when no note is on changes nothing, so releasing twice is releasing once. */
  lemma ReleaseTwice(notes: Notes)
    ensures After(After(notes, Release), Release) == After(notes, Release)
    ensures notes.active == [] ==> After(notes, Release) == notes
  {
    assert forall events: seq<Event> :: events + [] == events;
  }

  /** Looking a port up by id finds the port with that id under its label. */
  lemma LookupById(ports: seq<Port>, labels: seq<string>, inputs: map<string, Port>, inputIds: map<string, string>,
                   byId: map<string, string>, id: string)
    requires DistinctIds(ports) && Bound(ports, labels, inputs, inputIds, byId)
    ensures id in byId <==> HasId(ports, id)
    ensures id in byId ==>
      && byId[id] in inputs && byId[id] in inputIds
      && inputIds[byId[id]] == id && Some(inputs[byId[id]]) == PortWith(ports, id)
  {
    if HasId(ports, id) {
      var j :| 0 <= j < |ports| && ports[j].id == id;
      assert BoundAt(ports[j], labels[j], inputs, inputIds, byId);
      var found := PortWith(ports, id).value;
      var k :| 0 <= k < |ports| && ports[k] == found;
    }
  }
}
