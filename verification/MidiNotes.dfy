/** MIDI messages, the host events they become, and the notes those events keep sounding. */
module MidiNotes {
  import opened Wrappers

  type Byte = n: int | 0 <= n < 256

  /** The host events a browser port can raise; levels and positions are fractions. */
  datatype Event =
    | NoteOff(channel: int, key: int, velocity: real)
    | NoteOn(channel: int, key: int, velocity: real)
    | PolyPressure(channel: int, key: int, pressure: real)
    | Cc(channel: int, controller: int, level: real)
    | ProgramChange(channel: int, program: int)
    | ChannelPressure(channel: int, pressure: real)
    | PitchBend(channel: int, position: real)
  {
    function Name(): string {
      match this
      case NoteOff(_, _, _) => "note_off"
      case NoteOn(_, _, _) => "note_on"
      case PolyPressure(_, _, _) => "poly_pressure"
      case Cc(_, _, _) => "cc"
      case ProgramChange(_, _) => "program_change"
      case ChannelPressure(_, _) => "channel_pressure"
      case PitchBend(_, _) => "pitch_bend"
    }
  }

  /** A data byte: present and below 128. */
  function DataByte(data: seq<Byte>, index: nat): Option<int> {
    if index < |data| && data[index] < 0x80 then Some(data[index]) else None
  }

  function BendPosition(value: int): real {
    if value <= 8192 then value as real / 16384.0 else 0.5 + (value - 8192) as real / 16382.0
  }

  /** `parseMidiMessage`: the channel voice messages, by status nibble. */
  function Parse(data: seq<Byte>): Option<Event> {
    if |data| < 1 || data[0] < 0x80 || data[0] >= 0xF0 then None
    else
      var kind, channel := data[0] / 16, data[0] % 16;
      match (DataByte(data, 1), DataByte(data, 2))
      case (None, _) => None
      case (Some(first), second) =>
        if kind == 0xC then Some(ProgramChange(channel, first))
        else if kind == 0xD then Some(ChannelPressure(channel, first as real / 127.0))
        else match second
          case None => None
          case Some(second) =>
            if kind == 0x8 then Some(NoteOff(channel, first, second as real / 127.0))
            else if kind == 0x9 then
              if second == 0 then Some(NoteOff(channel, first, 0.0))
              else Some(NoteOn(channel, first, second as real / 127.0))
            else if kind == 0xA then Some(PolyPressure(channel, first, second as real / 127.0))
            else if kind == 0xB then Some(Cc(channel, first, second as real / 127.0))
            else Some(PitchBend(channel, BendPosition(first + 128 * second)))
  }

  /** Pitch bend is strictly increasing over all 14-bit values, from zero over one half
      at the centre to one. */
  lemma BendIncreases(a: int, b: int)
    requires 0 <= a < b < 0x4000
    ensures 0.0 <= BendPosition(a) < BendPosition(b) <= 1.0
    ensures BendPosition(0) == 0.0 && BendPosition(8192) == 0.5 && BendPosition(0x3FFF) == 1.0
  {
  }

  // ------------------------------------------------------------ notes

  type Note = (int, int)

  /** What an event does to the notes that are sounding. */
  function Heard(before: set<Note>, event: Event): set<Note> {
    match event
    case NoteOn(channel, key, _) => before + {(channel, key)}
    case NoteOff(channel, key, _) => before - {(channel, key)}
    case _ => before
  }

  /** The notes left sounding by a series of events. */
  function Sounding(events: seq<Event>): set<Note> {
    if events == [] then {} else Heard(Sounding(events[..|events| - 1]), events[|events| - 1])
  }

  /** The declared event names, the notes believed to be on, in the order they were
      first pressed, and the events handed to the host. */
  datatype Notes = Notes(declared: set<string>, active: seq<Note>, dispatched: seq<Event>) {
    function Active(): set<Note> { set n | n in active }

    /** What the host hears sounding is exactly what is believed to be on. */
    predicate InStep() { Sounding(dispatched) == Active() }
  }

  function WithNote(active: seq<Note>, note: Note): (r: seq<Note>)
    ensures note in r && forall n :: n in r <==> n in active || n == note
  {
    if note in active then active else active + [note]
  }

  function WithoutNote(active: seq<Note>, note: Note): (r: seq<Note>)
    ensures forall n :: n in r <==> n in active && n != note
  {
    if active == [] then []
    else if active[0] == note then WithoutNote(active[1..], note)
    else [active[0]] + WithoutNote(active[1..], note)
  }

  /** A message from the connected port: undeclared events are dropped whole. */
  function AfterMessage(notes: Notes, data: seq<Byte>): Notes {
    match Parse(data)
    case None => notes
    case Some(event) =>
      if event.Name() !in notes.declared then notes
      else notes.(active := Held(notes.active, event), dispatched := notes.dispatched + [event])
  }

  function Held(active: seq<Note>, event: Event): seq<Note> {
    match event
    case NoteOn(channel, key, _) => WithNote(active, (channel, key))
    case NoteOff(channel, key, _) => WithoutNote(active, (channel, key))
    case _ => active
  }

  function Releases(active: seq<Note>): seq<Event> {
    if active == [] then []
    else Releases(active[..|active| - 1]) + [NoteOff(active[|active| - 1].0, active[|active| - 1].1, 0.0)]
  }

  /** Releasing: a note-off for every active note, if the program declared note-offs. */
  function AfterRelease(notes: Notes): Notes {
    notes.(active := [],
      dispatched := notes.dispatched + if "note_off" in notes.declared then Releases(notes.active) else [])
  }

  lemma SoundingStep(events: seq<Event>, event: Event)
    ensures Sounding(events + [event]) == Heard(Sounding(events), event)
  {
    assert (events + [event])[..|events|] == events;
  }

  lemma {:induction false} SoundingAfterReleases(events: seq<Event>, active: seq<Note>)
    ensures Sounding(events + Releases(active)) == Sounding(events) - set n | n in active
  {
    if active == [] {
      assert events + Releases(active) == events;
    } else {
      var before, last := active[..|active| - 1], active[|active| - 1];
      SoundingAfterReleases(events, before);
      var off := NoteOff(last.0, last.1, 0.0);
      assert events + Releases(active) == events + Releases(before) + [off];
      SoundingStep(events + Releases(before), off);
      assert forall n :: n in active <==> n in before || n == last;
    }
  }

  /** Messages keep the host in step, whatever is declared. */
  lemma MessageKeepsInStep(notes: Notes, data: seq<Byte>)
    requires notes.InStep()
    ensures AfterMessage(notes, data).InStep()
  {
    hide Parse;
    if Parse(data).Some? {
      SoundingStep(notes.dispatched, Parse(data).value);
    }
  }

  /** Releasing silences the host exactly when note-offs are declared or no note is on. */
  lemma ReleaseKeepsInStepIff(notes: Notes)
    requires notes.InStep()
    ensures AfterRelease(notes).InStep() <==> "note_off" in notes.declared || notes.active == []
    ensures AfterRelease(notes).InStep() ==> Sounding(AfterRelease(notes).dispatched) == {}
  {
    SoundingAfterReleases(notes.dispatched, notes.active);
    assert notes.dispatched + [] == notes.dispatched;
    if notes.active != [] {
      assert notes.active[0] in notes.Active();
    }
  }

  /** The host stays in step, if it was and note-offs were declared. */
  ghost predicate StaysInStep(before: Notes, after: Notes) {
    before.InStep() && "note_off" in before.declared ==> after.InStep()
  }

  /** Nothing sounds any more, if the host was in step and note-offs were declared. */
  ghost predicate Silences(before: Notes, after: Notes) {
    before.InStep() && "note_off" in before.declared ==> after.InStep() && Sounding(after.dispatched) == {}
  }

  lemma StepsAndSilence(notes: Notes)
    ensures forall data :: StaysInStep(notes, After(notes, Message(data)))
    ensures forall names :: StaysInStep(notes, After(notes, Declare(names)))
    ensures StaysInStep(notes, notes)
    ensures Silences(notes, After(notes, Release)) && StaysInStep(notes, After(notes, Release))
    ensures notes.active == [] ==> Silences(notes, notes)
  {
    hide AfterMessage, AfterRelease, Sounding;
    if notes.InStep() {
      forall data ensures StaysInStep(notes, After(notes, Message(data))) {
        MessageKeepsInStep(notes, data);
      }
      ReleaseKeepsInStepIff(notes);
    }
  }

  // ------------------------------------------------------------ whole runs

  datatype Step = Message(data: seq<Byte>) | Release | Declare(names: set<string>)

  function After(notes: Notes, step: Step): Notes {
    match step
    case Message(data) => AfterMessage(notes, data)
    case Release => AfterRelease(notes)
    case Declare(names) => notes.(declared := names)
  }

  function Run(notes: Notes, steps: seq<Step>): Notes {
    if steps == [] then notes else After(Run(notes, steps[..|steps| - 1]), steps[|steps| - 1])
  }

  /** Whenever notes are released while some are on, note-offs are declared. */
  predicate ReleasesHeard(notes: Notes, steps: seq<Step>) {
    forall k :: 0 <= k < |steps| && steps[k].Release? ==>
      var before := Run(notes, steps[..k]);
      before.active == [] || "note_off" in before.declared
  }

  /** No stuck notes: over any run of messages, declarations and releases in which
      releases are heard, the host hears sounding exactly the active notes. */
  lemma {:induction false} NoStuckNotes(notes: Notes, steps: seq<Step>)
    requires notes.InStep() && ReleasesHeard(notes, steps)
    ensures Run(notes, steps).InStep()
    ensures steps != [] && steps[|steps| - 1].Release? ==> Sounding(Run(notes, steps).dispatched) == {}
  {
    hide Notes.InStep, AfterMessage, AfterRelease;
    if steps != [] {
      var before := steps[..|steps| - 1];
      assert forall k :: 0 <= k < |before| ==> before[..k] == steps[..k];
      NoStuckNotes(notes, before);
      match steps[|steps| - 1]
      case Message(data) => MessageKeepsInStep(Run(notes, before), data);
      case Release => ReleaseKeepsInStepIff(Run(notes, before));
      case Declare(names) => DeclareKeepsInStep(Run(notes, before), names);
    }
  }

  lemma DeclareKeepsInStep(notes: Notes, names: set<string>)
    requires notes.InStep()
    ensures notes.(declared := names).InStep()
  {
  }

  /** A note that sticks: switching away after the program stopped declaring note-offs. */
  lemma StuckNote()
    ensures var steps := [Message([0x90, 60, 1]), Declare({}), Release];
      var after := Run(Notes({"note_on", "note_off"}, [], []), steps);
      after.active == [] && Sounding(after.dispatched) == {(0, 60)}
  {
    var start := Notes({"note_on", "note_off"}, [], []);
    var steps := [Message([0x90, 60, 1]), Declare({}), Release];
    var on := NoteOn(0, 60, 1.0 / 127.0);
    assert Parse([0x90, 60, 1]) == Some(on);
    assert steps[..2] == [steps[0], steps[1]] && steps[..2][..1] == [steps[0]] && [steps[0]][..0] == [];
    assert [] + [on] == [on];
    SoundingStep([], on);
    assert Run(start, [steps[0]]) == Notes({"note_on", "note_off"}, [(0, 60)], [on]);
    assert Run(start, steps[..2]) == Notes({}, [(0, 60)], [on]);
  }

  // ------------------------------------------------------------ the messages, byte by byte

  /** The channel voice messages of three bytes; bytes that follow do not matter. */
  lemma ThreeByteMessages(channel: int, first: int, second: int, rest: seq<Byte>)
    requires 0 <= channel < 16 && 0 <= first < 128 && 0 <= second < 128
    ensures Parse([0x80 + channel, first, second] + rest) == Some(NoteOff(channel, first, second as real / 127.0))
    ensures Parse([0x90 + channel, first, second] + rest) ==
      Some(if second == 0 then NoteOff(channel, first, 0.0) else NoteOn(channel, first, second as real / 127.0))
    ensures Parse([0xA0 + channel, first, second] + rest) == Some(PolyPressure(channel, first, second as real / 127.0))
    ensures Parse([0xB0 + channel, first, second] + rest) == Some(Cc(channel, first, second as real / 127.0))
    ensures Parse([0xE0 + channel, first, second] + rest) == Some(PitchBend(channel, BendPosition(first + 128 * second)))
  {
    hide BendPosition;
    var kinds := [0x80, 0x90, 0xA0, 0xB0, 0xE0];
    forall kind | kind in kinds
      ensures (kind + channel) / 16 == kind / 16 && (kind + channel) % 16 == channel
    {
    }
  }

  /** The channel voice messages of two bytes. */
  lemma TwoByteMessages(channel: int, first: int, rest: seq<Byte>)
    requires 0 <= channel < 16 && 0 <= first < 128
    ensures Parse([0xC0 + channel, first] + rest) == Some(ProgramChange(channel, first))
    ensures Parse([0xD0 + channel, first] + rest) == Some(ChannelPressure(channel, first as real / 127.0))
  {
  }

  /** What is no channel voice message: an empty one, no status byte or a system one, and
      a missing or out-of-range data byte. */
  lemma RefusedMessages(data: seq<Byte>)
    ensures Parse(data).None? <==>
      || |data| < 2 || data[0] < 0x80 || data[0] >= 0xF0 || data[1] >= 0x80
      || (!(0xC0 <= data[0] < 0xE0) && (|data| < 3 || data[2] >= 0x80))
  {
  }

  /** Pressing a key whose note-on is declared makes it sound, letting it go silences it,
      and what is not declared changes nothing. */
  lemma KeysAreHeard(notes: Notes, channel: int, key: int, velocity: int)
    requires 0 <= channel < 16 && 0 <= key < 128 && 0 < velocity < 128
    ensures var pressed := AfterMessage(notes, [0x90 + channel, key, velocity]);
      if "note_on" in notes.declared then
        && (channel, key) in pressed.active
        && Sounding(pressed.dispatched) == Sounding(notes.dispatched) + {(channel, key)}
      else pressed == notes
    ensures forall data :: data == [0x80 + channel, key, velocity] || data == [0x90 + channel, key, 0] ==>
      var released := AfterMessage(notes, data);
      if "note_off" in notes.declared then
        && (channel, key) !in released.active
        && Sounding(released.dispatched) == Sounding(notes.dispatched) - {(channel, key)}
      else released == notes
  {
    hide Parse, Sounding;
    ThreeByteMessages(channel, key, velocity, []);
    ThreeByteMessages(channel, key, 0, []);
    assert [0x90 + channel, key, velocity] + [] == [0x90 + channel, key, velocity];
    assert [0x80 + channel, key, velocity] + [] == [0x80 + channel, key, velocity];
    assert [0x90 + channel, key, 0] + [] == [0x90 + channel, key, 0];
    SoundingStep(notes.dispatched, NoteOn(channel, key, velocity as real / 127.0));
    SoundingStep(notes.dispatched, NoteOff(channel, key, velocity as real / 127.0));
    SoundingStep(notes.dispatched, NoteOff(channel, key, 0.0));
  }

  /** Which declared name lets a message through. */
  lemma DispatchedIffDeclared(notes: Notes, data: seq<Byte>)
    requires Parse(data).Some?
    ensures var event := Parse(data).value;
      var name := if event.NoteOff? then "note_off" else if event.NoteOn? then "note_on"
        else if event.PolyPressure? then "poly_pressure" else if event.Cc? then "cc"
        else if event.ProgramChange? then "program_change" else if event.ChannelPressure? then "channel_pressure"
        else "pitch_bend";
      AfterMessage(notes, data).dispatched == notes.dispatched + (if name in notes.declared then [event] else [])
  {
    hide Parse;
    assert notes.dispatched + [] == notes.dispatched;
  }

  function Press(channel: int, key: Byte, velocity: int): Step
    requires 0 <= channel < 16 && key < 128 && 0 < velocity < 128
  {
    Message([0x90 + channel, key, velocity])
  }

  function Presses(channel: int, keys: seq<Byte>, velocity: int): seq<Step>
    requires 0 <= channel < 16 && 0 < velocity < 128 && forall i :: 0 <= i < |keys| ==> keys[i] < 128
  {
    seq(|keys|, i requires 0 <= i < |keys| => Press(channel, keys[i], velocity))
  }

  predicate NoneTwice(keys: seq<Byte>) {
    forall i, j :: 0 <= i < j < |keys| ==> keys[i] != keys[j]
  }

  /** A key that was not on becomes the last active note. */
  lemma PressedLast(notes: Notes, channel: int, key: Byte, velocity: int)
    requires 0 <= channel < 16 && key < 128 && 0 < velocity < 128
    requires (channel, key as int) !in notes.active && "note_on" in notes.declared
    ensures var after := After(notes, Press(channel, key, velocity));
      after.declared == notes.declared && after.active == notes.active + [(channel, key as int)]
  {
    hide Parse;
    ThreeByteMessages(channel, key, velocity, []);
    assert [0x90 + channel, key, velocity] + [] == [0x90 + channel, key, velocity];
  }

  /** Notes are remembered, and let go, in the order they were pressed. */
  lemma {:induction false} PressedInOrder(notes: Notes, channel: int, keys: seq<Byte>, velocity: int)
    requires 0 <= channel < 16 && 0 < velocity < 128 && forall i :: 0 <= i < |keys| ==> keys[i] < 128
    requires NoneTwice(keys) && notes.active == [] && "note_on" in notes.declared
    ensures var after := Run(notes, Presses(channel, keys, velocity));
      && after.declared == notes.declared && |after.active| == |keys|
      && forall i :: 0 <= i < |keys| ==> after.active[i] == (channel, keys[i] as int)
  {
    hide After, Press;
    if keys != [] {
      var n := |keys| - 1;
      PressedInOrder(notes, channel, keys[..n], velocity);
      assert Presses(channel, keys, velocity)[..n] == Presses(channel, keys[..n], velocity);
      PressedLast(Run(notes, Presses(channel, keys[..n], velocity)), channel, keys[n], velocity);
    }
  }

  /** Releasing lets the active notes go one by one, in order. */
  lemma {:induction false} ReleasedInOrder(active: seq<Note>)
    ensures |Releases(active)| == |active|
    ensures forall i :: 0 <= i < |active| ==> Releases(active)[i] == NoteOff(active[i].0, active[i].1, 0.0)
  {
    if active != [] {
      ReleasedInOrder(active[..|active| - 1]);
    }
  }
}
