/** Menu labels for MIDI ports: distinct, whatever the ports call themselves. */
module MidiLabels {
  import opened Wrappers

  const KEYBOARD := "Computer Keyboard"

  /** An input port. `handle` identifies the port object, `id` the port: a port that is
      unplugged and plugged in again may come back as another object. */
  datatype Port = Port(id: string, name: string, manufacturer: string, handle: nat)

  function Decimal(n: nat): string {
    if n < 10 then [Digit(n)] else Decimal(n / 10) + [Digit(n % 10)]
  }

  function Digit(d: nat): char
    requires d < 10
  {
    "0123456789"[d]
  }

  lemma {:induction false} DecimalInjective(m: nat, n: nat)
    requires Decimal(m) == Decimal(n)
    ensures m == n
  {
    DecimalParts(m);
    DecimalParts(n);
    if m >= 10 && n >= 10 {
      assert Decimal(m)[..|Decimal(m)| - 1] == Decimal(n)[..|Decimal(n)| - 1];
      DecimalInjective(m / 10, n / 10);
    }
  }

  lemma DecimalParts(n: nat)
    ensures |Decimal(n)| >= 1 && Decimal(n)[|Decimal(n)| - 1] == Digit(n % 10)
    ensures n >= 10 ==> |Decimal(n)| >= 2 && Decimal(n)[..|Decimal(n)| - 1] == Decimal(n / 10)
    ensures n < 10 ==> |Decimal(n)| == 1
    ensures forall d: nat, e: nat :: d < 10 && e < 10 && Digit(d) == Digit(e) ==> d == e
  {
    if n >= 10 {
      assert |Decimal(n / 10)| >= 1;
    }
  }

  function Base(port: Port): string {
    if port.name != "" then port.name
    else if port.manufacturer != "" then port.manufacturer
    else "MIDI Input"
  }

  function Bracketed(name: string, suffix: nat): string {
    name + " [" + Decimal(suffix) + "]"
  }

  lemma BracketedInjective(name: string, j: nat, k: nat)
    requires Bracketed(name, j) == Bracketed(name, k)
    ensures j == k
  {
    hide Decimal;
    var n := |name| + 2;
    assert Bracketed(name, j)[n..|Bracketed(name, j)| - 1] == Decimal(j);
    assert Bracketed(name, k)[n..|Bracketed(name, k)| - 1] == Decimal(k);
    DecimalInjective(j, k);
  }

  /** The bracketed names tried before a given suffix. */
  ghost function Tried(name: string, suffix: nat): set<string> {
    if suffix <= 2 then {} else Tried(name, suffix - 1) + {Bracketed(name, suffix - 1)}
  }

  lemma {:induction false} TriedNotYet(name: string, suffix: nat, k: nat)
    requires 2 <= suffix <= k
    ensures Bracketed(name, k) !in Tried(name, suffix)
  {
    hide Bracketed;
    if suffix > 2 {
      TriedNotYet(name, suffix - 1, k);
      if Bracketed(name, k) == Bracketed(name, suffix - 1) {
        BracketedInjective(name, k, suffix - 1);
      }
    }
  }

  lemma {:induction false} TriedSize(name: string, suffix: nat)
    requires suffix >= 2
    ensures |Tried(name, suffix)| == suffix - 2
  {
    if suffix > 2 {
      TriedSize(name, suffix - 1);
      TriedNotYet(name, suffix - 1, suffix - 1);
    }
  }

  lemma {:induction false} TriedAll(name: string, suffix: nat, k: nat)
    requires 2 <= k < suffix
    ensures Bracketed(name, k) in Tried(name, suffix)
  {
    if k < suffix - 1 {
      TriedAll(name, suffix - 1, k);
    }
  }

  /** The first bracketed name that is free. */
  predicate FirstFree(used: set<string>, name: string, suffix: nat) {
    && Bracketed(name, suffix) !in used
    && suffix >= 2
    && forall j :: 2 <= j < suffix ==> Bracketed(name, j) in used
  }

  lemma SubsetSize(a: set<string>, b: set<string>)
    requires a <= b
    ensures |a| <= |b|
  {
    assert b == a + (b - a);
  }

  /** The suffix search: it ends because every failed try is another used label. */
  method FreeName(used: set<string>, name: string) returns (free: string)
    ensures free !in used
    ensures name !in used ==> free == name
    ensures name in used ==>
      exists k: nat :: k <= |used| + 2 && free == Bracketed(name, k) && FirstFree(used, name, k)
  {
    hide Bracketed;
    if name !in used {
      return name;
    }
    var suffix := 2;
    while Bracketed(name, suffix) in used
      invariant suffix >= 2 && Tried(name, suffix) <= used
      decreases |used| + 2 - suffix
    {
      TriedSize(name, suffix + 1);
      SubsetSize(Tried(name, suffix + 1), used);
      suffix := suffix + 1;
    }
    TriedSize(name, suffix);
    SubsetSize(Tried(name, suffix), used);
    forall j | 2 <= j < suffix ensures Bracketed(name, j) in used {
      TriedAll(name, suffix, j);
    }
    return Bracketed(name, suffix);
  }

  // ------------------------------------------------------------ labelling a list of ports

  /** How many ports fall back on a given name; the keyboard counts as one. */
  function Occurrences(ports: seq<Port>, base: string): nat {
    if ports == [] then (if base == KEYBOARD then 1 else 0)
    else Occurrences(ports[..|ports| - 1], base) + if Base(ports[|ports| - 1]) == base then 1 else 0
  }

  /** The label a port asks for: its name, numbered from the second port of that name on. */
  function Proposed(before: seq<Port>, port: Port): string {
    var occurrence := Occurrences(before, Base(port)) + 1;
    if occurrence == 1 then Base(port) else Base(port) + " (" + Decimal(occurrence) + ")"
  }

  function Used(labels: seq<string>): set<string> {
    {KEYBOARD} + set l | l in labels
  }

  /** A port gets the label it asks for, or the first free bracketed variant of it. */
  ghost predicate Fits(used: set<string>, proposed: string, given: string) {
    if proposed !in used then given == proposed
    else exists k: nat :: given == Bracketed(proposed, k) && FirstFree(used, proposed, k)
  }

  ghost predicate Labelled(ports: seq<Port>, labels: seq<string>) {
    && |labels| == |ports|
    && forall i :: 0 <= i < |ports| ==> FitsAt(ports, labels, i)
  }

  ghost predicate FitsAt(ports: seq<Port>, labels: seq<string>, i: nat)
    requires i < |ports| == |labels|
  {
    Fits(Used(labels[..i]), Proposed(ports[..i], ports[i]), labels[i])
  }

  predicate Distinct<T(==)>(s: seq<T>) {
    forall i, j :: 0 <= i < j < |s| ==> s[i] != s[j]
  }

  lemma FitsIsFree(used: set<string>, proposed: string, given: string)
    requires Fits(used, proposed, given)
    ensures given !in used && proposed <= given
  {
  }

  /** All labels differ from one another and from the keyboard's, and each begins with
      its port's own name: also for equal names and for names that look like labels. */
  lemma LabelsDistinct(ports: seq<Port>, labels: seq<string>)
    requires Labelled(ports, labels)
    ensures Distinct(labels) && KEYBOARD !in labels
    ensures forall i :: 0 <= i < |ports| ==> Base(ports[i]) <= labels[i]
  {
    hide Fits, Occurrences, Decimal, Base;
    forall j | 0 <= j < |labels|
      ensures labels[j] !in Used(labels[..j]) && Base(ports[j]) <= labels[j]
    {
      assert FitsAt(ports, labels, j);
      FitsIsFree(Used(labels[..j]), Proposed(ports[..j], ports[j]), labels[j]);
    }
    forall i, j | 0 <= i < j < |labels| ensures labels[i] != labels[j] {
      assert labels[..j][i] == labels[i];
    }
  }

  /** The labels follow from the ports and their order alone. */
  lemma {:induction false} LabelsDetermined(ports: seq<Port>, a: seq<string>, b: seq<string>)
    requires Labelled(ports, a) && Labelled(ports, b)
    ensures a == b
  {
    hide Fits, Proposed;
    if ports != [] {
      var n := |ports| - 1;
      PrefixLabelled(ports, a);
      PrefixLabelled(ports, b);
      LabelsDetermined(ports[..n], a[..n], b[..n]);
      assert FitsAt(ports, a, n) && FitsAt(ports, b, n);
      FitsUnique(Used(a[..n]), Proposed(ports[..n], ports[n]), a[n], b[n]);
      assert a == a[..n] + [a[n]] && b == b[..n] + [b[n]];
    }
  }

  lemma PrefixLabelled(ports: seq<Port>, labels: seq<string>)
    requires Labelled(ports, labels) && ports != []
    ensures Labelled(ports[..|ports| - 1], labels[..|ports| - 1])
  {
    hide Fits, Proposed;
    var n := |ports| - 1;
    forall i | 0 <= i < n ensures FitsAt(ports[..n], labels[..n], i) {
      assert FitsAt(ports, labels, i);
      assert ports[..n][..i] == ports[..i] && labels[..n][..i] == labels[..i];
    }
  }

  lemma LabelledStep(ports: seq<Port>, labels: seq<string>, port: Port, given: string)
    requires Labelled(ports, labels) && Fits(Used(labels), Proposed(ports, port), given)
    ensures Labelled(ports + [port], labels + [given])
  {
    hide Fits, Proposed;
    var more, longer := ports + [port], labels + [given];
    forall i | 0 <= i < |more| ensures FitsAt(more, longer, i) {
      if i < |ports| {
        assert FitsAt(ports, labels, i);
        assert more[..i] == ports[..i] && longer[..i] == labels[..i];
      } else {
        assert more[..i] == ports && longer[..i] == labels;
      }
    }
  }

  lemma FitsUnique(used: set<string>, proposed: string, a: string, b: string)
    requires Fits(used, proposed, a) && Fits(used, proposed, b)
    ensures a == b
  {
    hide Bracketed;
    if proposed in used {
      var j: nat :| a == Bracketed(proposed, j) && FirstFree(used, proposed, j);
      var k: nat :| b == Bracketed(proposed, k) && FirstFree(used, proposed, k);
      assert j == k;
    }
  }

  // ------------------------------------------------------------ labels as a function

  lemma {:induction false} SomeSuffixFree(used: set<string>, name: string, suffix: nat)
    requires suffix >= 2 && forall j :: 2 <= j < suffix ==> Bracketed(name, j) in used
    ensures exists k: nat :: FirstFree(used, name, k)
    decreases |used| + 2 - suffix
  {
    hide Bracketed;
    forall s | s in Tried(name, suffix) ensures s in used {
      TriedOnly(name, suffix, s);
    }
    TriedSize(name, suffix);
    SubsetSize(Tried(name, suffix), used);
    if Bracketed(name, suffix) in used {
      TriedSize(name, suffix + 1);
      SubsetSize(Tried(name, suffix + 1), used);
      SomeSuffixFree(used, name, suffix + 1);
    } else {
      assert FirstFree(used, name, suffix);
    }
  }

  lemma {:induction false} TriedOnly(name: string, suffix: nat, s: string)
    requires s in Tried(name, suffix)
    ensures exists j :: 2 <= j < suffix && s == Bracketed(name, j)
  {
    hide Bracketed;
    if s != Bracketed(name, suffix - 1) {
      TriedOnly(name, suffix - 1, s);
    }
  }

  ghost function GivenLabel(used: set<string>, proposed: string): (given: string)
    ensures Fits(used, proposed, given)
  {
    if proposed !in used then proposed
    else
      SomeSuffixFree(used, proposed, 2);
      var k: nat :| FirstFree(used, proposed, k);
      Bracketed(proposed, k)
  }

  /** The labels a list of ports is given. */
  ghost function Labels(ports: seq<Port>): (labels: seq<string>)
    ensures |labels| == |ports|
  {
    if ports == [] then []
    else
      var before, last := ports[..|ports| - 1], ports[|ports| - 1];
      Labels(before) + [GivenLabel(Used(Labels(before)), Proposed(before, last))]
  }

  lemma {:induction false} LabelsFit(ports: seq<Port>)
    ensures Labelled(ports, Labels(ports))
  {
    hide Fits, Proposed;
    if ports != [] {
      var before, last := ports[..|ports| - 1], ports[|ports| - 1];
      LabelsFit(before);
      LabelledStep(before, Labels(before), last, GivenLabel(Used(Labels(before)), Proposed(before, last)));
      assert ports == before + [last];
    }
  }

  /** The label of the port with an id. */
  ghost function LabelOf(ports: seq<Port>, id: string): (r: Option<string>)
    ensures r.Some? <==> HasId(ports, id)
  {
    if HasId(ports, id) then
      var j :| 0 <= j < |ports| && ports[j].id == id;
      Some(Labels(ports)[j])
    else None
  }

  lemma LabelOfAt(ports: seq<Port>, j: nat)
    requires DistinctIds(ports) && j < |ports|
    ensures LabelOf(ports, ports[j].id) == Some(Labels(ports)[j])
  {
    hide Labels;
    assert HasId(ports, ports[j].id);
  }

  /** Three ports of one name, and what becomes of their labels when the first goes. */
  lemma PadLabels(a: Port, b: Port, c: Port)
    requires a.name == b.name == c.name == "Pad" && DistinctIds([a, b, c])
    ensures Labels([a, b, c]) == ["Pad", "Pad (2)", "Pad (3)"] && Labels([b, c]) == ["Pad", "Pad (2)"]
    ensures LabelOf([a, b, c], b.id) == Some("Pad (2)")
    ensures LabelOf([b, c], b.id) == Some("Pad") && LabelOf([b, c], c.id) == Some("Pad (2)")
  {
    PadsNumbered(a, b, c);
    PadsNumberedAgain(b, c);
    hide Labels, Labelled, LabelOf;
    LabelsFit([a, b, c]);
    LabelsDetermined([a, b, c], Labels([a, b, c]), ["Pad", "Pad (2)", "Pad (3)"]);
    LabelsFit([b, c]);
    LabelsDetermined([b, c], Labels([b, c]), ["Pad", "Pad (2)"]);
    assert [a, b, c][1] == b && [b, c][0] == b && [b, c][1] == c;
    assert [a, b, c][1].id != [a, b, c][2].id;
    LabelOfAt([a, b, c], 1);
    LabelOfAt([b, c], 0);
    LabelOfAt([b, c], 1);
  }

  lemma PadsNumbered(a: Port, b: Port, c: Port)
    requires a.name == b.name == c.name == "Pad"
    ensures Labelled([a, b, c], ["Pad", "Pad (2)", "Pad (3)"])
  {
    PadProposals(a, b, c);
    hide Proposed;
    var ports, labels := [a, b, c], ["Pad", "Pad (2)", "Pad (3)"];
    assert ports[..0] == [] && ports[..1] == [a] && ports[..2] == [a, b];
    assert labels[..0] == [] && labels[..1] == ["Pad"] && labels[..2] == ["Pad", "Pad (2)"];
    PadsApart();
    assert FitsAt(ports, labels, 0) && FitsAt(ports, labels, 1) && FitsAt(ports, labels, 2);
  }

  lemma PadsNumberedAgain(b: Port, c: Port)
    requires b.name == c.name == "Pad"
    ensures Labelled([b, c], ["Pad", "Pad (2)"])
  {
    PadProposals(b, c, c);
    hide Proposed;
    var ports, labels := [b, c], ["Pad", "Pad (2)"];
    assert ports[..0] == [] && ports[..1] == [b];
    assert labels[..0] == [] && labels[..1] == ["Pad"];
    PadsApart();
    assert FitsAt(ports, labels, 0) && FitsAt(ports, labels, 1);
  }

  lemma PadsApart()
    ensures "Pad" !in Used([]) && "Pad (2)" !in Used(["Pad"]) && "Pad (3)" !in Used(["Pad", "Pad (2)"])
  {
    assert |"Pad"| == 3 && |"Pad (2)"| == 7 && |"Pad (3)"| == 7 && |KEYBOARD| == 17;
    assert "Pad (2)"[5] == '2' && "Pad (3)"[5] == '3';
  }

  lemma PadProposals(a: Port, b: Port, c: Port)
    requires a.name == b.name == c.name == "Pad"
    ensures Proposed([], a) == "Pad" && Proposed([a], b) == "Pad (2)" && Proposed([a, b], c) == "Pad (3)"
  {
    assert |"Pad"| == 3 && |KEYBOARD| == 17;
    assert [a][..0] == [] && [a, b][..1] == [a];
    assert Occurrences([], "Pad") == 0;
    assert Occurrences([a], "Pad") == 1;
    assert Occurrences([a, b], "Pad") == 2;
    assert Decimal(2) == "2" && Decimal(3) == "3";
  }

  /** A number that is a name already in use gets a bracketed one behind it. */
  lemma TakenNumber(a: Port, b: Port, c: Port)
    requires a.name == c.name == "Pad" && b.name == "Pad (2)"
    ensures Labels([a, b, c]) == ["Pad", "Pad (2)", "Pad (2) [2]"]
  {
    var ports, labels := [a, b, c], ["Pad", "Pad (2)", "Pad (2) [2]"];
    TakenProposals(a, b, c);
    PadsApart();
    hide Proposed, Labels, Labelled;
    assert ports[..0] == [] && ports[..1] == [a] && ports[..2] == [a, b];
    assert labels[..0] == [] && labels[..1] == ["Pad"] && labels[..2] == ["Pad", "Pad (2)"];
    assert FitsAt(ports, labels, 0) && FitsAt(ports, labels, 1);
    assert FitsAt(ports, labels, 2) by { BracketFits(); }
    assert Labelled(ports, labels) by { LabelledThree(ports, labels); }
    LabelsFit(ports);
    LabelsDetermined(ports, Labels(ports), labels);
  }

  lemma LabelledThree(ports: seq<Port>, labels: seq<string>)
    requires |ports| == |labels| == 3 && FitsAt(ports, labels, 0) && FitsAt(ports, labels, 1) && FitsAt(ports, labels, 2)
    ensures Labelled(ports, labels)
  {
    hide FitsAt;
  }

  lemma BracketFits()
    ensures Fits(Used(["Pad", "Pad (2)"]), "Pad (2)", "Pad (2) [2]")
  {
    assert Decimal(2) == "2";
    assert Bracketed("Pad (2)", 2) == "Pad (2) [2]";
    assert |"Pad (2) [2]"| == 11 && |"Pad (2)"| == 7 && |"Pad"| == 3 && |KEYBOARD| == 17;
    assert "Pad (2)" in ["Pad", "Pad (2)"];
    assert FirstFree(Used(["Pad", "Pad (2)"]), "Pad (2)", 2);
  }

  lemma TakenProposals(a: Port, b: Port, c: Port)
    requires a.name == c.name == "Pad" && b.name == "Pad (2)"
    ensures Proposed([], a) == "Pad" && Proposed([a], b) == "Pad (2)" && Proposed([a, b], c) == "Pad (2)"
  {
    assert |"Pad"| == 3 && |"Pad (2)"| == 7 && |KEYBOARD| == 17;
    assert [a][..0] == [] && [a, b][..1] == [a];
    assert Occurrences([], "Pad") == 0 && Occurrences([], "Pad (2)") == 0;
    assert Occurrences([a], "Pad") == 1 && Occurrences([a], "Pad (2)") == 0;
    assert Occurrences([a, b], "Pad") == 1;
    assert Decimal(2) == "2";
  }

  /** A port called like the keyboard is numbered as the second of that name. */
  lemma KeyboardNamesake(a: Port)
    requires a.name == "Computer Keyboard"
    ensures Labels([a]) == ["Computer Keyboard (2)"]
  {
    assert [a][..0] == [] && Labels([]) == [];
    assert Occurrences([], "Computer Keyboard") == 1 && Decimal(2) == "2";
    assert Proposed([], a) == "Computer Keyboard (2)";
    assert |"Computer Keyboard (2)"| == 21 && |KEYBOARD| == 17;
    LabelsFit([a]);
    var given := Labels([a])[0];
    assert FitsAt([a], Labels([a]), 0);
    assert Labels([a])[..0] == [];
    assert given == "Computer Keyboard (2)";
    assert Labels([a]) == [given];
  }

  // ------------------------------------------------------------ the port tables

  /** The tables built for a labelled list of ports. */
  ghost predicate Bound(ports: seq<Port>, labels: seq<string>, inputs: map<string, Port>, inputIds: map<string, string>,
                  labelsById: map<string, string>)
  {
    && |labels| == |ports|
    && (forall l :: l in inputs <==> l in labels)
    && (forall l :: l in inputIds <==> l in labels)
    && (forall id :: id in labelsById ==> HasId(ports, id))
    && forall j :: 0 <= j < |ports| ==> BoundAt(ports[j], labels[j], inputs, inputIds, labelsById)
  }

  predicate BoundAt(port: Port, given: string, inputs: map<string, Port>, inputIds: map<string, string>,
                    labelsById: map<string, string>)
  {
    && given in inputs && inputs[given] == port
    && given in inputIds && inputIds[given] == port.id
    && port.id in labelsById && labelsById[port.id] == given
  }

  predicate HasId(ports: seq<Port>, id: string) {
    exists j :: 0 <= j < |ports| && ports[j].id == id
  }

  predicate DistinctIds(ports: seq<Port>) {
    forall i, j :: 0 <= i < j < |ports| ==> ports[i].id != ports[j].id
  }

  lemma BoundStep(ports: seq<Port>, labels: seq<string>, port: Port, given: string,
                  inputs: map<string, Port>, inputIds: map<string, string>, labelsById: map<string, string>)
    requires Bound(ports, labels, inputs, inputIds, labelsById)
    requires given !in labels && DistinctIds(ports + [port])
    ensures Bound(ports + [port], labels + [given],
                  inputs[given := port], inputIds[given := port.id], labelsById[port.id := given])
  {
    var more, longer := ports + [port], labels + [given];
    forall j | 0 <= j < |more|
      ensures BoundAt(more[j], longer[j], inputs[given := port], inputIds[given := port.id], labelsById[port.id := given])
    {
      if j < |ports| {
        assert BoundAt(ports[j], labels[j], inputs, inputIds, labelsById);
        assert labels[j] in labels;
        assert more[j].id != more[|ports|].id;
      }
    }
    forall id | HasId(ports, id) || id == port.id ensures HasId(more, id) {
      if HasId(ports, id) {
        var j :| 0 <= j < |ports| && ports[j].id == id;
        assert more[j].id == id;
      } else {
        assert more[|ports|].id == id;
      }
    }
  }

  function CountOf(names: map<string, nat>, base: string): nat {
    if base in names then names[base] else 0
  }

  ghost predicate Counts(names: map<string, nat>, ports: seq<Port>) {
    forall base :: CountOf(names, base) == Occurrences(ports, base)
  }

  lemma CountsStep(names: map<string, nat>, ports: seq<Port>, port: Port)
    requires Counts(names, ports)
    ensures Counts(names[Base(port) := CountOf(names, Base(port)) + 1], ports + [port])
  {
    hide Base;
    var more := ports + [port];
    assert more[..|more| - 1] == ports && more[|more| - 1] == port;
    var counted := names[Base(port) := CountOf(names, Base(port)) + 1];
    forall base ensures CountOf(counted, base) == Occurrences(more, base) {
      assert CountOf(names, base) == Occurrences(ports, base);
    }
  }

  /** What the labelling loop knows after some of the ports. */
  ghost predicate Built(before: seq<Port>, labels: seq<string>, names: map<string, nat>, used: set<string>,
                        inputs: map<string, Port>, inputIds: map<string, string>, labelsById: map<string, string>)
  {
    && Labelled(before, labels)
    && Bound(before, labels, inputs, inputIds, labelsById)
    && Counts(names, before)
    && used == Used(labels)
  }

  lemma BuiltStep(before: seq<Port>, labels: seq<string>, names: map<string, nat>, used: set<string>,
                  inputs: map<string, Port>, inputIds: map<string, string>, labelsById: map<string, string>,
                  port: Port, given: string)
    requires Built(before, labels, names, used, inputs, inputIds, labelsById)
    requires DistinctIds(before + [port]) && Fits(used, Proposed(before, port), given)
    ensures Built(before + [port], labels + [given], names[Base(port) := CountOf(names, Base(port)) + 1], used + {given},
                  inputs[given := port], inputIds[given := port.id], labelsById[port.id := given])
  {
    hide Labelled, Bound, Counts, Fits, Base, DistinctIds, Proposed, CountOf;
    FitsIsFree(used, Proposed(before, port), given);
    CountsStep(names, before, port);
    LabelledStep(before, labels, port, given);
    BoundStep(before, labels, port, given, inputs, inputIds, labelsById);
    assert forall l :: l in labels + [given] <==> l in labels || l == given;
  }

  lemma NoPorts(names: map<string, nat>)
    requires names == map[KEYBOARD := 1]
    ensures Built([], [], names, {KEYBOARD}, map[], map[], map[])
  {
  }

  lemma ProposedBy(before: seq<Port>, labels: seq<string>, names: map<string, nat>, used: set<string>,
                   inputs: map<string, Port>, inputIds: map<string, string>, labelsById: map<string, string>, port: Port)
    requires Built(before, labels, names, used, inputs, inputIds, labelsById)
    ensures var occurrence := CountOf(names, Base(port)) + 1;
      Proposed(before, port) == if occurrence == 1 then Base(port) else Base(port) + " (" + Decimal(occurrence) + ")"
  {
    hide Labelled, Bound, Base, Decimal;
  }

  lemma FreeFits(used: set<string>, proposed: string, free: string)
    requires free !in used
    requires proposed !in used ==> free == proposed
    requires proposed in used ==>
      exists k: nat :: k <= |used| + 2 && free == Bracketed(proposed, k) && FirstFree(used, proposed, k)
    ensures Fits(used, proposed, free)
  {
    hide Bracketed, FirstFree;
    if proposed in used {
      var k: nat :| k <= |used| + 2 && free == Bracketed(proposed, k) && FirstFree(used, proposed, k);
    }
  }

  lemma PrefixDistinct(ports: seq<Port>, i: nat)
    requires DistinctIds(ports) && i < |ports|
    ensures ports[..i] + [ports[i]] == ports[..i + 1] && DistinctIds(ports[..i + 1])
  {
  }

  /** Labelling and indexing the ports, in their order. */
  method BuildTables(ports: seq<Port>)
    returns (inputs: map<string, Port>, inputIds: map<string, string>, labelsById: map<string, string>, ghost labels: seq<string>)
    requires DistinctIds(ports)
    ensures Labelled(ports, labels) && Bound(ports, labels, inputs, inputIds, labelsById)
  {
    hide Labelled, Bound, Counts, Fits, Bracketed, Base, Decimal, DistinctIds, Proposed, CountOf, FirstFree;
    inputs, inputIds, labelsById, labels := map[], map[], map[], [];
    var names: map<string, nat> := map[KEYBOARD := 1];
    var used := {KEYBOARD};
    NoPorts(names);
    assert ports[..0] == [];
    var i := 0;
    while i < |ports|
      invariant 0 <= i <= |ports|
      invariant Built(ports[..i], labels, names, used, inputs, inputIds, labelsById)
    {
      hide Built;
      var port := ports[i];
      var base := Base(port);
      var occurrence := CountOf(names, base) + 1;
      var proposed := if occurrence == 1 then base else base + " (" + Decimal(occurrence) + ")";
      ProposedBy(ports[..i], labels, names, used, inputs, inputIds, labelsById, port);
      var given := FreeName(used, proposed);
      FreeFits(used, proposed, given);
      PrefixDistinct(ports, i);
      BuiltStep(ports[..i], labels, names, used, inputs, inputIds, labelsById, port, given);
      names, used := names[base := occurrence], used + {given};
      inputs, inputIds, labelsById := inputs[given := port], inputIds[given := port.id], labelsById[port.id := given];
      labels := labels + [given];
      i := i + 1;
    }
    assert ports[..i] == ports;
  }

  /** Every label begins with the port's own name, the manufacturer's for a nameless port,
      or a stand-in when it has neither. */
  lemma LabelsBeginWithNames(ports: seq<Port>, labels: seq<string>, i: nat)
    requires Labelled(ports, labels) && i < |ports|
    ensures (if ports[i].name != "" then ports[i].name
             else if ports[i].manufacturer != "" then ports[i].manufacturer
             else "MIDI Input") <= labels[i]
  {
    LabelsDistinct(ports, labels);
  }

  /** Ports named apart, and not like the keyboard, are shown under just their names. */
  lemma {:induction false} NamesApartAreKept(ports: seq<Port>, labels: seq<string>)
    requires Labelled(ports, labels)
    requires forall i :: 0 <= i < |ports| ==> ports[i].name != "" && ports[i].name != "Computer Keyboard"
    requires forall i, j :: 0 <= i < j < |ports| ==> ports[i].name != ports[j].name
    ensures forall i :: 0 <= i < |ports| ==> labels[i] == ports[i].name
  {
    hide Fits, Occurrences, Labelled;
    if ports != [] {
      var n := |ports| - 1;
      LabelledPrefix(ports, labels);
      NamesApartAreKept(ports[..n], labels[..n]);
      NoneSo(ports[..n], ports[n].name);
      assert Proposed(ports[..n], ports[n]) == ports[n].name;
      assert ports[n].name !in Used(labels[..n]);
      assert FitsAt(ports, labels, n) by { LabelFits(ports, labels, n); }
      assert labels[n] == ports[n].name by { FitsFree(Used(labels[..n]), ports[n].name, labels[n]); }
    }
  }

  lemma LabelFits(ports: seq<Port>, labels: seq<string>, i: nat)
    requires Labelled(ports, labels) && i < |ports|
    ensures FitsAt(ports, labels, i)
  {
  }

  lemma LabelledPrefix(ports: seq<Port>, labels: seq<string>)
    requires Labelled(ports, labels) && ports != []
    ensures |labels| == |ports| && Labelled(ports[..|ports| - 1], labels[..|ports| - 1])
  {
    hide Fits;
    var n := |ports| - 1;
    forall i | 0 <= i < n ensures FitsAt(ports[..n], labels[..n], i) {
      assert FitsAt(ports, labels, i);
      assert ports[..n][..i] == ports[..i] && labels[..n][..i] == labels[..i];
    }
  }

  lemma FitsFree(used: set<string>, proposed: string, given: string)
    requires Fits(used, proposed, given) && proposed !in used
    ensures given == proposed
  {
  }

  lemma {:induction false} NoneSo(ports: seq<Port>, name: string)
    requires name != "Computer Keyboard" && forall i :: 0 <= i < |ports| ==> ports[i].name != "" && ports[i].name != name
    ensures Occurrences(ports, name) == 0
  {
    if ports != [] {
      NoneSo(ports[..|ports| - 1], name);
    }
  }
}
