/**
 The report handler (`device.on('data', ...)` in app.js) and the state it
 keeps between reports (`presentControls` and `previousControls`).
 */
module Session {
  import opened Bits
  import opened SymDiff
  import opened Panel
  import opened Resolver

  /** What processing one panel entry emits. */
  type Processor = Descriptor -> seq<Action>

  /** `processFlippedSwitch` against the active keys `present`. */
  function Handler(present: seq<nat>): Processor
  {
    d => ProcessFlippedSwitch(d, present)
  }

  /** The inner `difference.forEach`: `entry` is processed once for every
      element of `difference` equal to its key. */
  function ForEachChange(entry: Descriptor, difference: seq<nat>, process: Processor): seq<Action>
  {
    if difference == [] then []
    else
      ForEachChange(entry, difference[..|difference| - 1], process) +
      (if entry.key == difference[|difference| - 1] then process(entry) else [])
  }

  /** The outer `PANEL.forEach` over the entries of `panel`. */
  function ForEachEntry(panel: seq<Descriptor>, difference: seq<nat>, process: Processor): seq<Action>
  {
    if panel == [] then []
    else
      ForEachEntry(panel[..|panel| - 1], difference, process) +
      ForEachChange(panel[|panel| - 1], difference, process)
  }

  /** Reference: every entry of `panel` whose key changed is processed exactly
      once, in the order of `panel`; nothing else contributes. */
  function InPanelOrder(panel: seq<Descriptor>, changed: seq<nat>, process: Processor): seq<Action>
  {
    if panel == [] then []
    else
      InPanelOrder(panel[..|panel| - 1], changed, process) +
      (if panel[|panel| - 1].key in changed then process(panel[|panel| - 1]) else [])
  }

  /** The process-wide state of app.js as one object. */
  class PanelSession {
    /** `presentControls`: the keys active in the last report. */
    var present: seq<nat>
    /** `previousControls`: the keys the next report is compared with. */
    var previous: seq<nat>

    ghost predicate Valid()
      reads this
    {
      NoDuplicates(previous)
    }

    constructor ()
      ensures Valid()
      ensures present == [] && previous == []
    {
      present := [];
      previous := [];
    }

    /** Handles one report: decodes it, compares it with the previous one,
        records it as the previous one, and only then dispatches every
        changed control of the panel. */
    method HandleReport(data: seq<Byte>) returns (actions: seq<Action>)
      requires Valid()
      modifies this
      ensures Valid()
      ensures present == ActiveControls(data) && previous == present
      ensures actions == ForEachEntry(Table, Diff(present, old(previous)), Handler(present))
      ensures actions == InPanelOrder(Table, Diff(present, old(previous)), Handler(present))
    {
      present := GetBitIndexFlipped([], data);
      var difference := Diff(present, previous);
      IncreasingHasNoDuplicates(present);
      DiffNoDuplicates(present, previous);
      previous := present;
      actions := DispatchChanges(Table, difference, present);
    }
  }

  /** The nested `forEach` loops of the handler: for every entry of `panel`,
      in order, every element of `difference` equal to the entry's key has the
      entry processed. */
  method DispatchChanges(panel: seq<Descriptor>, difference: seq<nat>, present: seq<nat>) returns (actions: seq<Action>)
    ensures actions == ForEachEntry(panel, difference, Handler(present))
    ensures NoDuplicates(difference) ==> actions == InPanelOrder(panel, difference, Handler(present))
  {
    ghost var process := Handler(present);
    actions := [];
    for i := 0 to |panel|
      invariant actions == ForEachEntry(panel[..i], difference, process)
    {
      var entry := panel[i];
      ghost var done := actions;
      assert process(entry) == ProcessFlippedSwitch(entry, present);
      for j := 0 to |difference|
        invariant actions == done + ForEachChange(entry, difference[..j], process)
      {
        ChangeStep(entry, difference, j, process);
        if entry.key == difference[j] {
          actions := actions + ProcessFlippedSwitch(entry, present);
        }
      }
      assert difference[..|difference|] == difference;
      EntryStep(panel, i, difference, process);
    }
    assert panel[..|panel|] == panel;
    if NoDuplicates(difference) {
      DispatchInPanelOrder(panel, difference, process);
    }
  }

  /** One step of the inner loop of `DispatchChanges`. */
  lemma ChangeStep(entry: Descriptor, difference: seq<nat>, j: nat, process: Processor)
    requires j < |difference|
    ensures ForEachChange(entry, difference[..j + 1], process) ==
      ForEachChange(entry, difference[..j], process) + (if entry.key == difference[j] then process(entry) else [])
  {
    assert difference[..j + 1][..j] == difference[..j];
  }

  /** One step of the outer loop of `DispatchChanges`. */
  lemma EntryStep(panel: seq<Descriptor>, i: nat, difference: seq<nat>, process: Processor)
    requires i < |panel|
    ensures ForEachEntry(panel[..i + 1], difference, process) ==
      ForEachEntry(panel[..i], difference, process) + ForEachChange(panel[i], difference, process)
  {
    assert panel[..i + 1][..i] == panel[..i];
  }

  /** Two reports in a row: afterwards the session compares with the second
      one, whatever was dispatched for either. */
  method TwoReports(first: seq<Byte>, second: seq<Byte>) returns (last: seq<nat>)
    ensures last == ActiveControls(second)
  {
    var session := new PanelSession();
    var actions := session.HandleReport(first);
    actions := session.HandleReport(second);
    last := session.previous;
  }

  // ---------------------------------------------------------------------
  // Properties of the dispatch loops

  lemma IncreasingHasNoDuplicates(s: seq<nat>)
    requires StrictlyIncreasing(s)
    ensures NoDuplicates(s)
  {
  }

  /** With a duplicate-free change set, an entry is processed once when its
      key changed and not at all otherwise. */
  lemma {:induction false} ProcessedOnce(entry: Descriptor, difference: seq<nat>, process: Processor)
    requires NoDuplicates(difference)
    ensures ForEachChange(entry, difference, process) ==
      if entry.key in difference then process(entry) else []
  {
    if difference != [] {
      var p := difference[..|difference| - 1];
      ProcessedOnce(entry, p, process);
      assert difference == p + [difference[|difference| - 1]];
    }
  }

  /** With a duplicate-free change set the nested loops process the changed
      entries once each, in table order. */
  lemma {:induction false} DispatchInPanelOrder(panel: seq<Descriptor>, difference: seq<nat>, process: Processor)
    requires NoDuplicates(difference)
    ensures ForEachEntry(panel, difference, process) == InPanelOrder(panel, difference, process)
  {
    if panel != [] {
      DispatchInPanelOrder(panel[..|panel| - 1], difference, process);
      ProcessedOnce(panel[|panel| - 1], difference, process);
    }
  }

  /** The inner loop over a split change set is the loop over each part in turn. */
  lemma {:induction false} ForEachChangeAppend(entry: Descriptor, front: seq<nat>, back: seq<nat>, process: Processor)
    ensures ForEachChange(entry, front + back, process) ==
      ForEachChange(entry, front, process) + ForEachChange(entry, back, process)
  {
    if back == [] {
      assert front + back == front;
    } else {
      var back', last := back[..|back| - 1], back[|back| - 1];
      ForEachChangeAppend(entry, front, back', process);
      assert (front + back)[..|front + back| - 1] == front + back';
      assert (front + back)[|front + back| - 1] == last;
    }
  }

  /** The inner loop of an entry skips a changed key other than its own. */
  lemma ChangeSkipsOtherKey(entry: Descriptor, front: seq<nat>, k: nat, back: seq<nat>, process: Processor)
    requires entry.key != k
    ensures ForEachChange(entry, front + [k] + back, process) == ForEachChange(entry, front + back, process)
  {
    ForEachChangeAppend(entry, front + [k], back, process);
    ForEachChangeAppend(entry, front, [k], process);
    ForEachChangeAppend(entry, front, back, process);
    assert [k][..0] == [];
  }

  /** A changed key that no entry of the panel has (4 to 7, say) adds nothing,
      wherever it stands in the change set. */
  lemma {:induction false} UnmatchedKeyIgnored(panel: seq<Descriptor>, front: seq<nat>, k: nat, back: seq<nat>, process: Processor)
    requires forall e :: e in panel ==> e.key != k
    ensures ForEachEntry(panel, front + [k] + back, process) == ForEachEntry(panel, front + back, process)
  {
    if panel != [] {
      var p, e := panel[..|panel| - 1], panel[|panel| - 1];
      assert forall e' :: e' in p ==> e' in panel;
      UnmatchedKeyIgnored(p, front, k, back, process);
      ChangeSkipsOtherKey(e, front, k, back, process);
    }
  }

  /** Only whether each entry's key changed matters, not the order of the
      change set nor the keys outside the panel. */
  lemma {:induction false} OnlyPanelKeysMatter(panel: seq<Descriptor>, c1: seq<nat>, c2: seq<nat>, process: Processor)
    requires forall e :: e in panel ==> (e.key in c1 <==> e.key in c2)
    ensures InPanelOrder(panel, c1, process) == InPanelOrder(panel, c2, process)
  {
    if panel != [] {
      var p := panel[..|panel| - 1];
      assert forall e :: e in p ==> e in panel;
      OnlyPanelKeysMatter(p, c1, c2, process);
    }
  }

  /** One report of at most three bytes: an entry is processed exactly when
      its bit in the report differs from its presence in the previous set,
      once, in table order. */
  lemma ReportDispatch(data: seq<Byte>, previous: seq<nat>)
    requires |data| <= 3 && NoDuplicates(previous)
    ensures var present := ActiveControls(data);
      && ForEachEntry(Table, Diff(present, previous), Handler(present)) ==
         InPanelOrder(Table, Diff(present, previous), Handler(present))
      && forall k :: k in Diff(present, previous) <==> Bit(BigEndian(data), k) != (k in previous)
  {
    DecodeReport(data);
    IncreasingHasNoDuplicates(ActiveControls(data));
    ChangesOnce(ActiveControls(data), previous, Handler(ActiveControls(data)));
  }

  /** Two duplicate-free key lists: the nested loops over their difference
      process each changed entry once, in table order. */
  lemma ChangesOnce(present: seq<nat>, previous: seq<nat>, process: Processor)
    requires NoDuplicates(present) && NoDuplicates(previous)
    ensures ForEachEntry(Table, Diff(present, previous), process) == InPanelOrder(Table, Diff(present, previous), process)
  {
    DiffNoDuplicates(present, previous);
    DispatchInPanelOrder(Table, Diff(present, previous), process);
  }

  lemma {:induction false} InPanelOrderAppend(p: seq<Descriptor>, q: seq<Descriptor>, changed: seq<nat>, process: Processor)
    ensures InPanelOrder(p + q, changed, process) == InPanelOrder(p, changed, process) + InPanelOrder(q, changed, process)
  {
    if q == [] {
      assert p + q == p;
    } else {
      var q', last := q[..|q| - 1], q[|q| - 1];
      var tail := if last.key in changed then process(last) else [];
      InPanelOrderAppend(p, q', changed, process);
      assert (p + q)[..|p + q| - 1] == p + q';
      assert (p + q)[|p + q| - 1] == last;
      assert InPanelOrder(p + q, changed, process) == InPanelOrder(p + q', changed, process) + tail;
      assert InPanelOrder(q, changed, process) == InPanelOrder(q', changed, process) + tail;
    }
  }

  lemma {:induction false} InPanelOrderNone(panel: seq<Descriptor>, changed: seq<nat>, process: Processor)
    requires forall j :: 0 <= j < |panel| ==> panel[j].key !in changed
    ensures InPanelOrder(panel, changed, process) == []
  {
    if panel != [] {
      InPanelOrderNone(panel[..|panel| - 1], changed, process);
    }
  }

  /** When every changed key lies among the entries `lo` to `hi - 1`, only
      those entries contribute. */
  lemma InPanelOrderWindow(panel: seq<Descriptor>, lo: nat, hi: nat, changed: seq<nat>, process: Processor)
    requires lo <= hi <= |panel|
    requires forall j :: 0 <= j < |panel| && !(lo <= j < hi) ==> panel[j].key !in changed
    ensures InPanelOrder(panel, changed, process) == InPanelOrder(panel[lo..hi], changed, process)
  {
    assert panel == panel[..lo] + panel[lo..hi] + panel[hi..];
    InPanelOrderAppend(panel[..lo] + panel[lo..hi], panel[hi..], changed, process);
    InPanelOrderAppend(panel[..lo], panel[lo..hi], changed, process);
    InPanelOrderNone(panel[..lo], changed, process);
    InPanelOrderNone(panel[hi..], changed, process);
  }

  lemma InPanelOrderSingle(e: Descriptor, changed: seq<nat>, process: Processor)
    ensures InPanelOrder([e], changed, process) == if e.key in changed then process(e) else []
  {
    assert [e][..0] == [];
  }

  /** When every changed key belongs to an entry from `lo` to `hi - 1` of the
      table, only those entries contribute. */
  lemma TableWindow(lo: nat, hi: nat, changed: seq<nat>, process: Processor)
    requires lo <= hi <= |Table|
    requires forall k :: k in changed ==> k in KeyIndex && lo <= KeyIndex[k] < hi
    ensures InPanelOrder(Table, changed, process) == InPanelOrder(Table[lo..hi], changed, process)
  {
    KeyPositions();
    InPanelOrderWindow(Table, lo, hi, changed, process);
  }

  /** When every changed key belongs to entry `lo` or `lo + 1`, those two
      entries contribute, in that order. */
  lemma PairWindow(lo: nat, changed: seq<nat>, process: Processor)
    requires lo + 2 <= |Table|
    requires forall k :: k in changed ==> k in KeyIndex && lo <= KeyIndex[k] < lo + 2
    ensures InPanelOrder(Table, changed, process) ==
      InPanelOrder([Table[lo]], changed, process) + InPanelOrder([Table[lo + 1]], changed, process)
  {
    TableWindow(lo, lo + 2, changed, process);
    assert Table[lo..lo + 2] == [Table[lo]] + [Table[lo + 1]];
    InPanelOrderAppend([Table[lo]], [Table[lo + 1]], changed, process);
  }

  // ---------------------------------------------------------------------
  // Transitions of the panel

  /** The change set between two different single keys holds both, the new one first. */
  lemma DiffOfSingletons(x: nat, y: nat)
    requires x != y
    ensures Diff([x], [y]) == [x, y]
  {
    assert Without([x], [y]) == [x];
    assert Without([y], [x]) == [y];
  }

  /** A switch moved from the position of entry `lo` to that of entry
      `lo + 1`: the handler processes both entries, in table order. */
  lemma AdjacentChange(lo: nat, process: Processor)
    requires lo + 2 <= |Table|
    ensures ForEachEntry(Table, Diff([Table[lo + 1].key], [Table[lo].key]), process) ==
      process(Table[lo]) + process(Table[lo + 1])
  {
    var x, y := Table[lo + 1].key, Table[lo].key;
    KeyPositions();
    KeysUnique();
    assert x in KeyIndex && KeyIndex[x] == lo + 1;
    assert y in KeyIndex && KeyIndex[y] == lo;
    DiffOfSingletons(x, y);
    DispatchInPanelOrder(Table, [x, y], process);
    PairWindow(lo, [x, y], process);
    InPanelOrderSingle(Table[lo], [x, y], process);
    InPanelOrderSingle(Table[lo + 1], [x, y], process);
  }

  /** The first report shows only the key of entry `i`: only that entry is processed. */
  lemma FirstChange(i: nat, process: Processor)
    requires i < |Table|
    ensures ForEachEntry(Table, Diff([Table[i].key], []), process) == process(Table[i])
  {
    var x := Table[i].key;
    assert Without([x], []) == [x];
    assert Diff([x], []) == [x];
    DispatchInPanelOrder(Table, [x], process);
    KeyPositions();
    assert x in KeyIndex && KeyIndex[x] == i;
    TableWindow(i, i + 1, [x], process);
    assert Table[i..i + 1] == [Table[i]];
    InPanelOrderSingle(Table[i], [x], process);
    assert InPanelOrder(Table, [x], process) == process(Table[i]);
  }

  /** The first report after start-up with the magnetos off: value 0 is sent
      to the magnetos property and nothing else happens. */
  lemma StartupMagnetoOff()
    ensures ForEachEntry(Table, Diff([13], []), Handler([13])) == [Post(MagnetosPath, Int(0))]
  {
    FirstChange(0, Handler([13]));
    MagnetoDispatch(0, [13]);
  }

  /** Magnetos turned from left to right: the left position's deactivation is
      ignored and value 2 is sent once. */
  lemma MagnetoLeftToRight()
    ensures ForEachEntry(Table, Diff([14], [15]), Handler([14])) == [Post(MagnetosPath, Int(2))]
  {
    var process := Handler([14]);
    assert Table[1] == MagnetoLeft && Table[2] == MagnetoRight;
    AdjacentChange(1, process);
    MagnetoRightResolution();
    assert process(MagnetoLeft) == [];
    assert process(MagnetoRight) == [Post(MagnetosPath, Int(2))];
  }

  lemma MagnetoRightResolution()
    ensures ProcessFlippedSwitch(MagnetoLeft, [14]) == []
    ensures ProcessFlippedSwitch(MagnetoRight, [14]) == [Post(MagnetosPath, Int(2))]
  {
    MagnetoDispatch(1, [14]);
    MagnetoDispatch(2, [14]);
  }

  /** Gear lowered: both gear keys are in the change set and both are named
      "Gear", so the gear rule runs twice and posts `true` and lights green
      twice. */
  lemma GearLowered()
    ensures ForEachEntry(Table, Diff([3], [2]), Handler([3])) ==
      [Post(GearPath, Bool(true)), Feature([0x00, 0x07]), Post(GearPath, Bool(true)), Feature([0x00, 0x07])]
  {
    var process := Handler([3]);
    assert Table[5] == GearUp && Table[6] == GearDown;
    AdjacentChange(5, process);
    GearDownResolution();
    assert process(GearUp) == process(GearDown) == [Post(GearPath, Bool(true)), Feature([0x00, 0x07])];
  }

  lemma GearDownResolution()
    ensures ProcessFlippedSwitch(GearUp, [3]) == [Post(GearPath, Bool(true)), Feature([0x00, 0x07])]
    ensures ProcessFlippedSwitch(GearDown, [3]) == [Post(GearPath, Bool(true)), Feature([0x00, 0x07])]
  {
    GearDispatch(GearUp, [3]);
    assert Change(GearUp.paths, Bool(true)) == [Post(GearPath, Bool(true))];
  }
}
