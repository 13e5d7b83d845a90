/**
 What one flipped control turns into (`processFlippedSwitch` and `change` in
 app.js). The HTTP requests and the device writes are not performed here;
 the resolver returns them, in the order the source issues them, as actions.
 */
module Resolver {
  import opened Panel
  import Bits

  /** The JSON `value` of a POST body: JavaScript `true`/`false` or a number. */
  datatype Value = Bool(b: bool) | Int(i: int)

  /** One outbound effect: a POST of `{"value": value}` to `path` on the
      simulator, or a feature report written to the device. */
  datatype Action =
    | Post(path: string, value: Value)
    | Feature(report: seq<Bits.Byte>)

  /** Feedback masks: the three green gear lights (0x01 | 0x02 | 0x04) and the
      three red ones (0x08 | 0x10 | 0x20). */
  const GreenLights: Bits.Byte := ((0x01 as bv8) | 0x02 | 0x04) as int
  const RedLights: Bits.Byte := ((0x08 as bv8) | 0x10 | 0x20) as int

  /** `on(controlIndex)`: the switch is physically on in the current report. */
  predicate On(present: seq<nat>, key: nat)
  {
    key in present
  }

  /** `change(flippedSwitch, value)`: the paths' `forEach`, one POST per path. */
  function Change(paths: seq<string>, v: Value): (r: seq<Action>)
    ensures |r| == |paths|
    ensures forall i :: 0 <= i < |r| ==> r[i] == Post(paths[i], v)
  {
    if paths == [] then [] else [Post(paths[0], v)] + Change(paths[1..], v)
  }

  /** `processFlippedSwitch(flippedSwitch)` against the current active keys. */
  function ProcessFlippedSwitch(d: Descriptor, present: seq<nat>): seq<Action>
  {
    if d.name == MagnetoOff.name then
      if On(present, d.key) then
        if d.key == MagnetoOff.key then Change(d.paths, Int(0))
        else if d.key == MagnetoLeft.key then Change(d.paths, Int(1))
        else if d.key == MagnetoRight.key then Change(d.paths, Int(2))
        else if d.key == MagnetoBoth.key then Change(d.paths, Int(3))
        else []  // unknown magneto position: only a warning is logged
      else []
    else if d.name == GearDown.name then
      if On(present, GearDown.key) then
        Change(d.paths, Bool(true)) + [Feature([0x00, GreenLights])]
      else if On(present, GearUp.key) then
        Change(d.paths, Bool(false)) + [Feature([0x00, RedLights])]
      else []
    else if d.name == Cowl.name || d.name == DashboardLight.name then
      Change(d.paths, Int(if On(present, d.key) then 1 else 0))
    else
      Change(d.paths, Bool(On(present, d.key)))
  }

  // ---------------------------------------------------------------------
  // A reference resolver over the kind of each control

  /** How a control is resolved, fixed per table entry instead of being
      recovered from its name at run time. */
  datatype Kind =
    | Position(value: nat)  // one position of a mutually exclusive group
    | Bistable              // two-position control with device feedback
    | IntToggle             // single switch sent as 1 or 0
    | BoolToggle            // single switch sent as true or false

  /** The kind of each entry of `Panel.Table`, at the same index. */
  const Kinds: seq<Kind> := [
    Position(0), Position(1), Position(2), Position(3), BoolToggle, Bistable, Bistable,
    BoolToggle, BoolToggle, BoolToggle, BoolToggle, BoolToggle, BoolToggle, IntToggle,
    IntToggle, BoolToggle, BoolToggle, BoolToggle, BoolToggle, BoolToggle]

  function Resolve(k: Kind, d: Descriptor, present: seq<nat>): seq<Action>
  {
    match k
    case Position(v) => if d.key in present then Change(d.paths, Int(v)) else []
    case Bistable =>
      if GearDown.key in present then Change(d.paths, Bool(true)) + [Feature([0x00, 0x07])]
      else if GearUp.key in present then Change(d.paths, Bool(false)) + [Feature([0x00, 0x38])]
      else []
    case IntToggle => Change(d.paths, Int(if d.key in present then 1 else 0))
    case BoolToggle => Change(d.paths, Bool(d.key in present))
  }

  /** Dispatching on names resolves every table entry as its kind says: the
      shared names do not make one group's rule apply to another group. */
  lemma ResolvedByKind(i: nat, present: seq<nat>)
    requires i < |Table|
    ensures |Kinds| == |Table|
    ensures ProcessFlippedSwitch(Table[i], present) == Resolve(Kinds[i], Table[i], present)
  {
    assert GreenLights == 0x07 && RedLights == 0x38;
    TableGroups();
    var d := Table[i];
    if i < 4 {
      assert d.name == MagnetoOff.name && Kinds[i] == Position(i);
    } else if i == 5 || i == 6 {
      assert d.name == GearDown.name && Kinds[i] == Bistable;
    } else if i == 13 || i == 14 {
      assert d.name != MagnetoOff.name && d.name != GearDown.name;
      assert d.name == Cowl.name || d.name == DashboardLight.name;
      assert Kinds[i] == IntToggle;
    } else {
      assert d.name != MagnetoOff.name && d.name != GearDown.name;
      assert !(d.name == Cowl.name || d.name == DashboardLight.name);
      assert Kinds[i] == BoolToggle;
    }
  }

  // ---------------------------------------------------------------------
  // Properties of the resolver

  /** A magneto position dispatches only when its own key is active, and then
      sends its declaration position (0 for key 13, 1 for 15, 2 for 14, 3 for 0)
      to the magnetos property, once. */
  lemma MagnetoDispatch(i: nat, present: seq<nat>)
    requires i < |Table| && Table[i].name == "Magneto"
    ensures ProcessFlippedSwitch(Table[i], present) ==
      if Table[i].key in present then [Post(MagnetosPath, Int(i))] else []
    ensures i == 0 <==> Table[i].key == 13
    ensures i == 1 <==> Table[i].key == 15
    ensures i == 2 <==> Table[i].key == 14
    ensures i == 3 <==> Table[i].key == 0
  {
    ResolvedByKind(i, present);
  }

  /** A descriptor named "Magneto" whose key is none of the four positions
      dispatches nothing, active or not. */
  lemma UnknownMagnetoIgnored(d: Descriptor, present: seq<nat>)
    requires d.name == "Magneto" && d.key !in {13, 15, 14, 0}
    ensures ProcessFlippedSwitch(d, present) == []
  {
  }

  /** The gear posts `true` and lights green when key 3 is active, otherwise
      posts `false` and lights red when key 2 is active, otherwise does
      nothing; the same happens whichever gear key flipped. */
  lemma GearDispatch(d: Descriptor, present: seq<nat>)
    requires d.name == "Gear"
    ensures ProcessFlippedSwitch(d, present) ==
      if 3 in present then Change(d.paths, Bool(true)) + [Feature([0x00, 0x07])]
      else if 2 in present then Change(d.paths, Bool(false)) + [Feature([0x00, 0x38])]
      else []
    ensures ProcessFlippedSwitch(GearUp, present) == ProcessFlippedSwitch(GearDown, present)
  {
    assert GreenLights == 0x07 && RedLights == 0x38;
  }

  /** Every control that is neither a magneto position nor the gear posts one
      value per path, in path order, and no feature report: 1 or 0 for the
      cowl flaps and the dashboard light, `true` or `false` for the rest, each
      saying whether its key is active. */
  lemma ToggleDispatch(i: nat, present: seq<nat>)
    requires i < |Table| && Table[i].name != "Magneto" && Table[i].name != "Gear"
    ensures var r := ProcessFlippedSwitch(Table[i], present);
      |r| == |Table[i].paths| &&
      forall j :: 0 <= j < |r| ==>
        r[j] == Post(Table[i].paths[j],
          if i == 13 || i == 14 then Int(if Table[i].key in present then 1 else 0)
          else Bool(Table[i].key in present))
  {
    ResolvedByKind(i, present);
  }

  /** Only the gear ever writes a feature report. */
  lemma FeatureOnlyFromGear(i: nat, present: seq<nat>)
    requires i < |Table| && Table[i].name != "Gear"
    ensures forall a :: a in ProcessFlippedSwitch(Table[i], present) ==> a.Post?
  {
    ResolvedByKind(i, present);
  }

  /** The de-icing switch fans out to four properties, the dashboard light to two. */
  lemma FanOut(v: Value)
    ensures Change(DeIce.paths, v) == [
      Post("/json/controls/anti-ice/window-heat", v),
      Post("/json/controls/anti-ice/wing-heat", v),
      Post("/json/controls/anti-ice/engine/carb-heat", v),
      Post("/json/controls/anti-ice/engine/inlet-heat", v)]
    ensures Change(DashboardLight.paths, v) == [
      Post("/json/controls/lighting/panel-norm", v),
      Post("/json/controls/lighting/radio-norm", v)]
  {
  }
}
