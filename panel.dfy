/**
 The switch panel's descriptor table (`PANEL` in app.js): one descriptor per
 physical switch position, naming the simulator properties it drives.
 */
module Panel {

  /** A physical control: its semantic name, the property paths it updates
      and the bit index (key) of the report that shows it active. */
  datatype Descriptor = Descriptor(name: string, paths: seq<string>, key: nat)

  const MagnetosPath := "/json/controls/switches/magnetos"
  const GearPath := "/json/controls/gear/gear-down"

  const MagnetoOff := Descriptor("Magneto", [MagnetosPath], 13)
  const MagnetoLeft := Descriptor("Magneto", [MagnetosPath], 15)
  const MagnetoRight := Descriptor("Magneto", [MagnetosPath], 14)
  const MagnetoBoth := Descriptor("Magneto", [MagnetosPath], 0)
  const Starter := Descriptor("Starter", ["/json/controls/switches/starter"], 1)
  const GearUp := Descriptor("Gear", [GearPath], 2)
  const GearDown := Descriptor("Gear", [GearPath], 3)
  const MasterBattery := Descriptor("Master Battery", ["/json/controls/switches/master-bat"], 16)
  const MasterAlt := Descriptor("Master Alt", ["/json/controls/switches/master-alt"], 17)
  const MasterAvionics := Descriptor("Master Avionics", ["/json/controls/switches/master-avionics"], 18)
  const FuelPump := Descriptor("Fuel Pump", ["/json/controls/engines/engine/fuel-pump"], 19)
  const DeIce := Descriptor("De-Ice", [
    "/json/controls/anti-ice/window-heat",
    "/json/controls/anti-ice/wing-heat",
    "/json/controls/anti-ice/engine/carb-heat",
    "/json/controls/anti-ice/engine/inlet-heat"], 20)
  const PitotHeat := Descriptor("Pitot Heat", ["/json/controls/anti-ice/pitot-heat"], 21)
  const Cowl := Descriptor("Cowl", ["/json/controls/engines/engine/cowl-flaps-norm"], 22)
  const DashboardLight := Descriptor("Dashboard Light", [
    "/json/controls/lighting/panel-norm",
    "/json/controls/lighting/radio-norm"], 23)
  const BeaconLight := Descriptor("Beacon Light", ["/json/controls/lighting/beacon"], 8)
  const NavLight := Descriptor("Nav Light", ["/json/controls/lighting/nav-lights"], 9)
  const StrobeLight := Descriptor("Strobe Light", ["/json/controls/lighting/strobe"], 10)
  const TaxiLight := Descriptor("Taxi Light", ["/json/controls/lighting/taxi-light"], 11)
  const LandingLight := Descriptor("Landing Light", ["/json/controls/lighting/landing-lights"], 12)

  /** The table in declaration order; the report handler visits it in this order. */
  const Table: seq<Descriptor> := [
    MagnetoOff, MagnetoLeft, MagnetoRight, MagnetoBoth, Starter, GearUp, GearDown,
    MasterBattery, MasterAlt, MasterAvionics, FuelPump, DeIce, PitotHeat, Cowl,
    DashboardLight, BeaconLight, NavLight, StrobeLight, TaxiLight, LandingLight]

  /** Twenty descriptors, each with at least one path, every key one of the
      24 bits of a three-byte report, and no descriptor for keys 4 to 7. */
  lemma TableShape()
    ensures |Table| == 20
    ensures forall i :: 0 <= i < |Table| ==> Table[i].paths != []
    ensures forall i :: 0 <= i < |Table| ==> Table[i].key < 24 && !(4 <= Table[i].key <= 7)
  {
  }

  /** The position of each key in the table. */
  const KeyIndex: map<nat, nat> := map[
    13 := 0, 15 := 1, 14 := 2, 0 := 3, 1 := 4, 2 := 5, 3 := 6, 16 := 7, 17 := 8, 18 := 9,
    19 := 10, 20 := 11, 21 := 12, 22 := 13, 23 := 14, 8 := 15, 9 := 16, 10 := 17, 11 := 18, 12 := 19]

  /** Each key names the position of its descriptor in the table. */
  lemma KeyPositions()
    ensures forall i :: 0 <= i < |Table| ==> Table[i].key in KeyIndex && KeyIndex[Table[i].key] == i
  {
    forall i | 0 <= i < |Table|
      ensures Table[i].key in KeyIndex && KeyIndex[Table[i].key] == i
    {
    }
  }

  /** A key determines its descriptor: no two descriptors share a key. */
  lemma KeysUnique()
    ensures forall i, j :: 0 <= i < j < |Table| ==> Table[i].key != Table[j].key
  {
    KeyPositions();
  }

  /** Exactly the first four descriptors are named "Magneto", exactly the two
      gear positions are named "Gear", and exactly the cowl flaps and the
      dashboard light are named "Cowl" or "Dashboard Light". */
  lemma TableGroups()
    ensures forall i :: 0 <= i < |Table| ==> (Table[i].name == "Magneto" <==> i < 4)
    ensures forall i :: 0 <= i < |Table| ==> (Table[i].name == "Gear" <==> i == 5 || i == 6)
    ensures forall i :: 0 <= i < |Table| ==>
      (Table[i].name == "Cowl" || Table[i].name == "Dashboard Light" <==> i == 13 || i == 14)
  {
  }
}
