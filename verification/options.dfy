/**
 * Game options and the catalogue of communication protocols (src/options.js).
 * Both are fixed tables; JavaScript object lookup by key becomes a search of a keyed sequence.
 */
module Options {
  import opened Wrappers

  /** Credits available to spend on devices. */
  const StartingCredits: int := 1500
  /** Pixels a room may be widened by on each side when locating a device in it. */
  const RoomBoundary: int := 30
  /** Pixels per metre on the floor plan. */
  const DistanceMetersToPixels: int := 50

  const OptionTable: seq<(string, int)> := [
    ("startingCredits", StartingCredits),
    ("roomBoundary", RoomBoundary),
    ("distanceMetersToPixels", DistanceMetersToPixels)
  ]

  datatype Mode = Wired | Wireless

  /** A protocol record; `range` is in pixels. The description text is left out. */
  datatype Protocol = Protocol(nm: string, name: string, color: string, range: int, mode: Mode)

  const ProtocolTable: seq<(string, Protocol)> := [
    ("TSCH", Protocol("TSCH", "Time Slotted Channel Hopping (TSCH)", "#388e3c", 10 * DistanceMetersToPixels, Wireless)),
    ("BLE", Protocol("BLE", "Bluetooth Low Energy (BLE)", "#bf360c", 7 * DistanceMetersToPixels, Wireless)),
    ("USB", Protocol("USB", "USB cable", "#666", 3 * DistanceMetersToPixels, Wired)),
    ("433 MHz", Protocol("433 MHz", "433 MHz wireless", "#dddddd", 20 * DistanceMetersToPixels, Wireless)),
    ("PLC", Protocol("PLC", "Power Line Comunications (PLC)", "#dddddd", 10 * DistanceMetersToPixels, Wired)),
    ("WiFi", Protocol("WiFi", "WiFi (5 GHz)", "#ffa043", 15 * DistanceMetersToPixels, Wireless)),
    ("3G", Protocol("3G", "3G (cellular connection)", "#ffa043", 100 * DistanceMetersToPixels, Wireless))
  ]

  /** The value stored under the first entry with key `key`, or None (`obj[key]` is undefined). */
  function Lookup<V>(table: seq<(string, V)>, key: string): (r: Option<V>)
    ensures r.None? <==> forall i :: 0 <= i < |table| ==> table[i].0 != key
    ensures r.Some? ==> exists i :: 0 <= i < |table| && table[i] == (key, r.value)
  {
    if table == [] then None
    else if table[0].0 == key then Some(table[0].1)
    else
      var r := Lookup(table[1..], key);
      assert forall i :: 0 <= i < |table[1..]| ==> table[1..][i] == table[i + 1];
      r
  }

  /** `getOption(name)`. */
  function GetOption(name: string): (r: Option<int>)
    ensures r.Some? <==> name in OptionNames()
  {
    OptionKeys();
    Lookup(OptionTable, name)
  }

  function OptionNames(): set<string> {
    {"startingCredits", "roomBoundary", "distanceMetersToPixels"}
  }

  lemma OptionKeys()
    ensures forall name :: name in OptionNames() <==>
      exists i :: 0 <= i < |OptionTable| && OptionTable[i].0 == name
  {
    forall name | name in OptionNames()
      ensures exists i :: 0 <= i < |OptionTable| && OptionTable[i].0 == name
    {
      if name == "startingCredits" { assert OptionTable[0].0 == name; }
      else if name == "roomBoundary" { assert OptionTable[1].0 == name; }
      else { assert OptionTable[2].0 == name; }
    }
  }

  /** `getProtocolByName(nm)`: the record stored under `nm`, which carries `nm` as its own name. */
  function GetProtocolByName(nm: string): (r: Option<Protocol>)
    ensures r.Some? <==> nm in ProtocolNames()
    ensures r.Some? ==> r.value.nm == nm
  {
    NamesAreKeys();
    ProtocolKeys();
    Lookup(ProtocolTable, nm)
  }

  /** A record found by name is one of the records `getProtocols()` lists. */
  lemma ProtocolByNameListed(nm: string)
    ensures GetProtocolByName(nm).Some? ==> GetProtocolByName(nm).value in ProtocolValues(ProtocolTable)
  {
    var r := GetProtocolByName(nm);
    if r.Some? {
      var i :| 0 <= i < |ProtocolTable| && ProtocolTable[i] == (nm, r.value);
      assert ProtocolValues(ProtocolTable)[i] == r.value;
    }
  }

  lemma ProtocolKeys()
    ensures forall nm :: nm in ProtocolNames() <==>
      exists i :: 0 <= i < |ProtocolTable| && ProtocolTable[i].0 == nm
  {
    forall nm | nm in ProtocolNames()
      ensures exists i :: 0 <= i < |ProtocolTable| && ProtocolTable[i].0 == nm
    {
      if nm == "TSCH" { assert ProtocolTable[0].0 == nm; }
      else if nm == "BLE" { assert ProtocolTable[1].0 == nm; }
      else if nm == "USB" { assert ProtocolTable[2].0 == nm; }
      else if nm == "433 MHz" { assert ProtocolTable[3].0 == nm; }
      else if nm == "PLC" { assert ProtocolTable[4].0 == nm; }
      else if nm == "WiFi" { assert ProtocolTable[5].0 == nm; }
      else { assert ProtocolTable[6].0 == nm; }
    }
  }

  /** In a table whose earlier keys all differ from key `i`, looking that key up finds entry `i`. */
  lemma {:induction false} LookupFinds<V>(table: seq<(string, V)>, i: int)
    requires 0 <= i < |table|
    requires forall j :: 0 <= j < i ==> table[j].0 != table[i].0
    ensures Lookup(table, table[i].0) == Some(table[i].1)
  {
    if i > 0 {
      LookupFinds(table[1..], i - 1);
    }
  }

  function ProtocolNames(): set<string> {
    {"TSCH", "BLE", "USB", "433 MHz", "PLC", "WiFi", "3G"}
  }

  /** The records of a table, in table order. */
  function ProtocolValues(table: seq<(string, Protocol)>): (r: seq<Protocol>)
    ensures |r| == |table|
    ensures forall i :: 0 <= i < |table| ==> r[i] == table[i].1
  {
    if table == [] then [] else ProtocolValues(table[..|table| - 1]) + [table[|table| - 1].1]
  }

  /** Every record is stored under its own `nm`. */
  lemma NamesAreKeys()
    ensures forall i :: 0 <= i < |ProtocolTable| ==> ProtocolTable[i].0 == ProtocolTable[i].1.nm
  {
  }

  /** `getProtocols()`: every record, in the order the table lists them. */
  method GetProtocols() returns (r: seq<Protocol>)
    ensures r == ProtocolValues(ProtocolTable)
    ensures |r| == 7 && forall i :: 0 <= i < |r| ==> r[i].nm in ProtocolNames()
  {
    r := [];
    var i := 0;
    while i < |ProtocolTable|
      invariant 0 <= i <= |ProtocolTable|
      invariant r == ProtocolValues(ProtocolTable[..i])
    {
      assert ProtocolTable[..i + 1][..i] == ProtocolTable[..i];
      r := r + [ProtocolTable[i].1];
      i := i + 1;
    }
    assert ProtocolTable[..i] == ProtocolTable;
  }

  /** Distinct keys: each protocol is found under its own entry. */
  lemma ProtocolTableLookup(i: int)
    requires 0 <= i < |ProtocolTable|
    ensures GetProtocolByName(ProtocolTable[i].0) == Some(ProtocolTable[i].1)
  {
    var t := ProtocolTable;
    assert forall j :: 0 <= j < i ==> t[j].0 != t[i].0;
    LookupFinds(t, i);
  }

  /** The ranges the game uses, in pixels: 10, 7, 3, 20, 10, 15 and 100 metres; only USB and PLC are wired. */
  lemma ProtocolRanges()
    ensures GetProtocolByName("TSCH").value.range == 500 && GetProtocolByName("TSCH").value.mode == Wireless
    ensures GetProtocolByName("BLE").value.range == 350 && GetProtocolByName("BLE").value.mode == Wireless
    ensures GetProtocolByName("USB").value.range == 150 && GetProtocolByName("USB").value.mode == Wired
    ensures GetProtocolByName("433 MHz").value.range == 1000 && GetProtocolByName("433 MHz").value.mode == Wireless
    ensures GetProtocolByName("PLC").value.range == 500 && GetProtocolByName("PLC").value.mode == Wired
    ensures GetProtocolByName("WiFi").value.range == 750 && GetProtocolByName("WiFi").value.mode == Wireless
    ensures GetProtocolByName("3G").value.range == 5000 && GetProtocolByName("3G").value.mode == Wireless
  {
    ProtocolTableLookup(0);
    ProtocolTableLookup(1);
    ProtocolTableLookup(2);
    ProtocolTableLookup(3);
    ProtocolTableLookup(4);
    ProtocolTableLookup(5);
    ProtocolTableLookup(6);
  }

  /** Every range is positive, so a range check can succeed. */
  lemma RangesPositive(nm: string)
    requires GetProtocolByName(nm).Some?
    ensures GetProtocolByName(nm).value.range > 0
  {
  }

  lemma OptionValues()
    ensures GetOption("startingCredits") == Some(1500)
    ensures GetOption("roomBoundary") == Some(30)
    ensures GetOption("distanceMetersToPixels") == Some(50)
  {
    LookupFinds(OptionTable, 0);
    LookupFinds(OptionTable, 1);
    LookupFinds(OptionTable, 2);
  }
}
