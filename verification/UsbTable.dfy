/** sanei/sanei_usb.c: the table of devices, across scans of the bus. */
module UsbTable {

  const MAX_DEVICES: nat := 100

  /** What identifies a device. */
  datatype Key = Key(access: nat, devname: string, vendor: int, product: int)

  /** missing counts the scans since the device was last seen; handle stands for the pointers of libusb. */
  datatype Device = Device(open: bool, key: Key, handle: int, missing: nat)

  // ---- Storing a device, on the part of the table that is in use ------------------------------

  /** The first slot with that key, or the number of slots. */
  function SlotOf(table: seq<Device>, key: Key): (i: nat)
    ensures i <= |table| && (i < |table| ==> table[i].key == key)
    ensures forall j | 0 <= j < i :: table[j].key != key
  {
    if table == [] || table[0].key == key then 0 else 1 + SlotOf(table[1..], key)
  }

  /** The last slot whose device has been missing for two scans, or the number of slots. */
  function Reusable(table: seq<Device>): (i: nat)
    ensures i <= |table| && (i < |table| ==> table[i].missing >= 2)
    ensures forall j | 0 <= j < |table| && table[j].missing >= 2 :: j <= i < |table|
  {
    if table == [] then 0
    else if table[|table| - 1].missing >= 2 then |table| - 1
    else
      var i := Reusable(table[..|table| - 1]);
      if i == |table| - 1 then |table| else i
  }

  function Stored(table: seq<Device>, device: Device): seq<Device> {
    var known, free := SlotOf(table, device.key), Reusable(table);
    if known < |table| then table[known := table[known].(handle := device.handle, missing := 0)]
    else if free < |table| then table[free := device.(open := false)]
    else if |table| < MAX_DEVICES then table + [device.(open := false)]
    else table
  }

  /** One scan: all devices count as missing once more, and then the reported ones are stored. */
  function Scanned(table: seq<Device>, reports: seq<Device>): seq<Device> {
    StoredAll(Aged(table), reports)
  }

  function Aged(table: seq<Device>): (aged: seq<Device>)
    ensures |aged| == |table|
  {
    seq(|table|, i requires 0 <= i < |table| => table[i].(missing := table[i].missing + 1))
  }

  function StoredAll(table: seq<Device>, reports: seq<Device>): seq<Device>
    decreases |reports|
  {
    if reports == [] then table else StoredAll(Stored(table, reports[0]), reports[1..])
  }

  /** A table: no two slots with the same key, and no more slots than there may be. */
  ghost predicate IsTable(table: seq<Device>) {
    |table| <= MAX_DEVICES && forall i, j | 0 <= i < j < |table| :: table[i].key != table[j].key
  }

  /** Storing keeps a table one, and afterwards the device is in it unless it is full. */
  lemma StoredIsTable(table: seq<Device>, device: Device)
    requires IsTable(table)
    ensures var t := Stored(table, device);
            && IsTable(t) && |table| <= |t|
            && (SlotOf(t, device.key) == |t| ==> t == table && |t| == MAX_DEVICES && forall d | d in t :: d.missing < 2)
  {
    var t := Stored(table, device);
    if SlotOf(table, device.key) == |table| {
      if Reusable(table) < |table| {
        assert t[Reusable(table)].key == device.key;
      } else if |table| < MAX_DEVICES {
        assert t[|table|].key == device.key;
      }
    }
  }

  /** The device that has been stored has the new handle. It is in its old slot, which stays open if it was; or else, as
      a closed one, in the last slot whose device has been missing for two scans; or behind all others if there is no
      such slot. No other slot changes. */
  lemma StoredWhere(table: seq<Device>, device: Device)
    requires IsTable(table)
    ensures var t := Stored(table, device);
            var s := SlotOf(t, device.key);
            && (forall j | 0 <= j < |table| && j != s :: t[j] == table[j]) && |table| <= |t| <= |table| + 1
            && (s < |t| ==>
                  && t[s].handle == device.handle
                  && if exists d | d in table :: d.key == device.key then
                       && s < |table| && table[s].key == device.key
                       && t[s] == table[s].(handle := device.handle, missing := 0)
                     else
                       && t[s] == device.(open := false)
                       && (if s < |table| then table[s].missing >= 2 else s == |table|)
                       && forall j | s < j < |table| :: table[j].missing < 2)
            && ((exists d | d in table :: d.key == device.key || d.missing >= 2) || |table| < MAX_DEVICES ==> s < |t|)
            && (s < |t| && s == |table| ==> forall d | d in table :: d.missing < 2 && d.key != device.key)
  {
    StoredIsTable(table, device);
    var t, known, free := Stored(table, device), SlotOf(table, device.key), Reusable(table);
    var s := SlotOf(t, device.key);
    if known < |table| {
      assert t[known].key == device.key;
    } else if free < |table| {
      assert t[free].key == device.key;
    } else if |table| < MAX_DEVICES {
      assert t[|table|].key == device.key;
    }
  }

  /** A slot whose device has been missing for less than two scans is not given to another device. */
  lemma StoredKeeps(table: seq<Device>, device: Device, i: nat)
    requires IsTable(table) && i < |table| && table[i].missing < 2
    ensures var t := Stored(table, device);
            && |table| <= |t| && t[i].key == table[i].key && t[i].open == table[i].open
            && t[i].missing == if table[i].key == device.key then 0 else table[i].missing
  {
  }

  lemma {:induction false} StoredAllKeeps(table: seq<Device>, reports: seq<Device>, i: nat)
    requires IsTable(table) && i < |table| && table[i].missing < 2
    ensures var t := StoredAll(table, reports);
            && IsTable(t) && |table| <= |t| && t[i].key == table[i].key && t[i].open == table[i].open
            && t[i].missing == if exists d | d in reports :: d.key == table[i].key then 0 else table[i].missing
    decreases |reports|
  {
    if reports != [] {
      var t := Stored(table, reports[0]);
      hide Stored, SlotOf, Reusable, IsTable;
      StoredIsTable(table, reports[0]);
      StoredKeeps(table, reports[0], i);
      StoredAllKeeps(t, reports[1..], i);
      assert reports == [reports[0]] + reports[1..];
    }
  }

  lemma {:induction false} StoredAllIsTable(table: seq<Device>, reports: seq<Device>)
    requires IsTable(table)
    ensures IsTable(StoredAll(table, reports))
    decreases |reports|
  {
    if reports != [] {
      StoredIsTable(table, reports[0]);
      StoredAllIsTable(Stored(table, reports[0]), reports[1..]);
    }
  }

  /** A device that the last scan has seen keeps its slot in the next one, seen or not. */
  lemma ScannedKeeps(table: seq<Device>, reports: seq<Device>, i: nat)
    requires IsTable(table) && i < |table| && table[i].missing == 0
    ensures var t := Scanned(table, reports);
            && IsTable(t) && |table| <= |t| && t[i].key == table[i].key && t[i].open == table[i].open
            && t[i].missing == if exists d | d in reports :: d.key == table[i].key then 0 else 1
  {
    StoredAllKeeps(Aged(table), reports, i);
  }

  function ScannedAll(table: seq<Device>, scans: seq<seq<Device>>): seq<Device>
    decreases |scans|
  {
    if scans == [] then table else ScannedAll(Scanned(table, scans[0]), scans[1..])
  }

  ghost predicate Reports(reports: seq<Device>, key: Key) {
    exists d | d in reports :: d.key == key
  }

  /** A device that is seen in every scan keeps its slot for ever, whatever else comes and goes. */
  lemma {:induction false} SeenDevicesStay(table: seq<Device>, scans: seq<seq<Device>>, i: nat)
    requires IsTable(table) && i < |table| && table[i].missing == 0
    requires forall s | s in scans :: Reports(s, table[i].key)
    ensures var t := ScannedAll(table, scans);
            IsTable(t) && |table| <= |t| && t[i].key == table[i].key && t[i].open == table[i].open && t[i].missing == 0
    decreases |scans|
  {
    if scans != [] {
      assert scans[0] in scans;
      ScannedKeeps(table, scans[0], i);
      SeenDevicesStay(Scanned(table, scans[0]), scans[1..], i);
    }
  }

  lemma AgedIsTable(table: seq<Device>)
    requires IsTable(table)
    ensures IsTable(Aged(table))
  {
    var t := Aged(table);
    assert forall i | 0 <= i < |t| :: t[i].key == table[i].key;
  }

  // ---- The table ----------------------------------------------------------------------------

  class Table {
    const devices: array<Device>
    var deviceNumber: nat

    ghost predicate Valid()
      reads this, devices
    {
      devices.Length == MAX_DEVICES && deviceNumber <= MAX_DEVICES && IsTable(InUse())
    }

    ghost function InUse(): seq<Device>
      reads this, devices
      requires deviceNumber <= devices.Length
    {
      devices[..deviceNumber]
    }

    constructor (blank: Device)
      ensures Valid() && InUse() == [] && fresh(devices)
    {
      devices := new Device[MAX_DEVICES](i => blank);
      deviceNumber := 0;
    }

    /** The loop of store_device: the slot with that key, if there is one, and otherwise the last one that may be
        used again. */
    method FindSlot(key: Key) returns (i: nat, pos: nat)
      requires Valid()
      ensures i == SlotOf(InUse(), key)
      ensures i == deviceNumber ==>
                pos == if Reusable(InUse()) < deviceNumber then Reusable(InUse()) else MAX_DEVICES
    {
      hide IsTable;
      ghost var table := InUse();
      i, pos := 0, MAX_DEVICES;
      while i < deviceNumber
        invariant i <= deviceNumber && SlotOf(table, key) >= i
        invariant pos == if Reusable(table[..i]) < i then Reusable(table[..i]) else MAX_DEVICES
      {
        if devices[i].key == key {
          return;
        }
        if devices[i].missing >= 2 {
          pos := i;
        }
        assert table[..i + 1][..i] == table[..i];
        i := i + 1;
      }
      assert table[..deviceNumber] == table;
    }

    /** store_device. */
    method StoreDevice(device: Device)
      requires Valid()
      modifies this, devices
      ensures Valid() && InUse() == Stored(old(InUse()), device)
    {
      hide IsTable, SlotOf, Reusable;
      ghost var table := InUse();
      StoredIsTable(table, device);
      var i, pos := FindSlot(device.key);
      if i < deviceNumber {
        devices[i] := devices[i].(handle := device.handle, missing := 0);
        assert InUse() == Stored(table, device);
        return;
      }
      if pos == MAX_DEVICES {
        if deviceNumber >= MAX_DEVICES {
          return;
        }
        pos := deviceNumber;
        deviceNumber := deviceNumber + 1;
      }
      devices[pos] := device.(open := false);
      assert InUse() == Stored(table, device);
    }

    /** The step of sanei_usb_init that counts every device as missing. */
    method Age()
      requires Valid()
      modifies devices
      ensures Valid() && InUse() == Aged(old(InUse()))
    {
      hide IsTable;
      for i := 0 to deviceNumber
        invariant InUse()[..i] == Aged(old(InUse()))[..i] && InUse()[i..] == old(InUse())[i..]
      {
        devices[i] := devices[i].(missing := devices[i].missing + 1);
      }
      AgedIsTable(old(InUse()));
      assert InUse() == Aged(old(InUse()));
    }

    /** One scan of sanei_usb_init. */
    method Rescan(reports: seq<Device>)
      requires Valid()
      modifies this, devices
      ensures Valid() && InUse() == Scanned(old(InUse()), reports)
    {
      Age();
      ghost var aged := InUse();
      assert reports[0..] == reports;
      for i := 0 to |reports|
        invariant Valid() && StoredAll(InUse(), reports[i..]) == StoredAll(aged, reports)
      {
        assert reports[i..][1..] == reports[i + 1..];
        StoreDevice(reports[i]);
      }
    }
  }
}
