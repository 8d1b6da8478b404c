/** Interface discovery and classification (internal/nic/nic.go).  The
    host's filesystem and the ethtool commands are read through a `Host`
    value: one oracle per file or command, keyed by interface name. */
module Nic {
  import opened Common
  import opened GoText
  import opened Ethtool

  /** The link types ringbuffer.go distinguishes (its NICType* constants). */
  datatype LinkType = Ethernet | Infiniband | Unknown

  /** A sysfs attribute: os.Stat fails, os.Stat succeeds but os.ReadFile
      fails, or the file's contents. */
  datatype SysFile = Absent | Unreadable | Data(text: string)

  /** Everything discovery reads from the host. */
  datatype Host = Host(
    netDir: Option<seq<string>>,     // os.ReadDir("/sys/class/net"), in the listing's order (sorted by name); None when it fails
    isVirtual: string -> bool,       // /sys/devices/virtual/net/<name> exists
    hasDevice: string -> bool,       // /sys/class/net/<name>/device exists
    driverInfo: string -> Command,   // `ethtool -i <name>`
    linkInfo: string -> Command,     // `ethtool <name>`
    ringInfo: string -> Command,     // `ethtool -g <name>`
    speedFile: string -> SysFile,    // /sys/class/net/<name>/speed
    addressFile: string -> SysFile,  // /sys/class/net/<name>/address
    linkType: string -> LinkType)    // the link type of each interface

  /** The fields of one NIC record, as a value. */
  datatype NicRecord = NicRecord(
    name: string, speed: int, driver: string, mac: string,
    rxCurrent: int, txCurrent: int, rxMax: int, txMax: int,
    isPhysical: bool, isOptimal: bool, linkType: LinkType)

  /** nic.go's NIC record.  Discovery fills it field by field and the
      optimizer later updates its ring fields in place, through the pointer
      every list holds. */
  class NIC {
    var name: string
    var speed: int
    var driver: string
    var mac: string
    var rxCurrent: int
    var txCurrent: int
    var rxMax: int
    var txMax: int
    var isPhysical: bool
    var isOptimal: bool
    var linkType: LinkType

    /** `&NIC{Name: iface, IsPhysical: true}`, with the link type given. */
    constructor (name: string, linkType: LinkType)
      ensures View() == NicRecord(name, 0, "", "", 0, 0, 0, 0, true, false, linkType)
    {
      this.name := name;
      speed := 0;
      driver := "";
      mac := "";
      rxCurrent, txCurrent, rxMax, txMax := 0, 0, 0, 0;
      isPhysical := true;
      isOptimal := false;
      this.linkType := linkType;
    }

    function View(): NicRecord
      reads this
    {
      NicRecord(name, speed, driver, mac, rxCurrent, txCurrent, rxMax, txMax, isPhysical, isOptimal, linkType)
    }
  }

  /** The records a list of NICs currently holds. */
  function Views(nics: seq<NIC>): (vs: seq<NicRecord>)
    reads set i | 0 <= i < |nics| :: nics[i]
    ensures |vs| == |nics| && forall i :: 0 <= i < |nics| ==> vs[i] == nics[i].View()
  {
    seq(|nics|, i reads set i | 0 <= i < |nics| :: nics[i] requires 0 <= i < |nics| => nics[i].View())
  }

  predicate Distinct(nics: seq<NIC>) {
    forall a, b :: 0 <= a < b < |nics| ==> nics[a] != nics[b]
  }

  // ---------------------------------------------------------------------
  // GetAllInterfaces

  const Loopback: string := "lo"

  /** The directory entries without the loopback device. */
  function WithoutLoopback(names: seq<string>): seq<string> {
    if names == [] then []
    else
      var n := |names| - 1;
      WithoutLoopback(names[..n]) + (if names[n] != Loopback then [names[n]] else [])
  }

  /** Exactly the name `lo` is dropped: every other name (`lo0` too) stays,
      as often as it occurs, and in the listing's order (sorted by name). */
  lemma {:induction false} WithoutLoopbackKeeps(names: seq<string>)
    ensures multiset(WithoutLoopback(names)) == multiset(names)[Loopback := 0]
    decreases |names|
  {
    if names != [] {
      var n := |names| - 1;
      WithoutLoopbackKeeps(names[..n]);
      assert names == names[..n] + [names[n]];
      assert multiset(names) == multiset(names[..n]) + multiset{names[n]};
    }
  }

  /** Every interface but the loopback one is listed, and only those. */
  lemma WithoutLoopbackMembers(names: seq<string>)
    ensures forall x :: x in WithoutLoopback(names) <==> x in names && x != Loopback
  {
    WithoutLoopbackKeeps(names);
    forall x
      ensures x in WithoutLoopback(names) <==> x in names && x != Loopback
    {
      assert x in WithoutLoopback(names) <==> x in multiset(WithoutLoopback(names));
      assert x in names <==> x in multiset(names);
    }
  }

  /** Filtering commutes with concatenation, so the order of the directory
      listing is kept. */
  lemma {:induction false} WithoutLoopbackAppend(a: seq<string>, b: seq<string>)
    ensures WithoutLoopback(a + b) == WithoutLoopback(a) + WithoutLoopback(b)
    decreases |b|
  {
    if b == [] {
      assert a + b == a;
    } else {
      var n := |b| - 1;
      WithoutLoopbackAppend(a, b[..n]);
      assert (a + b)[..|a + b| - 1] == a + b[..n];
    }
  }

  /** nic.go's GetAllInterfaces. */
  method GetAllInterfaces(host: Host) returns (r: Result<seq<string>>)
    ensures host.netDir.None? ==> r == Err(ReadDirFailed)
    ensures host.netDir.Some? ==> r == Ok(WithoutLoopback(host.netDir.value))
  {
    if host.netDir.None? {
      return Err(ReadDirFailed);
    }
    var files := host.netDir.value;
    var interfaces: seq<string> := [];
    var i := 0;
    while i < |files|
      invariant 0 <= i <= |files|
      invariant interfaces == WithoutLoopback(files[..i])
    {
      var name := files[i];
      assert files[..i + 1][..i] == files[..i];
      if name != Loopback {
        interfaces := interfaces + [name];
      }
      i := i + 1;
    }
    assert files[..|files|] == files;
    return Ok(interfaces);
  }

  // ---------------------------------------------------------------------
  // Per-interface queries

  /** nic.go's IsPhysicalNIC: a virtual-device entry says virtual whatever
      else holds; otherwise a device link says physical; otherwise the
      interface is physical exactly when ethtool names its driver. */
  function IsPhysicalNIC(host: Host, name: string): (physical: bool)
    ensures physical ==> !host.isVirtual(name)
    ensures physical ==> host.hasDevice(name) || host.driverInfo(name).Ran?
    ensures !host.isVirtual(name) && host.hasDevice(name) ==> physical
  {
    if host.isVirtual(name) then false
    else if host.hasDevice(name) then true
    else DriverResult(name, host.driverInfo(name)).Ok?
  }

  /** The checks of IsPhysicalNIC take effect in order: a virtual-device
      entry always wins, then a device link; an interface with neither is
      physical exactly when `ethtool -i` ran and printed a `driver:` line. */
  lemma PhysicalPrecedence(host: Host, name: string)
    ensures host.isVirtual(name) ==> !IsPhysicalNIC(host, name)
    ensures !host.isVirtual(name) && host.hasDevice(name) ==> IsPhysicalNIC(host, name)
    ensures !host.isVirtual(name) && !host.hasDevice(name) ==>
      (IsPhysicalNIC(host, name) <==>
         (host.driverInfo(name).Ran?
          && exists i :: 0 <= i < |host.driverInfo(name).lines| && IsDriverLine(host.driverInfo(name).lines[i])))
  {
    if host.driverInfo(name).Ran? {
      DriverOfFirstLine(host.driverInfo(name).lines);
    }
  }

  /** nic.go's GetNICSpeed: ethtool's value when it answers with a positive
      number, otherwise the sysfs `speed` attribute read with "%d" (no sign
      check there: the kernel writes -1 for a link that is down). */
  function GetNICSpeed(host: Host, name: string): (r: Result<int>)
    ensures r.Err? ==> r.error == SpeedUndetermined(name)
    ensures r.Ok? ==> MinInt64 <= r.value <= MaxInt64
    ensures r.Ok? && r.value <= 0 ==> host.speedFile(name).Data?
  {
    var fromEthtool := SpeedResult(name, host.linkInfo(name));
    if fromEthtool.Ok? && fromEthtool.value > 0 then
      SpeedInRange(host.linkInfo(name).lines);
      fromEthtool
    else
      match host.speedFile(name)
      case Data(text) =>
        (match ScanfInt(TrimSpace(text))
         case Some(v) => Ok(v)
         case None => Err(SpeedUndetermined(name)))
      case _ => Err(SpeedUndetermined(name))
  }

  /** The fallback order of GetNICSpeed: a positive ethtool speed always
      wins; the sysfs value is used otherwise, and the query fails only when
      both sources fail. */
  lemma SpeedFallback(host: Host, name: string)
    ensures var e := SpeedResult(name, host.linkInfo(name));
      e.Ok? && e.value > 0 ==> GetNICSpeed(host, name) == e
    ensures var e := SpeedResult(name, host.linkInfo(name));
      (e.Err? || e.value <= 0) ==>
        (GetNICSpeed(host, name).Ok? <==> host.speedFile(name).Data? && ScanfInt(TrimSpace(host.speedFile(name).text)).Some?)
    ensures var e := SpeedResult(name, host.linkInfo(name));
      !(e.Ok? && e.value > 0) && host.speedFile(name).Data? && ScanfInt(TrimSpace(host.speedFile(name).text)).Some? ==>
        GetNICSpeed(host, name) == Ok(ScanfInt(TrimSpace(host.speedFile(name).text)).value)
    ensures GetNICSpeed(host, name).Err? ==> GetNICSpeed(host, name).error == SpeedUndetermined(name)
  {
    var e := SpeedResult(name, host.linkInfo(name));
    if !(e.Ok? && e.value > 0) {
      match host.speedFile(name)
      case Data(text) =>
        assert GetNICSpeed(host, name) == if ScanfInt(TrimSpace(text)).Some? then Ok(ScanfInt(TrimSpace(text)).value)
          else Err(SpeedUndetermined(name));
      case _ =>
        assert GetNICSpeed(host, name) == Err(SpeedUndetermined(name));
    }
  }

  /** nic.go's GetNICMAC: the `address` file with white space trimmed. */
  function GetNICMAC(host: Host, name: string): (r: Result<string>)
    ensures r.Ok? <==> host.addressFile(name).Data?
    ensures r.Err? ==> r.error == FileReadFailed
    ensures r.Ok? ==> |r.value| <= |host.addressFile(name).text|
  {
    match host.addressFile(name)
    case Data(text) => Ok(TrimSpace(text))
    case _ => Err(FileReadFailed)
  }

  /** GetNICMAC fails exactly when the `address` file cannot be read, and
      otherwise returns a contiguous part of the file's text, with only
      white space cut from either end. */
  lemma MacIsTrimmedText(host: Host, name: string)
    ensures GetNICMAC(host, name).Ok? <==> host.addressFile(name).Data?
    ensures GetNICMAC(host, name).Err? ==> GetNICMAC(host, name).error == FileReadFailed
    ensures host.addressFile(name).Data? ==> IsTrimOf(GetNICMAC(host, name).value, host.addressFile(name).text)
  {
    match host.addressFile(name)
    case Data(text) =>
      assert GetNICMAC(host, name) == Ok(TrimSpace(text));
      TrimSpaceIsSlice(text);
    case _ =>
  }

  // ---------------------------------------------------------------------
  // GetHighSpeedNICs

  /** The speed discovery records: 0 when GetNICSpeed fails. */
  function SpeedOrZero(host: Host, name: string): int {
    var r := GetNICSpeed(host, name);
    if r.Ok? then r.value else 0
  }

  /** Whether discovery keeps an interface. */
  predicate Kept(host: Host, minSpeed: int, name: string) {
    IsPhysicalNIC(host, name) && SpeedOrZero(host, name) >= minSpeed
  }

  /** The record discovery builds for a kept interface before the ring
      query: every failed query leaves its field at the zero value. */
  function Identified(host: Host, name: string): NicRecord {
    var mac := GetNICMAC(host, name);
    var driver := DriverResult(name, host.driverInfo(name));
    NicRecord(name, SpeedOrZero(host, name),
              if driver.Ok? then driver.value else "",
              if mac.Ok? then mac.value else "",
              0, 0, 0, 0, true, false, host.linkType(name))
  }

  /** A record after the ring query: the four sizes are set together, with
      isOptimal, only when `ethtool -g` ran. */
  function WithRing(v: NicRecord, out: Command): NicRecord {
    match out
    case Failed => v
    case Ran(lines) =>
      var ring := Scan(lines).ring;
      v.(rxCurrent := ring.rxCur, txCurrent := ring.txCur, rxMax := ring.rxMax, txMax := ring.txMax,
         isOptimal := ring.rxCur == ring.rxMax && ring.txCur == ring.txMax)
  }

  /** The full record discovery builds for a kept interface. */
  function Enriched(host: Host, name: string): NicRecord {
    WithRing(Identified(host, name), host.ringInfo(name))
  }

  /** The records of the kept interfaces, in list order. */
  function Records(host: Host, minSpeed: int, names: seq<string>): seq<NicRecord> {
    if names == [] then []
    else
      var n := |names| - 1;
      Records(host, minSpeed, names[..n])
        + (if Kept(host, minSpeed, names[n]) then [Enriched(host, names[n])] else [])
  }

  /** What GetHighSpeedNICs returns, as records: an error only when the
      interface directory cannot be listed. */
  function Discover(host: Host, minSpeed: int): Result<seq<NicRecord>> {
    match host.netDir
    case None => Err(ReadDirFailed)
    case Some(names) => Ok(Records(host, minSpeed, WithoutLoopback(names)))
  }

  /** isOptimal says the current sizes equal the maxima on both axes; it
      holds exactly then when the ring query ran, and is false otherwise. */
  predicate OptimalIsExact(v: NicRecord) {
    v.isOptimal ==> v.rxCurrent == v.rxMax && v.txCurrent == v.txMax
  }

  /** Every record discovery builds names its interface, is physical, has a
      speed of at least the threshold and the interface's link type; its
      ring fields come from `ethtool -g` together or not at all. */
  lemma EnrichedFields(host: Host, minSpeed: int, name: string)
    requires Kept(host, minSpeed, name)
    ensures var v := Enriched(host, name);
      v.name == name && v.isPhysical && v.speed >= minSpeed && v.linkType == host.linkType(name)
      && OptimalIsExact(v)
      && (host.ringInfo(name).Failed? ==> v.rxCurrent == v.txCurrent == v.rxMax == v.txMax == 0 && !v.isOptimal)
      && (host.ringInfo(name).Ran? ==>
            Ethtool.Ring(v.rxCurrent, v.txCurrent, v.rxMax, v.txMax) == Scan(host.ringInfo(name).lines).ring
            && (v.isOptimal <==> v.rxCurrent == v.rxMax && v.txCurrent == v.txMax))
      && (GetNICMAC(host, name).Err? ==> v.mac == "")
      && (DriverResult(name, host.driverInfo(name)).Err? ==> v.driver == "")
  {
  }

  /** Discovery keeps exactly the physical interfaces whose speed reaches
      the threshold, in list order: a record per kept name and no other. */
  lemma {:induction false} RecordsAreKept(host: Host, minSpeed: int, names: seq<string>)
    ensures |Records(host, minSpeed, names)| <= |names|
    ensures forall v :: v in Records(host, minSpeed, names) <==>
      exists x :: x in names && Kept(host, minSpeed, x) && v == Enriched(host, x)
    decreases |names|
  {
    if names != [] {
      var n := |names| - 1;
      RecordsAreKept(host, minSpeed, names[..n]);
      assert names == names[..n] + [names[n]];
      forall v | v in Records(host, minSpeed, names)
        ensures exists x :: x in names && Kept(host, minSpeed, x) && v == Enriched(host, x)
      {
        if v !in Records(host, minSpeed, names[..n]) {
          assert v == Enriched(host, names[n]) && Kept(host, minSpeed, names[n]);
        }
      }
    }
  }

  /** Discovery is order-preserving: the records of a concatenation are the
      records of each part, one after the other. */
  lemma {:induction false} RecordsAppend(host: Host, minSpeed: int, a: seq<string>, b: seq<string>)
    ensures Records(host, minSpeed, a + b) == Records(host, minSpeed, a) + Records(host, minSpeed, b)
    decreases |b|
  {
    if b == [] {
      assert a + b == a;
    } else {
      var n := |b| - 1;
      RecordsAppend(host, minSpeed, a, b[..n]);
      assert (a + b)[..|a + b| - 1] == a + b[..n];
      var last := if Kept(host, minSpeed, b[n]) then [Enriched(host, b[n])] else [];
      assert Records(host, minSpeed, b) == Records(host, minSpeed, b[..n]) + last;
      assert Records(host, minSpeed, a + b) == Records(host, minSpeed, a + b[..n]) + last;
    }
  }

  /** The body of GetHighSpeedNICs' loop for one interface: a fresh NIC
      when the interface is kept, filled field by field; a failed MAC,
      driver or ring query only leaves that field at its zero value. */
  method Examine(host: Host, minSpeed: int, iface: string) returns (found: Option<NIC>)
    ensures found.Some? <==> Kept(host, minSpeed, iface)
    ensures found.Some? ==> fresh(found.value) && found.value.View() == Enriched(host, iface)
  {
    if !IsPhysicalNIC(host, iface) {
      return None;
    }
    var nic := new NIC(iface, host.linkType(iface));

    var speed := GetNICSpeed(host, iface);
    if speed.Ok? {
      nic.speed := speed.value;
    }
    assert nic.speed == SpeedOrZero(host, iface);
    if nic.speed < minSpeed {
      return None;
    }

    FillMAC(nic, host, iface);
    FillDriver(nic, host, iface);
    assert nic.View() == Identified(host, iface);
    FillRing(nic, host.ringInfo(iface));
    return Some(nic);
  }

  /** The MAC part of discovery: the field is set only when the `address`
      file can be read. */
  method FillMAC(nic: NIC, host: Host, iface: string)
    modifies nic
    ensures var mac := GetNICMAC(host, iface);
      nic.View() == old(nic.View()).(mac := if mac.Ok? then mac.value else old(nic.mac))
  {
    var mac := GetNICMAC(host, iface);
    if mac.Ok? {
      nic.mac := mac.value;
    }
  }

  /** The driver part of discovery: the field is set only when
      GetDriverInfo succeeds. */
  method FillDriver(nic: NIC, host: Host, iface: string)
    modifies nic
    ensures var driver := DriverResult(iface, host.driverInfo(iface));
      nic.View() == old(nic.View()).(driver := if driver.Ok? then driver.value else old(nic.driver))
  {
    var driver := GetDriverInfo(iface, host.driverInfo(iface));
    if driver.Ok? {
      nic.driver := driver.value;
    }
  }

  /** The ring part of discovery: the four sizes and isOptimal are set
      together, and only when `ethtool -g` ran. */
  method FillRing(nic: NIC, out: Command)
    modifies nic
    ensures nic.View() == WithRing(old(nic.View()), out)
  {
    var rxCur, txCur, rxMax, txMax, err := GetRingBufferSettings(out);
    if err.None? {
      nic.rxCurrent := rxCur;
      nic.txCurrent := txCur;
      nic.rxMax := rxMax;
      nic.txMax := txMax;
      nic.isOptimal := rxCur == rxMax && txCur == txMax;
    }
  }

  /** nic.go's GetHighSpeedNICs: one fresh NIC per kept interface, in
      the listing's order (sorted by name). */
  method GetHighSpeedNICs(host: Host, minSpeed: int) returns (r: Result<seq<NIC>>)
    ensures r.Err? <==> Discover(host, minSpeed).Err?
    ensures r.Err? ==> r.error == ReadDirFailed
    ensures r.Ok? ==> Views(r.value) == Discover(host, minSpeed).value
    ensures r.Ok? ==> Distinct(r.value) && forall i :: 0 <= i < |r.value| ==> fresh(r.value[i])
  {
    var listed := GetAllInterfaces(host);
    if listed.Err? {
      return Err(listed.error);
    }
    var nics := CollectNICs(host, minSpeed, listed.value);
    return Ok(nics);
  }

  /** The loop of GetHighSpeedNICs: one fresh record per kept interface, in
      the listing's order (sorted by name). */
  method CollectNICs(host: Host, minSpeed: int, interfaces: seq<string>) returns (nics: seq<NIC>)
    ensures Views(nics) == Records(host, minSpeed, interfaces)
    ensures Distinct(nics) && forall i :: 0 <= i < |nics| ==> fresh(nics[i])
  {
    nics := [];
    ghost var vs: seq<NicRecord> := [];
    var i := 0;
    while i < |interfaces|
      invariant 0 <= i <= |interfaces|
      invariant vs == Records(host, minSpeed, interfaces[..i])
      invariant |nics| == |vs| && forall k :: 0 <= k < |nics| ==> nics[k].View() == vs[k]
      invariant Distinct(nics) && forall k :: 0 <= k < |nics| ==> fresh(nics[k])
    {
      var iface := interfaces[i];
      assert interfaces[..i + 1][..i] == interfaces[..i];
      var found := Examine(host, minSpeed, iface);
      if found.Some? {
        nics := nics + [found.value];
        vs := vs + [found.value.View()];
      }
      i := i + 1;
    }
    assert interfaces[..|interfaces|] == interfaces;
    assert Views(nics) == vs;
  }

}
