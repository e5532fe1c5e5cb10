/** The device registry: a list searched by name prefix. */
module Registry {
  import opened Text
  import opened IntrusiveList

  const LDAL_NAME_MAX := 32
  const LDAL_EOK := 0
  const LDAL_ERROR := 1
  const LDAL_EINVAL := 10

  // ----- Names -----

  /** What is in the name buffer after `memcpy(device->name, name, strlen(name))`. */
  function Overwritten(buffer: seq<byte>, name: seq<byte>): seq<byte>
    requires |name| <= |buffer|
  {
    name + buffer[|name|..]
  }

  /** `strncmp(a, name, strlen(name)) == 0`: the name is a prefix of the C string `a`. */
  method StrnCmpEqual(a: seq<byte>, name: seq<byte>) returns (same: bool)
    requires NulFree(name)
    ensures same <==> name <= UpToNul(a)
  {
    var i := 0;
    while i < |name|
      invariant 0 <= i <= |name| && i <= |UpToNul(a)| && name[..i] == UpToNul(a)[..i]
    {
      if At(a, i) != name[i] {
        StrnCmpDiffers(a, name, i);
        return false;
      }
      StrnCmpAgrees(a, i);
      i := i + 1;
    }
    return true;
  }

  lemma StrnCmpAgrees(a: seq<byte>, i: nat)
    requires i <= |UpToNul(a)| && At(a, i) != 0
    ensures i < |UpToNul(a)| && UpToNul(a)[i] == a[i]
  {
  }

  lemma StrnCmpDiffers(a: seq<byte>, name: seq<byte>, i: nat)
    requires i < |name| && name[i] != 0 && i <= |UpToNul(a)| && At(a, i) != name[i]
    ensures !(name <= UpToNul(a))
  {
    assert i < |UpToNul(a)| ==> UpToNul(a)[i] == a[i];
  }

  /** The first of some names that starts with `name`. */
  function Find(names: seq<seq<byte>>, name: seq<byte>): (r: Option<nat>)
    ensures r.Some? ==> r.value < |names| && name <= names[r.value]
    ensures r.Some? ==> forall i :: 0 <= i < r.value ==> !(name <= names[i])
    ensures r.None? ==> forall i :: 0 <= i < |names| ==> !(name <= names[i])
  {
    if names == [] then None
    else if name <= names[0] then Some(0)
    else
      match Find(names[1..], name)
      case Some(i) =>
        assert forall j :: 0 < j < i + 1 ==> names[j] == names[1..][j - 1];
        Some(i + 1)
      case None =>
        assert forall j :: 0 < j < |names| ==> names[j] == names[1..][j - 1];
        None
  }

  /** No later name is a prefix of an earlier one. */
  ghost predicate Ordered(names: seq<seq<byte>>) {
    forall i, j :: 0 <= i < j < |names| ==> !(names[j] <= names[i])
  }

  lemma PrefixTransitive(a: seq<byte>, b: seq<byte>, c: seq<byte>)
    requires a <= b && b <= c
    ensures a <= c
  {
    assert a == b[..|a|] == c[..|b|][..|a|] == c[..|a|];
  }

  /** A name the lookup did not answer for keeps the order, even when the buffer it was copied into
      held a longer name. */
  lemma OrderedAppend(names: seq<seq<byte>>, name: seq<byte>, stored: seq<byte>)
    requires Ordered(names) && Find(names, name).None? && name <= stored
    ensures Ordered(names + [stored])
  {
    forall i | 0 <= i < |names| ensures !(stored <= names[i]) {
      if stored <= names[i] {
        PrefixTransitive(name, stored, names[i]);
        assert false;
      }
    }
  }

  lemma OrderedRemove(names: seq<seq<byte>>, k: nat)
    requires Ordered(names) && k < |names|
    ensures Ordered(names[..k] + names[k + 1..])
  {
    var after := names[..k] + names[k + 1..];
    forall i, j | 0 <= i < j < |after| ensures !(after[j] <= after[i]) {
      assert after[i] == names[if i < k then i else i + 1];
      assert after[j] == names[if j < k then j else j + 1];
    }
  }

  /** In an ordered registry the prefix search finds every device under its own full name, and no two
      devices share one. */
  lemma ExactLookup(names: seq<seq<byte>>, i: nat)
    requires Ordered(names) && i < |names|
    ensures Find(names, names[i]) == Some(i)
    ensures forall j :: 0 <= j < |names| && names[j] == names[i] ==> j == i
  {
    assert names[i] <= names[i];
    var r := Find(names, names[i]);
    assert r.Some? && r.value <= i;
    forall j | 0 <= j < |names| && names[j] == names[i] ensures j == i {
      assert names[j] <= names[i] && names[i] <= names[j];
    }
  }

  /** What the registered device is called: the name asked for exactly when the buffer held a zero
      where that name ends, and a longer name otherwise. */
  lemma StoredName(buffer: seq<byte>, name: seq<byte>)
    requires NulFree(name) && |name| < |buffer|
    ensures name <= UpToNul(Overwritten(buffer, name))
    ensures UpToNul(Overwritten(buffer, name)) == name <==> buffer[|name|] == 0
  {
    var s := Overwritten(buffer, name);
    assert s[..|name|] == name && s[|name|] == buffer[|name|];
    UpToNulReaches(s, |name|);
    if buffer[|name|] == 0 {
      UpToNulAt(s, |name|);
    }
  }

  lemma {:induction false} UpToNulReaches(s: seq<byte>, n: nat)
    requires n <= |s| && NulFree(s[..n])
    ensures s[..n] <= UpToNul(s)
    decreases n
  {
    if n > 0 {
      assert s[..n][0] == s[0] && s[1..][..n - 1] == s[..n][1..];
      UpToNulReaches(s[1..], n - 1);
    }
  }

  /** Right after a registration the name asked for finds the new device. */
  lemma RegisteredIsFound(names: seq<seq<byte>>, name: seq<byte>, stored: seq<byte>)
    requires Find(names, name).None? && name <= stored
    ensures Find(names + [stored], name) == Some(|names|)
  {
    var all := names + [stored];
    assert all[|names|] == stored;
    assert forall i :: 0 <= i < |names| ==> all[i] == names[i];
  }

  /** What a registration or an unregistration does to the names. */
  datatype Change = Added(name: seq<byte>) | Deleted(index: nat)

  function Apply(names: seq<seq<byte>>, change: Change): seq<seq<byte>> {
    match change
    case Added(name) => if Find(names, name).None? then names + [name] else names
    case Deleted(k) => if k < |names| then names[..k] + names[k + 1..] else names
  }

  function Registered(changes: seq<Change>): seq<seq<byte>> {
    if changes == [] then []
    else Apply(Registered(changes[..|changes| - 1]), changes[|changes| - 1])
  }

  /** After every run of registrations with zeroed name buffers and unregistrations, each device is
      found under its own full name and under no other device's. */
  lemma {:induction false} EveryRun(changes: seq<Change>)
    ensures Ordered(Registered(changes))
    ensures forall i :: 0 <= i < |Registered(changes)| ==> Find(Registered(changes), Registered(changes)[i]) == Some(i)
  {
    hide Find, Ordered;
    NoneOrdered();
    if changes != [] {
      var names, last := Registered(changes[..|changes| - 1]), changes[|changes| - 1];
      EveryRun(changes[..|changes| - 1]);
      match last {
        case Added(name) =>
          if Find(names, name).None? {
            OrderedAppend(names, name, name);
          }
        case Deleted(k) =>
          if k < |names| {
            OrderedRemove(names, k);
          }
      }
    }
    forall i | 0 <= i < |Registered(changes)| ensures Find(Registered(changes), Registered(changes)[i]) == Some(i) {
      ExactLookup(Registered(changes), i);
    }
  }

  lemma NoneOrdered()
    ensures Ordered([])
  {
  }

  // ----- Devices -----

  class Device {
    var name: seq<byte>
    var isInit: bool
    var ref: nat
    const list: ListHead

    /** As `calloc` leaves it. */
    constructor ()
      ensures Sound() && name == seq(32, _ => 0) && ref == 0 && !isInit
      ensures fresh(list)
    {
      name := seq(LDAL_NAME_MAX, _ => 0);
      isInit, ref := false, 0;
      list := new ListHead();
      new;
      list.container := this;
    }

    predicate Sound()
      reads this, list`container
    {
      |name| == LDAL_NAME_MAX && name[LDAL_NAME_MAX - 1] == 0 && list.container == this
    }
  }

  ghost function Nodes(devices: seq<Device>): (nodes: seq<ListHead>)
    ensures |nodes| == |devices|
  {
    if devices == [] then [] else Nodes(devices[..|devices| - 1]) + [devices[|devices| - 1].list]
  }

  ghost function Names(devices: seq<Device>): (names: seq<seq<byte>>)
    reads devices`name
    ensures |names| == |devices|
  {
    if devices == [] then [] else Names(devices[..|devices| - 1]) + [UpToNul(devices[|devices| - 1].name)]
  }

  ghost predicate AllSound(devices: seq<Device>)
    reads devices, set d | d in devices :: d.list
  {
    forall d :: d in devices ==> d.Sound()
  }

  lemma {:induction false} Entry(devices: seq<Device>, i: nat)
    requires i < |devices|
    ensures Names(devices)[i] == UpToNul(devices[i].name) && Nodes(devices)[i] == devices[i].list
    decreases |devices|
  {
    if i < |devices| - 1 {
      Entry(devices[..|devices| - 1], i);
    }
  }

  lemma Appended(devices: seq<Device>, device: Device)
    ensures Names(devices + [device]) == Names(devices) + [UpToNul(device.name)]
    ensures Nodes(devices + [device]) == Nodes(devices) + [device.list]
  {
    assert (devices + [device])[..|devices|] == devices;
  }

  lemma {:induction false} Removed(devices: seq<Device>, k: nat)
    requires k < |devices|
    ensures Names(devices[..k] + devices[k + 1..]) == Names(devices)[..k] + Names(devices)[k + 1..]
    ensures Nodes(devices[..k] + devices[k + 1..]) == Without(Nodes(devices), k)
    decreases |devices|
  {
    hide Names, Nodes, UpToNul;
    var before, last := devices[..|devices| - 1], devices[|devices| - 1];
    assert devices == before + [last];
    Appended(before, last);
    if k == |before| {
      assert devices[..k] + devices[k + 1..] == before;
    } else {
      Removed(before, k);
      var less := before[..k] + before[k + 1..];
      assert devices[..k] + devices[k + 1..] == less + [last];
      Appended(less, last);
      TailKept(Names(before), UpToNul(last.name), k);
      TailKept(Nodes(before), last.list, k);
    }
  }

  lemma TailKept<T>(s: seq<T>, last: T, k: nat)
    requires k < |s|
    ensures (s[..k] + s[k + 1..]) + [last] == (s + [last])[..k] + (s + [last])[k + 1..]
  {
  }

  lemma FindIs(names: seq<seq<byte>>, name: seq<byte>, i: nat)
    requires i < |names| && name <= names[i]
    requires forall j :: 0 <= j < i ==> !(name <= names[j])
    ensures Find(names, name) == Some(i)
  {
  }

  // ----- The registry -----

  class DeviceList {
    const head: ListHead
    var deviceNum: nat
    ghost var devices: seq<Device>
    ghost var nodes: seq<ListHead>

    constructor ()
      ensures Valid() && devices == [] && fresh(head)
    {
      head := new ListHead();
      deviceNum := 0;
      devices, nodes := [], [];
      new;
      InitListHead(head);
    }

    /** The list holds the registered devices in order, the count is their number as far as sixteen
        bits go, and no later name is a prefix of an earlier one. */
    ghost predicate Valid()
      reads this, head, devices, nodes, set d | d in devices :: d.list
    {
      && nodes == Nodes(devices) && Cycle(head, nodes)
      && AllSound(devices)
      && deviceNum == |devices| % 0x1_0000
      && Ordered(Names(devices))
    }

    /** `ldal_device_get_by_name`. */
    method GetByName(name: seq<byte>) returns (device: Device?)
      requires Valid() && NulFree(name)
      ensures match Find(Names(devices), name)
              case Some(i) => device == devices[i]
              case None => device == null
    {
      ghost var i := 0;
      assert Stop(head, nodes, 0).next == Stop(head, nodes, 0 + 1);
      var pos := head.next;
      while pos != head
        invariant 0 <= i <= |nodes| && pos == Stop(head, nodes, i + 1)
        invariant forall j :: 0 <= j < i ==> !(name <= Names(devices)[j])
        decreases |nodes| - i
      {
        Entry(devices, i);
        assert pos == devices[i].list && devices[i].Sound();
        device := pos.container as Device;
        var same := StrnCmpEqual(device.name, name);
        if same {
          FindIs(Names(devices), name, i);
          return;
        }
        assert Stop(head, nodes, i + 1).next == Stop(head, nodes, i + 1 + 1);
        pos := pos.next;
        i := i + 1;
      }
      device := null;
    }

    /** `ldal_device_register`, which returns `LDAL_EOK` whatever happens; `classKnown` says that
        the device class could be found or set up. */
    method Register(device: Device, name: seq<byte>, classKnown: bool) returns (status: int)
      requires Valid() && NulFree(name) && |name| < LDAL_NAME_MAX
      requires device.Sound() && device.list != head
      requires Find(Names(devices), name).None? && classKnown ==> device !in devices
      modifies this`deviceNum, this`devices, this`nodes, device, device.list`next, device.list`prev
      modifies head`next, head`prev, nodes`next, nodes`prev
      ensures Valid() && status == 0
      ensures var found := Find(old(Names(devices)), name);
              && device.isInit == (found.None? && classKnown)
              && devices == (if device.isInit then old(devices) + [device] else old(devices))
              && device.name == (if device.isInit then Overwritten(old(device.name), name) else old(device.name))
              && (device.isInit ==> device.ref == 0)
      ensures Names(old(devices)) == old(Names(devices))
    {
      hide UpToNul, Ordered, Overwritten, Find, Names, Nodes;
      var known := GetByName(name);
      if known != null || !classKnown {
        device.isInit := false;
        return LDAL_EOK;
      }
      ghost var names := Names(devices);
      StoredName(device.name, name);
      OrderedAppend(names, name, UpToNul(Overwritten(device.name, name)));
      SoundName(device.name, name);
      device.name := Overwritten(device.name, name);
      device.ref := 0;
      device.isInit := true;
      assert Names(devices) == names;
      Append(device);
      return LDAL_EOK;
    }

    /** The locked part of the registration. */
    method Append(device: Device)
      requires Valid() && device.Sound() && device !in devices && device.list != head
      requires Ordered(Names(devices) + [UpToNul(device.name)])
      modifies this`deviceNum, this`devices, this`nodes, device.list`next, device.list`prev
      modifies head`next, head`prev, nodes`next, nodes`prev
      ensures Valid() && devices == old(devices) + [device]
    {
      hide UpToNul, Ordered, Names, Nodes;
      DifferentNodes(devices, device);
      InitListHead(device.list);
      assert Cycle(head, nodes);
      hide Cycle;
      ListAddTail(device.list, head, nodes);
      Appended(devices, device);
      CountUp(|devices|);
      deviceNum := (deviceNum + 1) % 0x1_0000;
      devices, nodes := devices + [device], nodes + [device.list];
    }

    /** `ldal_device_unregister`: refused while the device is open. */
    method Unregister(device: Device?) returns (status: int)
      requires Valid() && (device != null ==> device in devices)
      modifies this`deviceNum, this`devices, this`nodes
      modifies head`next, head`prev, nodes`next, nodes`prev
      ensures Valid()
      ensures status == if device == null then -10 else if device.ref > 0 then -1 else 0
      ensures status != 0 ==> devices == old(devices)
      ensures status == 0 ==> exists k ::
                (0 <= k < |old(devices)| && old(devices)[k] == device
                 && devices == old(devices)[..k] + old(devices)[k + 1..])
    {
      if device == null {
        return -LDAL_EINVAL;
      }
      if device.ref > 0 {
        return -LDAL_ERROR;
      }
      ghost var k :| 0 <= k < |devices| && devices[k] == device;
      Delete(device, k);
      return LDAL_EOK;
    }

    /** The locked part of the unregistration. */
    method Delete(device: Device, ghost k: nat)
      requires Valid() && k < |devices| && devices[k] == device
      modifies this`deviceNum, this`devices, this`nodes
      modifies head`next, head`prev, nodes`next, nodes`prev
      ensures Valid() && devices == old(devices)[..k] + old(devices)[k + 1..]
    {
      hide UpToNul, Ordered, Cycle, Names, Nodes;
      Entry(devices, k);
      Removed(devices, k);
      OrderedRemove(Names(devices), k);
      ListDel(device.list, head, nodes, k);
      Removed(devices, k);
      CountDown(|devices|);
      deviceNum := if deviceNum == 0 then 0xFFFF else deviceNum - 1;
      devices, nodes := devices[..k] + devices[k + 1..], Without(nodes, k);
    }
  }

  /** The sixteen-bit counter wraps with the number of devices. */
  lemma CountUp(n: nat)
    ensures (n % 0x1_0000 + 1) % 0x1_0000 == (n + 1) % 0x1_0000
  {
  }

  lemma CountDown(n: nat)
    requires n > 0
    ensures (n - 1) % 0x1_0000 == if n % 0x1_0000 == 0 then 0xFFFF else n % 0x1_0000 - 1
  {
  }

  lemma SoundName(buffer: seq<byte>, name: seq<byte>)
    requires |name| < |buffer| && buffer[|buffer| - 1] == 0
    ensures |Overwritten(buffer, name)| == |buffer| && Overwritten(buffer, name)[|buffer| - 1] == 0
  {
  }

  /** Nodes of different devices are different, as each knows its container. */
  lemma {:induction false} DifferentNodes(devices: seq<Device>, device: Device)
    requires AllSound(devices) && device.Sound() && device !in devices
    ensures device.list !in Nodes(devices)
    decreases |devices|
  {
    if devices != [] {
      DifferentNodes(devices[..|devices| - 1], device);
      assert devices[|devices| - 1].Sound();
    }
  }
}
