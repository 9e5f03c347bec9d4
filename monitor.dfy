/** The `Monitor` class: a libudev netlink monitor whose descriptor is polled by libuv,
    and the teardown of its native and JavaScript-side resources.
    Resources the source allocates and frees are ghost flags and counters, and every
    call that allocates, releases, starts, stops or emits is recorded, in order, in `trace`. */
module MonitorLifecycle {
  import opened Values
  import opened Properties

  /** The record an event emits: `syspath` first, then the device's properties on top. */
  function EventRecord(dev: Device): JsObject {
    Pushed(map["syspath" := JsString(dev.syspath)], dev.properties)
  }

  /** The record `on_handle_event` builds: a fresh object, `syspath`, then `PushProperties`. */
  method BuildEventRecord(dev: Device) returns (obj: JsObject)
    ensures obj == EventRecord(dev)
  {
    obj := map["syspath" := JsString(dev.syspath)];
    obj := PushProperties(obj, dev.properties);
  }

  /** The keys `emit` receives: exactly the device's property names plus `syspath`. */
  lemma EventRecordKeys(dev: Device)
    ensures EventRecord(dev).Keys == Names(dev.properties) + {"syspath"}
  {
    PushedKeys(map["syspath" := JsString(dev.syspath)], dev.properties);
  }

  /** Without a property named `syspath`, the event record's `syspath` is the device's. */
  lemma EventSyspathFromDevice(dev: Device)
    requires "syspath" !in Names(dev.properties)
    ensures "syspath" in EventRecord(dev) && EventRecord(dev)["syspath"] == JsString(dev.syspath)
  {
    PushedUntouched(map["syspath" := JsString(dev.syspath)], dev.properties, "syspath");
  }

  /** A property named `syspath` is set after the device's syspath, so its last value wins. */
  lemma EventSyspathOverridden(dev: Device, j: int)
    requires LastWithName(dev.properties, j) && dev.properties[j].name == "syspath"
    ensures "syspath" in EventRecord(dev) && EventRecord(dev)["syspath"] == ToJs(dev.properties[j].value)
  {
    PushedLastWins(map["syspath" := JsString(dev.syspath)], dev.properties, j);
  }

  /** A call the binding makes that allocates, releases, starts, stops or emits. */
  datatype Step =
    | MonitorNewFromNetlink(source: string)
    | FilterAddMatch(subsystem: string, devtype: string)
    | EnableReceiving
    | PersistentAssigned
    | PollInit(fd: int)
    | PollStart(events: string, callback: string)
    | ReceiveDevice(syspath: string)
    | Emit(action: string, devnode: string, record: JsObject)
    | DeviceUnref
    | FatalException
    | PollStop
    | CloseScheduled
    | MonitorUnref
    | PersistentDisposed
    | DataFreed
    | HandleFreed

  /** Where a monitor is in its life: polling, closed but awaiting libuv's close
      callback, or fully released. */
  datatype Phase = Open | Closing | Closed

  /** A step that releases part of the monitor. */
  predicate IsTeardown(s: Step) {
    s.PollStop? || s.CloseScheduled? || s.MonitorUnref? || s.PersistentDisposed? || s.DataFreed? || s.HandleFreed?
  }

  /** The calls `Close` makes, in order. */
  function CloseSteps(): seq<Step> {
    [PollStop, CloseScheduled, MonitorUnref]
  }

  /** The calls `on_handle_close` makes, in order. */
  function ReleaseSteps(): seq<Step> {
    [PersistentDisposed, DataFreed, HandleFreed]
  }

  /** Where teardown steps stand in the log `t` of a monitor in `phase`: none while it is
      open; after `Close`, exactly `CloseSteps` from `stoppedAt` on; after `on_handle_close`,
      exactly `CloseSteps` then `ReleaseSteps` from `stoppedAt` on. */
  ghost predicate TeardownLog(t: seq<Step>, phase: Phase, stoppedAt: nat) {
    match phase
    case Open => forall i :: 0 <= i < |t| ==> !IsTeardown(t[i])
    case Closing =>
      && stoppedAt + 3 == |t| && t[stoppedAt..] == CloseSteps()
      && forall i :: 0 <= i < stoppedAt ==> !IsTeardown(t[i])
    case Closed =>
      && stoppedAt + 6 == |t| && t[stoppedAt..] == CloseSteps() + ReleaseSteps()
      && forall i :: 0 <= i < stoppedAt ==> !IsTeardown(t[i])
  }

  /** A stretch of log without teardown steps contributes nothing to their counts. */
  lemma QuietCount(q: seq<Step>, s: Step)
    requires forall i :: 0 <= i < |q| ==> !IsTeardown(q[i])
    requires IsTeardown(s)
    ensures multiset(q)[s] == 0
  {
    assert s !in q;
  }

  /** The teardown steps' counts in the part of the log from the poll's stop on. */
  function TeardownTail(phase: Phase): seq<Step> {
    match phase
    case Open => []
    case Closing => CloseSteps()
    case Closed => CloseSteps() + ReleaseSteps()
  }

  /** How often each teardown step occurs in the tail of the log. */
  lemma TailCounts(phase: Phase)
    ensures multiset(TeardownTail(phase))[PollStop] == (if phase == Open then 0 else 1)
    ensures multiset(TeardownTail(phase))[CloseScheduled] == (if phase == Open then 0 else 1)
    ensures multiset(TeardownTail(phase))[MonitorUnref] == (if phase == Open then 0 else 1)
    ensures multiset(TeardownTail(phase))[PersistentDisposed] == (if phase == Closed then 1 else 0)
    ensures multiset(TeardownTail(phase))[DataFreed] == (if phase == Closed then 1 else 0)
    ensures multiset(TeardownTail(phase))[HandleFreed] == (if phase == Closed then 1 else 0)
  {
    var c := multiset{PollStop, CloseScheduled, MonitorUnref};
    var r := multiset{PersistentDisposed, DataFreed, HandleFreed};
    assert multiset(CloseSteps()) == c;
    assert multiset(ReleaseSteps()) == r;
    match phase {
      case Open =>
      case Closing =>
      case Closed =>
        assert multiset(TeardownTail(phase)) == c + r;
    }
  }

  /** A teardown step occurs in the log as often as in its tail. */
  lemma CountOfTeardown(t: seq<Step>, phase: Phase, stoppedAt: nat, s: Step)
    requires TeardownLog(t, phase, stoppedAt) && IsTeardown(s)
    ensures multiset(t)[s] == multiset(TeardownTail(phase))[s]
  {
    if phase == Open {
      QuietCount(t, s);
    } else {
      var quiet, tail := t[..stoppedAt], t[stoppedAt..];
      assert tail == TeardownTail(phase);
      assert t == quiet + tail;
      forall i | 0 <= i < |quiet| ensures !IsTeardown(quiet[i]) {
        assert quiet[i] == t[i];
      }
      QuietCount(quiet, s);
    }
  }

  /** Read off the log: each close step has run exactly once after `Close`, each
      release step exactly once after `on_handle_close`, and none of them before. */
  lemma {:induction false} TeardownExactlyOnce(t: seq<Step>, phase: Phase, stoppedAt: nat)
    requires TeardownLog(t, phase, stoppedAt)
    ensures multiset(t)[PollStop] == (if phase == Open then 0 else 1)
    ensures multiset(t)[CloseScheduled] == (if phase == Open then 0 else 1)
    ensures multiset(t)[MonitorUnref] == (if phase == Open then 0 else 1)
    ensures multiset(t)[PersistentDisposed] == (if phase == Closed then 1 else 0)
    ensures multiset(t)[DataFreed] == (if phase == Closed then 1 else 0)
    ensures multiset(t)[HandleFreed] == (if phase == Closed then 1 else 0)
  {
    CountOfTeardown(t, phase, stoppedAt, PollStop);
    CountOfTeardown(t, phase, stoppedAt, CloseScheduled);
    CountOfTeardown(t, phase, stoppedAt, MonitorUnref);
    CountOfTeardown(t, phase, stoppedAt, PersistentDisposed);
    CountOfTeardown(t, phase, stoppedAt, DataFreed);
    CountOfTeardown(t, phase, stoppedAt, HandleFreed);
    TailCounts(phase);
  }

  /** Once the poll is stopped nothing more is emitted: the stop is at `stoppedAt` and
      every later step is a teardown step. */
  lemma NoEmitAfterStop(t: seq<Step>, phase: Phase, stoppedAt: nat)
    requires TeardownLog(t, phase, stoppedAt) && phase != Open
    ensures stoppedAt < |t| && t[stoppedAt] == PollStop
    ensures forall i :: stoppedAt < i < |t| ==> IsTeardown(t[i]) && !t[i].Emit?
  {
    forall i | stoppedAt < i < |t| ensures IsTeardown(t[i]) {
      assert t[i] == t[stoppedAt..][i - stoppedAt];
    }
  }

  /** Steps that release nothing leave an open monitor's log as it was. */
  lemma QuietStepsKeepLog(t: seq<Step>, extra: seq<Step>, stoppedAt: nat)
    requires TeardownLog(t, Open, stoppedAt)
    requires forall i :: 0 <= i < |extra| ==> !IsTeardown(extra[i])
    ensures TeardownLog(t + extra, Open, stoppedAt)
  {
  }

  /** `Close` turns an open monitor's log into a closing one, the stop at its old end. */
  lemma CloseExtendsLog(t: seq<Step>, stoppedAt: nat)
    requires TeardownLog(t, Open, stoppedAt)
    ensures TeardownLog(t + CloseSteps(), Closing, |t|)
  {
    assert (t + CloseSteps())[|t|..] == CloseSteps();
  }

  /** `on_handle_close` turns a closing monitor's log into a fully released one. */
  lemma ReleaseExtendsLog(t: seq<Step>, stoppedAt: nat)
    requires TeardownLog(t, Closing, stoppedAt)
    ensures TeardownLog(t + ReleaseSteps(), Closed, stoppedAt)
  {
    assert t == t[..stoppedAt] + CloseSteps();
    assert (t + ReleaseSteps())[stoppedAt..] == CloseSteps() + ReleaseSteps();
  }

  /** The calls one readiness callback makes: receive the device, emit its record,
      release the device, then raise the error `emit` threw, if any. */
  function EventSteps(dev: Device, emitThrows: bool): seq<Step> {
    [ReceiveDevice(dev.syspath), Emit(dev.action, dev.devnode, EventRecord(dev)), DeviceUnref]
      + (if emitThrows then [FatalException] else [])
  }

  /** An event releases nothing of the monitor. */
  lemma EventKeepsLog(t: seq<Step>, dev: Device, emitThrows: bool, stoppedAt: nat)
    requires TeardownLog(t, Open, stoppedAt)
    ensures TeardownLog(t + EventSteps(dev, emitThrows), Open, stoppedAt)
  {
    QuietStepsKeepLog(t, EventSteps(dev, emitThrows), stoppedAt);
  }

  /** libudev's `udev_device` as the readiness callback receives it: the device it
      describes and its reference count. */
  class UdevDevice {
    const device: Device
    ghost var refs: int

    /** A device fresh from the monitor socket, holding one reference. */
    constructor (d: Device)
      ensures device == d && refs == 1
    {
      device := d;
      refs := 1;
    }

    /** `udev_device_unref`: drop one reference. */
    method Unref(ghost log: seq<Step>) returns (ghost log': seq<Step>)
      modifies this
      ensures refs == old(refs) - 1
      ensures log' == log + [DeviceUnref]
    {
      refs := refs - 1;
      log' := log + [DeviceUnref];
    }
  }

  /** libudev's `udev_monitor`: its filter, whether it receives, its socket and its
      reference count. Each method stands for one libudev call and appends that call's
      step to the log it is given. */
  class UdevMonitor {
    var subsystem: string
    var devtype: string
    var receiving: bool
    const fd: int
    ghost var refs: int

    /** `udev_monitor_new_from_netlink`: one reference, no filter, not yet receiving;
        `socketFd` is the netlink socket the kernel hands out. */
    constructor (socketFd: int)
      ensures fd == socketFd && refs == 1 && !receiving
      ensures subsystem == "" && devtype == ""
    {
      fd := socketFd;
      refs := 1;
      receiving := false;
      subsystem, devtype := "", "";
    }

    /** `udev_monitor_filter_add_match_subsystem_devtype`. */
    method FilterAddMatch(s: string, d: string, ghost log: seq<Step>) returns (ghost log': seq<Step>)
      modifies this
      ensures subsystem == s && devtype == d
      ensures receiving == old(receiving) && refs == old(refs)
      ensures log' == log + [Step.FilterAddMatch(s, d)]
    {
      subsystem, devtype := s, d;
      log' := log + [Step.FilterAddMatch(s, d)];
    }

    /** `udev_monitor_enable_receiving`. */
    method EnableReceiving(ghost log: seq<Step>) returns (ghost log': seq<Step>)
      modifies this
      ensures receiving
      ensures subsystem == old(subsystem) && devtype == old(devtype) && refs == old(refs)
      ensures log' == log + [Step.EnableReceiving]
    {
      receiving := true;
      log' := log + [Step.EnableReceiving];
    }

    /** `udev_monitor_receive_device`: the device `d` read from the socket, holding
        one reference. */
    method ReceiveDevice(d: Device, ghost log: seq<Step>) returns (dev: UdevDevice, ghost log': seq<Step>)
      ensures fresh(dev) && dev.device == d && dev.refs == 1
      ensures log' == log + [Step.ReceiveDevice(d.syspath)]
    {
      dev := new UdevDevice(d);
      log' := log + [Step.ReceiveDevice(d.syspath)];
    }

    /** `udev_monitor_unref`: drop one reference. */
    method Unref(ghost log: seq<Step>) returns (ghost log': seq<Step>)
      modifies this
      ensures refs == old(refs) - 1
      ensures subsystem == old(subsystem) && devtype == old(devtype) && receiving == old(receiving)
      ensures log' == log + [MonitorUnref]
    {
      refs := refs - 1;
      log' := log + [MonitorUnref];
    }
  }

  /** The heap `poll_struct`: the persistent handle that keeps the JavaScript monitor alive. */
  class PollStruct {
    var monitor: Monitor
    ghost var persistentHeld: bool
    ghost var freed: bool

    /** `new poll_struct` followed by `NanAssignPersistent` to `m`. */
    constructor (m: Monitor)
      ensures monitor == m && persistentHeld && !freed
    {
      monitor := m;
      persistentHeld := true;
      freed := false;
    }

    /** `NanDisposePersistent(data->monitor)`. */
    method DisposePersistent(ghost log: seq<Step>) returns (ghost log': seq<Step>)
      modifies this
      ensures !persistentHeld && freed == old(freed) && monitor == old(monitor)
      ensures log' == log + [PersistentDisposed]
    {
      persistentHeld := false;
      log' := log + [PersistentDisposed];
    }

    /** `delete data`. */
    method Delete(ghost log: seq<Step>) returns (ghost log': seq<Step>)
      modifies this
      ensures freed && persistentHeld == old(persistentHeld) && monitor == old(monitor)
      ensures log' == log + [DataFreed]
    {
      freed := true;
      log' := log + [DataFreed];
    }
  }

  /** A libuv `uv_poll_t`: its opaque data, the polled descriptor and its lifecycle flags.
      Each method stands for one libuv call and appends that call's step to the log. */
  class PollHandle {
    var data: PollStruct?
    var fd: int
    ghost var active: bool
    ghost var closing: bool
    ghost var freed: bool

    /** `new uv_poll_t`: not yet initialised. */
    constructor ()
      ensures data == null && !active && !closing && !freed
    {
      data := null;
      fd := -1;
      active, closing, freed := false, false, false;
    }

    /** `uv_poll_init` on the descriptor `d`. */
    method Init(d: int, ghost log: seq<Step>) returns (ghost log': seq<Step>)
      modifies this
      ensures fd == d
      ensures data == old(data) && active == old(active) && closing == old(closing) && freed == old(freed)
      ensures log' == log + [PollInit(d)]
    {
      fd := d;
      log' := log + [PollInit(d)];
    }

    /** `uv_poll_start` for the events `events`, calling `callback` on each. */
    method Start(events: string, callback: string, ghost log: seq<Step>) returns (ghost log': seq<Step>)
      modifies this
      ensures active
      ensures data == old(data) && fd == old(fd) && closing == old(closing) && freed == old(freed)
      ensures log' == log + [PollStart(events, callback)]
    {
      active := true;
      log' := log + [PollStart(events, callback)];
    }

    /** `uv_poll_stop`: no further readiness callbacks. */
    method Stop(ghost log: seq<Step>) returns (ghost log': seq<Step>)
      modifies this
      ensures !active
      ensures data == old(data) && fd == old(fd) && closing == old(closing) && freed == old(freed)
      ensures log' == log + [PollStop]
    {
      active := false;
      log' := log + [PollStop];
    }

    /** `uv_close`: the close callback is now pending. */
    method ScheduleClose(ghost log: seq<Step>) returns (ghost log': seq<Step>)
      modifies this
      ensures closing
      ensures data == old(data) && fd == old(fd) && active == old(active) && freed == old(freed)
      ensures log' == log + [CloseScheduled]
    {
      closing := true;
      log' := log + [CloseScheduled];
    }

    /** `delete handle`. */
    method Delete(ghost log: seq<Step>) returns (ghost log': seq<Step>)
      modifies this
      ensures freed
      ensures data == old(data) && fd == old(fd) && active == old(active) && closing == old(closing)
      ensures log' == log + [HandleFreed]
    {
      freed := true;
      log' := log + [HandleFreed];
    }
  }

  class Monitor {
    var pollHandle: PollHandle
    var mon: UdevMonitor
    var fd: int
    ghost var phase: Phase
    ghost var trace: seq<Step>
    ghost var stoppedAt: nat

    /** The monitor's invariant: its parts are wired to each other, and the state of each
        resource, and how often each teardown step has run, follows from `phase`. */
    ghost predicate Valid()
      reads this, mon, pollHandle, pollHandle.data
    {
      && pollHandle.data != null
      && pollHandle.data.monitor == this
      && mon.fd == fd && pollHandle.fd == fd
      && mon.subsystem == "block" && mon.devtype == "partition" && mon.receiving
      && (pollHandle.active <==> phase == Open)
      && (pollHandle.closing <==> phase != Open)
      && mon.refs == (if phase == Open then 1 else 0)
      && (pollHandle.data.persistentHeld <==> phase != Closed)
      && (pollHandle.data.freed <==> phase == Closed)
      && (pollHandle.freed <==> phase == Closed)
      && TeardownLog(trace, phase, stoppedAt)
    }

    /** The sequence of calls `New` makes. */
    static function NewTrace(socketFd: int): seq<Step> {
      [MonitorNewFromNetlink("udev"), FilterAddMatch("block", "partition"), EnableReceiving,
       EnableReceiving, PersistentAssigned, PollInit(socketFd), PollStart("UV_READABLE", "on_handle_event")]
    }

    /** `New` releases nothing. */
    static lemma NewTraceQuiet(socketFd: int)
      ensures TeardownLog(NewTrace(socketFd), Open, 0)
    {
      var t := NewTrace(socketFd);
      forall i | 0 <= i < |t| ensures !IsTeardown(t[i]) {}
    }

    /** `New`: a netlink monitor filtered to block partitions, receiving, whose
        descriptor `socketFd` is polled for readability. */
    constructor New(socketFd: int)
      ensures Valid() && phase == Open
      ensures fresh(mon) && fresh(pollHandle) && fresh(pollHandle.data)
      ensures fd == socketFd
      ensures trace == NewTrace(socketFd)
    {
      var m := new UdevMonitor(socketFd);
      ghost var steps := [MonitorNewFromNetlink("udev")];
      steps := m.FilterAddMatch("block", "partition", steps);
      steps := m.EnableReceiving(steps);
      var d := m.fd;  // udev_monitor_get_fd
      var h := new PollHandle();
      steps := m.EnableReceiving(steps);
      mon, fd, pollHandle := m, d, h;
      phase, stoppedAt := Open, 0;
      trace := [];
      new;
      var data := new PollStruct(this);
      steps := steps + [PersistentAssigned];
      h.data := data;
      steps := h.Init(d, steps);
      steps := h.Start("UV_READABLE", "on_handle_event", steps);
      assert steps == NewTrace(d);
      NewTraceQuiet(d);
      trace := steps;
    }

    /** `on_handle_event`, which libuv calls with `pollHandle` while the poll is active;
        `pollHandle.data.monitor == this` is how the callback finds the monitor.
        `dev` is the device `udev_monitor_receive_device` returns and `emitThrows` whether
        the JavaScript `emit` threw. `received` is the device object, released on return. */
    method OnHandleEvent(dev: Device, emitThrows: bool) returns (ghost received: UdevDevice)
      requires Valid() && pollHandle.active
      modifies this
      ensures Valid() && phase == Open
      ensures trace == old(trace) + EventSteps(dev, emitThrows)
      ensures fresh(received) && received.device == dev && received.refs == 0
      ensures pollHandle == old(pollHandle) && mon == old(mon) && fd == old(fd) && stoppedAt == old(stoppedAt)
    {
      ghost var before := trace;
      var device;
      device, trace := mon.ReceiveDevice(dev, trace);
      var obj := BuildEventRecord(device.device);
      trace := trace + [Emit(device.device.action, device.device.devnode, obj)];
      var caught := emitThrows;
      trace := device.Unref(trace);
      if caught {
        trace := trace + [FatalException];
      }
      received := device;
      assert trace == before + EventSteps(dev, emitThrows);
      EventKeepsLog(before, dev, emitThrows, stoppedAt);
    }

    /** `Close`: stop polling, schedule the handle's close, then drop the monitor's reference. */
    method Close()
      requires Valid() && phase == Open
      modifies this, mon, pollHandle
      ensures Valid() && phase == Closing
      ensures trace == old(trace) + [PollStop, CloseScheduled, MonitorUnref]
      ensures pollHandle == old(pollHandle) && mon == old(mon) && fd == old(fd)
      ensures !pollHandle.active && pollHandle.closing && !pollHandle.freed
      ensures mon.refs == old(mon.refs) - 1 == 0
      ensures pollHandle.data == old(pollHandle.data) && pollHandle.data.persistentHeld
      ensures multiset(trace)[PollStop] == multiset(trace)[CloseScheduled] == multiset(trace)[MonitorUnref] == 1
      ensures multiset(trace)[PersistentDisposed] == multiset(trace)[DataFreed] == multiset(trace)[HandleFreed] == 0
    {
      ghost var before := trace;
      stoppedAt := |trace|;
      trace := pollHandle.Stop(trace);
      trace := pollHandle.ScheduleClose(trace);
      trace := mon.Unref(trace);
      phase := Closing;
      assert trace == before + CloseSteps();
      CloseExtendsLog(before, old(stoppedAt));
      TeardownExactlyOnce(trace, phase, stoppedAt);
    }

    /** `on_handle_close`, which libuv calls once after the close `Close` scheduled:
        release the persistent, then free the `poll_struct` and the handle. */
    method OnHandleClose()
      requires Valid() && phase == Closing
      modifies this, pollHandle, pollHandle.data
      ensures Valid() && phase == Closed
      ensures trace == old(trace) + [PersistentDisposed, DataFreed, HandleFreed]
      ensures pollHandle == old(pollHandle) && pollHandle.data == old(pollHandle.data)
      ensures mon == old(mon) && fd == old(fd)
      ensures !pollHandle.data.persistentHeld && pollHandle.data.freed && pollHandle.freed
      ensures multiset(trace)[PersistentDisposed] == multiset(trace)[DataFreed] == multiset(trace)[HandleFreed] == 1
      ensures stoppedAt < |trace| && trace[stoppedAt] == PollStop
      ensures forall i :: stoppedAt < i < |trace| ==> !trace[i].Emit?
    {
      ghost var before := trace;
      var data := pollHandle.data;
      trace := data.DisposePersistent(trace);
      trace := data.Delete(trace);
      trace := pollHandle.Delete(trace);
      phase := Closed;
      assert trace == before + ReleaseSteps();
      ReleaseExtendsLog(before, stoppedAt);
      TeardownExactlyOnce(trace, phase, stoppedAt);
      NoEmitAfterStop(trace, phase, stoppedAt);
    }
  }
}
