/** `List`: one record per device that a fresh libudev enumeration reports. */
module Enumerate {
  import opened Values
  import opened Properties

  /** The property list read from the device `udev_device_new_from_syspath` opens for `path`.
      A path it cannot open yields NULL, and libudev's accessors read a NULL device
      as one with no properties. */
  function DeviceProperties(devices: map<string, seq<Property>>, path: string): seq<Property> {
    if path in devices then devices[path] else []
  }

  /** The record `List` builds for `path`: its properties, then `syspath` on top. */
  function EnumeratedRecord(devices: map<string, seq<Property>>, path: string): JsObject {
    Pushed(map[], DeviceProperties(devices, path))["syspath" := JsString(path)]
  }

  /** An enumerated record carries the entry's own syspath, whatever the device's
      properties say, and otherwise exactly the property names. */
  lemma EnumeratedRecordShape(devices: map<string, seq<Property>>, path: string)
    ensures "syspath" in EnumeratedRecord(devices, path)
    ensures EnumeratedRecord(devices, path)["syspath"] == JsString(path)
    ensures EnumeratedRecord(devices, path).Keys == Names(DeviceProperties(devices, path)) + {"syspath"}
  {
    PushedKeys(map[], DeviceProperties(devices, path));
  }

  /** Builds the array `list`: for each syspath of the enumeration, in cursor order,
      the device's properties with `syspath` set after them. `devices` is what opening
      each syspath yields; `liveHandles` counts the enumeration and device handles
      still referenced when the call returns. */
  method List(syspaths: seq<string>, devices: map<string, seq<Property>>)
    returns (list: seq<JsObject>, ghost liveHandles: int)
    ensures |list| == |syspaths|
    ensures forall i :: 0 <= i < |list| ==> list[i] == EnumeratedRecord(devices, syspaths[i])
    ensures forall i :: 0 <= i < |list| ==> "syspath" in list[i] && list[i]["syspath"] == JsString(syspaths[i])
    ensures forall i :: 0 <= i < |list| ==> list[i].Keys == Names(DeviceProperties(devices, syspaths[i])) + {"syspath"}
    ensures liveHandles == 0
  {
    list := [];
    liveHandles := 1;  // udev_enumerate_new
    var i := 0;
    while i < |syspaths|
      invariant i <= |syspaths| && |list| == i
      invariant liveHandles == 1
      invariant forall m :: 0 <= m < i ==> list[m] == EnumeratedRecord(devices, syspaths[m])
    {
      var path := syspaths[i];
      var dev := if path in devices then Some(devices[path]) else None;
      if dev.Some? { liveHandles := liveHandles + 1; }
      var props := if dev.Some? then dev.value else [];
      var obj := PushProperties(map[], props);
      obj := obj["syspath" := JsString(path)];
      list := list + [obj];
      if dev.Some? { liveHandles := liveHandles - 1; }  // udev_device_unref
      i := i + 1;
    }
    liveHandles := liveHandles - 1;  // udev_enumerate_unref
    forall m | 0 <= m < |list|
      ensures "syspath" in list[m] && list[m]["syspath"] == JsString(syspaths[m])
      ensures list[m].Keys == Names(DeviceProperties(devices, syspaths[m])) + {"syspath"}
    {
      EnumeratedRecordShape(devices, syspaths[m]);
    }
  }
}
