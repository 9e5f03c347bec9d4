# node-udev binding, modelled in Dafny

`udev.cc` is a Node.js addon over libudev. It exposes three things to JavaScript:

- `list()` enumerates every device libudev knows about. It returns one object per device, holding the device's properties and its `syspath`.
- `getMountPoint(path)` scans the mount table for the first entry whose device name is `path` and returns that entry's mount directory.
- `Monitor` is a class. Its constructor opens a netlink monitor filtered to block partitions and has libuv poll the monitor's socket. Each readable event receives one device and calls the JavaScript `emit(action, devnode, record)`. `close()` stops the poll and schedules the handle's close. libuv's close callback then releases the persistent handle and frees the per-handle memory.

Under the V8, libuv and libudev calls are four sequential behaviours. This project models each one imperatively, as the source is written, and proves what they guarantee:

- `properties.dfy` (`Properties`) models `PushProperties`: a loop that sets each property of a libudev list on a JavaScript object.
- `enumerate.dfy` (`Enumerate`) models `List`: a loop that appends one record per enumerated syspath.
- `mounts.dfy` (`Mounts`) models `GetMountPoint`: a scan with an early return.
- `monitor.dfy` (`MonitorLifecycle`) models the `Monitor` class over four native objects. `UdevMonitor` stands for libudev's `udev_monitor`, `UdevDevice` for a received `udev_device`, `PollHandle` for libuv's `uv_poll_t`, and `PollStruct` for the heap `poll_struct`. The small methods of these classes stand for the library calls the source makes. Each one appends its own step to the log it is handed and returns the extended log, so the log's order is the order in which the calls are made. Four steps are appended by the monitor's own code, next to the call they stand for: the two constructor calls (`udev_monitor_new_from_netlink` and the persistent assignment), which cannot return a log, and the calls into JavaScript (`emit` and `FatalException`).
- `values.dfy` (`Values`) holds the shared values: property lists as `seq<Property>` (a name and an `Option<string>` value, `None` being a C `NULL`), JavaScript objects as `map<string, JsValue>`, and devices.

Each resource the source allocates or refcounts is a ghost flag or counter: `active`, `closing`, `freed`, `persistentHeld` and `refs` (on the monitor and on each received device). Every call the monitor makes that allocates, releases, starts, stops or emits is appended, in program order, to the ghost log `Monitor.trace`. Accessor calls (`udev_monitor_get_fd`, `udev_device_get_action`, `udev_device_get_devnode`, the lookup of `emit`, each `Set` on an object) and `new uv_poll_t` are not logged. `Monitor.Valid()` ties the flags to the monitor's phase (`Open`, `Closing`, `Closed`). It also ties the log to the phase through `TeardownLog`: no teardown step while open; `CloseSteps` from the poll's stop on once closed; `CloseSteps` then `ReleaseSteps` once released.

The model takes some inputs as parameters:

- For `List`: the enumeration's syspaths, and a map from each syspath to the property list that opening it yields.
- For `GetMountPoint`: the mount table's decoded entries, or `None` when `setmntent` fails.
- For an event: the device that `udev_monitor_receive_device` returns, and whether `emit` threw.
- For `New`: the descriptor number of the netlink socket.

Some behaviours of the code are easy to miss; the model follows the code:

- `List` does not skip a syspath that cannot be opened. `udev_device_new_from_syspath` then returns NULL, libudev's accessors read a NULL device as having no properties, and the record holds only `syspath`.
- `getMountPoint` returns `undefined` when no entry matches; it throws no not-found error. It returns early on a match and never calls `endmntent` on that path, so the stream is left open (`streamClosed` is false).
- A monitor event releases the device after `emit` returns, not before, and reports a caught error only after that release.
- Nothing guards against calling `close()` twice.
- `getMountPoint` sleeps for one second before it opens the mount table.

## Model

| member | source | states |
|---|---|---|
| `Properties.PushProperties` | udev.cc:13-34 | Loop over the property list. The result has exactly the old keys plus every property name, so no entry is skipped. Each name holds the value of its last entry: a string as a string, a NULL as `null`. Keys that no entry names keep their old value. The result equals the fold `Pushed`. |
| `Properties.PushedKeys` | udev.cc:19-33 | After pushing, the key set is the old key set plus the names of all entries. |
| `Properties.PushedLastWins` | udev.cc:19-33 | When a name repeats, the last entry with that name decides its value, with NULL mapped to `null`. |
| `Properties.PushedUntouched` | udev.cc:13-34 | A key that no entry names is present after pushing exactly when it was present before, with the same value. |
| `Properties.PushResultUnique` | udev.cc:13-34 | The description `PushResult` (keys, last-wins values, untouched keys) fits exactly one object: the one `PushProperties` produces. |
| `Properties.PushedEntryCount` | udev.cc:19-33 | N entries with distinct names, pushed onto an empty object, give exactly N keys. |
| `Enumerate.List` | udev.cc:137-169 | The result has one record per enumerated syspath, in cursor order. Record `i` is built from entry `i`: its properties, then `syspath` set to the entry's name, so a property named `syspath` is overridden. Its keys are the property names plus `syspath`. |
| `Enumerate.EnumeratedRecordShape` | udev.cc:158-163 | An enumerated record's `syspath` is the entry's path whatever the device's properties say, and its keys are exactly the property names plus `syspath`. |
| `Mounts.GetMountPoint` | udev.cc:171-197 | If the table cannot be opened, the call throws "Can't open mounted filesystems\n" and reads no entry. Otherwise it never throws. It returns a directory if and only if some entry matches, and that directory is the first matching entry's, after reading entries only up to it, with the stream left open. If nothing matches, it returns no value after reading every entry, and closes the stream. |
| `Mounts.CString` | udev.cc:175-179 | What the `char*` of a string denotes to `strcmp`: the prefix before its first NUL character. |
| `Mounts.MatchesIsEquality` | udev.cc:191 | For strings without NUL, the `strcmp` test is exact string equality, with no normalisation of any kind. |
| `MonitorLifecycle.BuildEventRecord` | udev.cc:56-58 | An event's record is a fresh object with `syspath` set, then the device's properties pushed on top. |
| `MonitorLifecycle.EventRecordKeys` | udev.cc:56-58 | The record `emit` receives has exactly the device's property names plus `syspath` as keys. |
| `MonitorLifecycle.EventSyspathFromDevice` | udev.cc:56-58 | Without a property named `syspath`, the event record's `syspath` is the device's syspath. |
| `MonitorLifecycle.EventSyspathOverridden` | udev.cc:56-58 | With a property named `syspath`, the event record's `syspath` is that property's last value, because it is set after the device's syspath. |
| `MonitorLifecycle.EventKeepsLog` | udev.cc:47-70 | An event's calls release nothing, so an open monitor stays correctly logged. |
| `MonitorLifecycle.CloseExtendsLog` | udev.cc:110-119 | Appending `Close`'s three calls to an open monitor's log gives a closing monitor's log, with the poll's stop where the old log ended. |
| `MonitorLifecycle.ReleaseExtendsLog` | udev.cc:101-108 | Appending the close callback's three calls to a closing monitor's log gives a released monitor's log. |
| `MonitorLifecycle.TeardownExactlyOnce` | udev.cc:101-119 | In a log of the lifecycle, each of poll stop, close scheduling and monitor unref occurs once after `Close` and never before. Each of persistent disposal, `poll_struct` free and handle free occurs once after the close callback and never before. |
| `MonitorLifecycle.NoEmitAfterStop` | udev.cc:115-117 | Once the poll is stopped, every later step is a teardown step, so nothing is emitted after it. |
| `MonitorLifecycle.Monitor.New` | udev.cc:72-99 | Creates the netlink monitor ("udev") with one reference. Sets the block/partition filter, enables receiving (twice), assigns the persistent, then initialises the poll on the monitor's descriptor and starts it for `UV_READABLE` with `on_handle_event` as callback, in that order. The new monitor is valid and open. |
| `MonitorLifecycle.Monitor.OnHandleEvent` | udev.cc:47-70 | The callback receives one device and emits `(action, devnode, record)` in that order, with the record built as above. It unrefs the received device once, after `emit` returns, so that device's reference count goes from 1 to 0. It raises a caught error only after that unref. It is called only while the poll is active, and the monitor stays open and valid. |
| `MonitorLifecycle.Monitor.Close` | udev.cc:110-119 | Stops the poll, then schedules the handle's close, then unrefs the monitor to zero references. Afterwards the poll is inactive, the persistent is still held, and each of these three steps has occurred exactly once. |
| `MonitorLifecycle.Monitor.OnHandleClose` | udev.cc:101-108 | Disposes the persistent, frees the `poll_struct`, then frees the handle. Each of the six teardown steps has then occurred exactly once, and nothing was emitted after the poll stopped. |

## Left out

- V8 and NAN value construction, `TryCatch`, `node::FatalException` and `ObjectWrap` are not modelled. JavaScript objects are values (`map`), since each is fresh and unaliased while it is built. A fatal exception is only a logged step. Unwrapping is the invariant `pollHandle.data.monitor == this`.
- The `emit` callback is not modelled beyond whether it throws. A handler that calls back into the binding, for example one that closes the monitor from inside `emit`, is not modelled.
- The libuv event loop, the netlink socket and the asynchrony of `uv_close` are not modelled. The readiness and close callbacks are separate methods that the loop is assumed to call; no real concurrency is modelled.
- The kernel-side subsystem/devtype filter is not modelled. The filter values are recorded on the native monitor, but libudev, not the binding, does the filtering.
- Return codes of the libudev and libuv calls in `List`, `New`, the two callbacks and `Close` are not modelled: the source checks none of them. (The check of `udev_new`'s result in the module's `Init` is outside this model.) `New` assumes every call succeeds, and `List` assumes the enumeration can be created.
- MonitorLifecycle.Monitor.OnHandleEvent: assumes `udev_monitor_receive_device` returns a device with a non-NULL action and devnode. For a NULL device, or a NULL action or devnode, the source hands the NULL to V8 unchecked, and that case is not modelled.
- MonitorLifecycle.Monitor.OnHandleEvent: requires an active poll, because libuv makes no readiness callback after `uv_poll_stop`; under `Valid()` an active poll means an open monitor.
- MonitorLifecycle.Monitor.Close: requires an open monitor. The source has no guard, and a second call would stop and close a handle that is already closing or freed, which is undefined behaviour.
- MonitorLifecycle.Monitor.OnHandleClose: requires a closing monitor, because libuv calls the close callback once, after `uv_close`.
- There is no bounded retry in the mount lookup. The `sleep(1)` before it, the real `/proc/mounts` I/O and `getmntent`'s field decoding are not modelled: entries arrive already decoded.
- Mounts.GetMountPoint: the JavaScript `ToString` conversion of the argument and the UTF-8 encoding of `Utf8Value` are not modelled. The path is a string of characters, and only its NUL truncation is modelled.
- Module registration and both `Init` functions are not modelled.
- Properties.PushProperties, Enumerate.List, MonitorLifecycle.BuildEventRecord: a JavaScript object is modelled as a `map`, which loses three things `Object::Set` does. (a) Key order: JavaScript objects keep insertion order, visible through `Object.keys` and `JSON.stringify`; in a listed record `syspath` comes last unless a property already set it, in an event record it comes first. The model says nothing about order. (b) Assignment semantics: a property named `__proto__` hits the inherited accessor, so a string value creates no own key and a NULL value sets the prototype to `null`; the model treats `__proto__` as an ordinary key, so `PushedKeys` and the key-set contracts overstate the own keys in that case. (c) UTF-8 decoding: names, values and syspaths are decoded from bytes as UTF-8 with invalid bytes replaced by U+FFFD, so two distinct byte strings can become one key; the model's strings are already characters.
- Enumerate.List: the release of the enumeration and of each device handle is tracked only by the local ghost counter `liveHandles`, which the method itself raises and lowers; handles are not modelled as objects, so `liveHandles == 0` records the bookkeeping rather than an independent check of it.
- `example.js` has no logic of its own.
