/** Values shared by the whole binding: libudev property lists, received devices
    and the JavaScript values the binding builds from them. */
module Values {

  /** A value that may be absent; `None` stands for a C `NULL`. */
  datatype Option<+T> = None | Some(value: T)

  /** One entry of a libudev property list: a name and a value that may be NULL. */
  datatype Property = Property(name: string, value: Option<string>)

  /** A device as `udev_monitor_receive_device` hands it over. */
  datatype Device = Device(syspath: string, action: string, devnode: string, properties: seq<Property>)

  /** A JavaScript property value as the binding writes it: a string or `null`. */
  datatype JsValue = JsString(s: string) | JsNull

  /** A plain JavaScript object, as its own string-keyed properties. */
  type JsObject = map<string, JsValue>

  /** The JavaScript value written for a property value: NULL becomes `null`. */
  function ToJs(v: Option<string>): JsValue {
    match v
    case Some(s) => JsString(s)
    case None => JsNull
  }
}
