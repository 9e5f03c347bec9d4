/** `PushProperties`: copying a device's property list into a JavaScript object. */
module Properties {
  import opened Values

  /** The names that some entry of `props` carries. */
  function Names(props: seq<Property>): set<string> {
    set j | 0 <= j < |props| :: props[j].name
  }

  /** Entry `j` of `props` is the last entry with its name. */
  ghost predicate LastWithName(props: seq<Property>, j: int) {
    0 <= j < |props| && forall l :: j < l < |props| ==> props[l].name != props[j].name
  }

  /** No two entries of `props` share a name. */
  ghost predicate DistinctNames(props: seq<Property>) {
    forall i, j :: 0 <= i < j < |props| ==> props[i].name != props[j].name
  }

  /** `obj` after each entry of `props` has been set on it, first to last. */
  function Pushed(obj: JsObject, props: seq<Property>): JsObject
    decreases |props|
  {
    if |props| == 0 then obj
    else
      var last := props[|props| - 1];
      Pushed(obj, props[..|props| - 1])[last.name := ToJs(last.value)]
  }

  /** What `r` must be after pushing `props` onto `obj`: every named key is present,
      holds the value of the last entry with that name (`null` for a NULL value),
      and every other key of `obj` is kept as it was. */
  ghost predicate PushResult(r: JsObject, obj: JsObject, props: seq<Property>) {
    && r.Keys == obj.Keys + Names(props)
    && (forall j :: LastWithName(props, j) ==> props[j].name in r && r[props[j].name] == ToJs(props[j].value))
    && (forall k :: k in obj && k !in Names(props) ==> k in r && r[k] == obj[k])
  }

  lemma NamesOfPrefix(props: seq<Property>)
    requires |props| > 0
    ensures Names(props) == Names(props[..|props| - 1]) + {props[|props| - 1].name}
  {
    var n := |props| - 1;
    var init := props[..n];
    forall k | k in Names(props) ensures k in Names(init) + {props[n].name} {
      var j :| 0 <= j < |props| && props[j].name == k;
      if j < n { assert init[j] == props[j]; }
    }
    forall k | k in Names(init) ensures k in Names(props) {
      var j :| 0 <= j < |init| && init[j].name == k;
      assert props[j] == init[j];
    }
    assert props[n].name in Names(props);
  }

  /** The key set after pushing: the old keys plus every property name; no entry is skipped. */
  lemma {:induction false} PushedKeys(obj: JsObject, props: seq<Property>)
    ensures Pushed(obj, props).Keys == obj.Keys + Names(props)
  {
    if |props| > 0 {
      PushedKeys(obj, props[..|props| - 1]);
      NamesOfPrefix(props);
    }
  }

  /** The last entry with a name decides that name's value. */
  lemma {:induction false} PushedLastWins(obj: JsObject, props: seq<Property>, j: int)
    requires LastWithName(props, j)
    ensures props[j].name in Pushed(obj, props)
    ensures Pushed(obj, props)[props[j].name] == ToJs(props[j].value)
  {
    var n := |props| - 1;
    if j < n {
      var init := props[..n];
      assert LastWithName(init, j) by {
        forall l | j < l < |init| ensures init[l].name != init[j].name {
          assert init[l] == props[l] && init[j] == props[j];
        }
      }
      PushedLastWins(obj, init, j);
      assert props[n].name != props[j].name;
    }
  }

  /** A key that no entry names is left exactly as it was. */
  lemma {:induction false} PushedUntouched(obj: JsObject, props: seq<Property>, k: string)
    requires k !in Names(props)
    ensures k in Pushed(obj, props) <==> k in obj
    ensures k in obj ==> Pushed(obj, props)[k] == obj[k]
  {
    if |props| > 0 {
      NamesOfPrefix(props);
      PushedUntouched(obj, props[..|props| - 1], k);
    }
  }

  /** Every name that some entry carries has a last entry with that name. */
  lemma {:induction false} LastOfName(props: seq<Property>, k: string) returns (j: int)
    requires k in Names(props)
    ensures LastWithName(props, j) && props[j].name == k
  {
    var n := |props| - 1;
    NamesOfPrefix(props);
    if props[n].name == k {
      j := n;
    } else {
      var init := props[..n];
      j := LastOfName(init, k);
      assert init[j] == props[j];
      forall l | j < l < |props| ensures props[l].name != props[j].name {
        if l < n { assert init[l] == props[l]; }
      }
    }
  }

  /** The fold meets the description `PushResult`. */
  lemma PushedMeetsPushResult(obj: JsObject, props: seq<Property>)
    ensures PushResult(Pushed(obj, props), obj, props)
  {
    PushedKeys(obj, props);
    forall j | LastWithName(props, j)
      ensures props[j].name in Pushed(obj, props) && Pushed(obj, props)[props[j].name] == ToJs(props[j].value)
    {
      PushedLastWins(obj, props, j);
    }
    forall k | k in obj && k !in Names(props)
      ensures k in Pushed(obj, props) && Pushed(obj, props)[k] == obj[k]
    {
      PushedUntouched(obj, props, k);
    }
  }

  /** `PushResult` leaves no freedom: it describes exactly one object, the fold's. */
  lemma PushResultUnique(r: JsObject, obj: JsObject, props: seq<Property>)
    requires PushResult(r, obj, props)
    ensures r == Pushed(obj, props)
  {
    var p := Pushed(obj, props);
    PushedMeetsPushResult(obj, props);
    forall k | k in r ensures r[k] == p[k] {
      if k in Names(props) {
        var j := LastOfName(props, k);
      }
    }
  }

  /** With distinct names, pushing N entries onto an empty object gives exactly N keys. */
  lemma {:induction false} PushedEntryCount(props: seq<Property>)
    requires DistinctNames(props)
    ensures |Pushed(map[], props)| == |props|
  {
    if |props| > 0 {
      var n := |props| - 1;
      var init := props[..n];
      assert DistinctNames(init) by {
        forall i, j | 0 <= i < j < |init| ensures init[i].name != init[j].name {
          assert init[i] == props[i] && init[j] == props[j];
        }
      }
      PushedEntryCount(init);
      PushedKeys(map[], init);
      assert props[n].name !in Names(init) by {
        forall j | 0 <= j < |init| ensures init[j].name != props[n].name {
          assert init[j] == props[j];
        }
      }
    }
  }

  /** Sets each entry of `props` on `obj`, a string value as a string and a NULL value as `null`. */
  method PushProperties(obj: JsObject, props: seq<Property>) returns (r: JsObject)
    ensures PushResult(r, obj, props)
    ensures r == Pushed(obj, props)
  {
    r := obj;
    var i := 0;
    while i < |props|
      invariant 0 <= i <= |props|
      invariant r == Pushed(obj, props[..i])
    {
      var entry := props[i];
      if entry.value.Some? {
        r := r[entry.name := JsString(entry.value.value)];
      } else {
        r := r[entry.name := JsNull];
      }
      assert props[..i + 1][..i] == props[..i];
      i := i + 1;
    }
    assert props[..i] == props;
    PushedMeetsPushResult(obj, props);
  }
}
