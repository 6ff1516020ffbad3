/** The `MoeData` store of the renderer: who is signed in (`UserInfo`), the
    configuration list the server sent (`Config`) and the device record
    (`Device`), with its actions and its one getter. */
module AuthStore {
  import opened Wrappers

  /** The JavaScript values the store handles. Objects and arrays are
      references, compared by identity; numbers are integers. */
  datatype JsValue = Undefined | Null | Boolean(b: bool) | Number(n: int) | Text(s: string) | Object(ref: nat)

  /** `!!v`. */
  predicate Truthy(v: JsValue) {
    match v
    case Undefined => false
    case Null => false
    case Boolean(b) => b
    case Number(n) => n != 0
    case Text(s) => s != ""
    case Object(_) => true
  }

  /** One entry of the `Config` array: `{ key, value }`. */
  datatype ConfigItem = ConfigItem(key: JsValue, value: JsValue)

  /** No entry before index `n` has the key. */
  predicate NoneBefore(items: seq<ConfigItem>, key: JsValue, n: int)
    requires n <= |items|
  {
    forall j :: 0 <= j < n ==> items[j].key != key
  }

  /** The index `Array.prototype.find` stops at for the test
      `item => item.key === key`: the first entry with the key, or None
      when there is none. */
  function FindIndex(items: seq<ConfigItem>, key: JsValue): (r: Option<nat>)
    ensures r.Some? ==> r.value < |items| && items[r.value].key == key && NoneBefore(items, key, r.value)
    ensures r.None? ==> NoneBefore(items, key, |items|)
  {
    if items == [] then None
    else if items[0].key == key then Some(0)
    else match FindIndex(items[1..], key)
      case Some(i) => Some(i + 1)
      case None => None
  }

  /** First match wins across a concatenation: entries after a list that
      has the key are never looked at, and a list without the key defers to
      what follows it. */
  lemma {:induction false} FindIndexAppend(xs: seq<ConfigItem>, ys: seq<ConfigItem>, key: JsValue)
    ensures FindIndex(xs + ys, key) ==
      match FindIndex(xs, key)
      case Some(i) => Some(i)
      case None =>
        match FindIndex(ys, key)
        case Some(j) => Some(|xs| + j)
        case None => None
    decreases |xs|
  {
    if xs == [] {
      assert xs + ys == ys;
    } else {
      assert (xs + ys)[0] == xs[0];
      assert (xs + ys)[1..] == xs[1..] + ys;
      FindIndexAppend(xs[1..], ys, key);
    }
  }

  /** The `setData` argument: its `UserInfo` and `Config` properties, the
      latter None when it is null, missing or another falsy value. */
  datatype AuthData = AuthData(userInfo: JsValue, config: Option<seq<ConfigItem>>)

  class MoeAuthStore {
    var userInfo: JsValue
    var config: Option<seq<ConfigItem>>
    var device: map<string, JsValue>

    /** The initial state: `UserInfo: null, Config: null, Device: {}`. */
    constructor()
      ensures userInfo == Null && config == None && device == map[]
    {
      userInfo := Null;
      config := None;
      device := map[];
    }

    /** `fetchConfig(key)`: null while `Config` is null; otherwise the
        value of the first entry whose key is `key`, or null when no entry
        has it. */
    function FetchConfig(key: JsValue): (r: JsValue)
      reads this
      ensures config.None? ==> r == Null
      ensures config.Some? ==>
                forall i :: (0 <= i < |config.value| && config.value[i].key == key
                             && NoneBefore(config.value, key, i)) ==> r == config.value[i].value
      ensures config.Some? && NoneBefore(config.value, key, |config.value|) ==> r == Null
    {
      match config
      case None => Null
      case Some(items) =>
        match FindIndex(items, key)
        case Some(i) => items[i].value
        case None => Null
    }

    /** The `isAuthenticated` getter: signed in unless `UserInfo` is one of
        JavaScript's falsy values. */
    predicate IsAuthenticated(): (r: bool)
      reads this
      ensures r <==> !(|| userInfo.Undefined? || userInfo.Null? || userInfo == Boolean(false)
                       || userInfo == Number(0) || userInfo == Text(""))
    {
      Truthy(userInfo)
    }

    /** `setData(data)`: each of `UserInfo` and `Config` is overwritten
        only by a truthy value; `Device` is never touched. */
    method SetData(data: AuthData)
      modifies this
      ensures userInfo == if Truthy(data.userInfo) then data.userInfo else old(userInfo)
      ensures config == if data.config.Some? then data.config else old(config)
      ensures device == old(device)
      ensures Truthy(data.userInfo) ==> IsAuthenticated()
    {
      if Truthy(data.userInfo) {
        userInfo := data.userInfo;
      }
      if data.config.Some? {
        config := data.config;
      }
    }

    /** `clearData()`: signs out and keeps the rest. */
    method ClearData()
      modifies this
      ensures userInfo == Null && !IsAuthenticated()
      ensures config == old(config) && device == old(device)
    {
      userInfo := Null;
    }
  }
}
