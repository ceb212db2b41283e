/** The `inObject(value, obj)` helper of the customizer script. */
module JsObjects {

  /** A JavaScript object as a `for…in` loop sees it: its own enumerable
      properties, and the enumerable properties it inherits from its prototype
      chain (an inherited key that the object also owns is shadowed). */
  datatype JsObject<V> = JsObject(own: map<string, V>, inherited: map<string, V>)

  /** The keys a `for (var k in obj)` loop visits. */
  function ForInKeys<V>(obj: JsObject<V>): set<string>
  {
    obj.own.Keys + obj.inherited.Keys
  }

  /** Whether some own property of `obj` holds `value`. */
  ghost predicate HasOwnValue<V>(obj: JsObject<V>, value: V)
  {
    exists k :: k in obj.own && obj.own[k] == value
  }

  /** `inObject`: visits the keys in some order, skips those that fail
      `hasOwnProperty`, and returns as soon as an own value is strictly equal to
      `value`. The order of visiting does not affect the answer. */
  method InObject<V(==)>(value: V, obj: JsObject<V>) returns (found: bool)
    ensures found <==> HasOwnValue(obj, value)
    ensures found <==> value in obj.own.Values
    ensures obj.own == map[] ==> !found
  {
    var pending := ForInKeys(obj);
    while pending != {}
      invariant pending <= ForInKeys(obj)
      invariant forall k :: k in obj.own && k !in pending ==> obj.own[k] != value
      decreases pending
    {
      var k :| k in pending;
      pending := pending - {k};
      if k !in obj.own {
        continue;
      }
      if obj.own[k] == value {
        return true;
      }
    }
    return false;
  }
}
