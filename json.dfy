/**
 * The logical JSON tree that the encoder builds, and the part of Go's
 * json.Marshal that decides whether a top-level object can be encoded.
 * Values supplied by callers (Go's interface{}) stay opaque.
 */
module Json {
  import opened Wrappers

  datatype Json<V> =
    | JObject(fields: map<string, Json<V>>)
    | JArray(items: seq<Json<V>>)
    | JString(str: string)
    | JInt(num: int)
    | JOpaque(value: V)

  /**
   * strings.Compare(a, b) < 0: the order in which json.Marshal writes, and
   * therefore encodes, the keys of a map. Characters compare by code point,
   * which agrees with Go's byte order on UTF-8.
   */
  predicate KeyLess(a: string, b: string)
    ensures KeyLess(a, b) ==> a != b
    ensures a < b ==> KeyLess(a, b)
  {
    if a == [] then b != []
    else if b == [] then false
    else if a[0] != b[0] then a[0] < b[0]
    else KeyLess(a[1..], b[1..])
  }

  lemma {:induction false} KeyLessIrreflexive(a: string)
    ensures !KeyLess(a, a)
  {
    if a != [] {
      KeyLessIrreflexive(a[1..]);
    }
  }

  lemma {:induction false} KeyLessTransitive(a: string, b: string, c: string)
    requires KeyLess(a, b) && KeyLess(b, c)
    ensures KeyLess(a, c)
  {
    if a != [] && a[0] == b[0] && b[0] == c[0] {
      KeyLessTransitive(a[1..], b[1..], c[1..]);
    }
  }

  lemma {:induction false} KeyLessTotal(a: string, b: string)
    requires a != b
    ensures KeyLess(a, b) || KeyLess(b, a)
  {
    if a != [] && b != [] && a[0] == b[0] {
      assert a == [a[0]] + a[1..] && b == [b[0]] + b[1..];
      KeyLessTotal(a[1..], b[1..]);
    }
  }

  /**
   * `check(v)` is the error json.Marshal reports for the caller's value v,
   * or None when v encodes. Key k of `fields` holds such a failing value.
   */
  ghost predicate Unsupported<V>(fields: map<string, Json<V>>, check: V -> Option<string>, k: string)
  {
    k in fields && fields[k].JOpaque? && check(fields[k].value).Some?
  }

  /** k is the first failing key in the order json.Marshal encodes them. */
  ghost predicate IsFirstUnsupported<V>(fields: map<string, Json<V>>, check: V -> Option<string>, k: string)
  {
    && Unsupported(fields, check, k)
    && forall k' :: Unsupported(fields, check, k') && k' != k ==> KeyLess(k, k')
  }

  /** The failing key json.Marshal reports is determined by the object. */
  lemma FirstUnsupportedUnique<V>(fields: map<string, Json<V>>, check: V -> Option<string>, k1: string, k2: string)
    requires IsFirstUnsupported(fields, check, k1) && IsFirstUnsupported(fields, check, k2)
    ensures k1 == k2
  {
    if k1 != k2 {
      KeyLessTransitive(k1, k2, k1);
      KeyLessIrreflexive(k1);
    }
  }

  /**
   * json.Marshal of an object whose caller-supplied values all sit at the
   * top level: it encodes the keys in sorted order and stops at the first
   * value that cannot be encoded, reporting that value's error.
   */
  method MarshalObject<V>(fields: map<string, Json<V>>, check: V -> Option<string>) returns (r: Result<Json<V>>)
    ensures r.Success? <==> forall k :: !Unsupported(fields, check, k)
    ensures r.Success? ==> r.value == JObject(fields)
    ensures r.Failure? ==>
      exists k :: IsFirstUnsupported(fields, check, k) && r.error == check(fields[k].value).value
  {
    var remaining := fields.Keys;
    var first: Option<string> := None;
    while remaining != {}
      invariant remaining <= fields.Keys
      invariant first.None? ==>
        forall k :: k in fields.Keys - remaining ==> !Unsupported(fields, check, k)
      invariant first.Some? ==>
        && first.value in fields.Keys - remaining
        && Unsupported(fields, check, first.value)
        && forall k :: k in fields.Keys - remaining && Unsupported(fields, check, k) && k != first.value
             ==> KeyLess(first.value, k)
      decreases remaining
    {
      var k :| k in remaining;
      if fields[k].JOpaque? && check(fields[k].value).Some? {
        if first.None? {
          first := Some(k);
        } else if KeyLess(k, first.value) {
          var previous := first.value;
          forall k' | k' in fields.Keys - remaining && Unsupported(fields, check, k') && k' != previous
            ensures KeyLess(k, k')
          {
            KeyLessTransitive(k, previous, k');
          }
          first := Some(k);
        } else {
          KeyLessTotal(k, first.value);
        }
      }
      remaining := remaining - {k};
    }
    if first.None? {
      r := Success(JObject(fields));
    } else {
      r := Failure(check(fields[first.value].value).value);
    }
  }
}
