/** JSON values as the page's `JSON.parse` produces them, and the handful of
    JavaScript value semantics the capture pipeline relies on: truthiness,
    property reads (with `undefined`), `includes` on strings and ASCII
    lower-casing. */
module Js {

  datatype Option<+T> = None | Some(value: T)

  /** A parsed JSON value. Numbers are integers (see README, "Left out");
      an object keeps its own keys in enumeration order. */
  datatype JsonValue =
    | JNull
    | JBool(b: bool)
    | JNum(n: int)
    | JStr(s: string)
    | JArr(items: seq<JsonValue>)
    | JObj(fields: seq<(string, JsonValue)>)

  /** The value of a property read: `None` is `undefined`. */
  type Prop = Option<JsonValue>

  /** JavaScript truthiness of a read value. */
  predicate Truthy(p: Prop)
  {
    match p
    case None => false
    case Some(v) =>
      match v
      case JNull => false
      case JBool(b) => b
      case JNum(n) => n != 0
      case JStr(s) => s != ""
      case JArr(_) => true
      case JObj(_) => true
  }

  /** `typeof v === 'object' && v !== null` for a parsed JSON value. */
  predicate IsContainer(v: JsonValue)
  {
    v.JArr? || v.JObj?
  }

  /** `Array.isArray(p)`. */
  predicate IsArray(p: Prop)
  {
    p.Some? && p.value.JArr?
  }

  /** `typeof p === 'string'`. */
  predicate IsString(p: Prop)
  {
    p.Some? && p.value.JStr?
  }

  /** Reading any property of `null` or `undefined` throws a TypeError. */
  predicate ReadThrows(p: Prop)
  {
    p.None? || p.value == JNull
  }

  /** The first field named `key`, or `undefined`. */
  function Lookup(fields: seq<(string, JsonValue)>, key: string): (r: Prop)
    ensures r.Some? <==> exists i :: 0 <= i < |fields| && fields[i].0 == key
    ensures r.Some? ==> exists i :: 0 <= i < |fields| && fields[i] == (key, r.value)
  {
    if fields == [] then None
    else if fields[0].0 == key then Some(fields[0].1)
    else
      var r := Lookup(fields[1..], key);
      assert forall i :: 0 < i < |fields| ==> fields[i] == fields[1..][i - 1];
      r
  }

  /** `p.key` for a named, non-index key read from a value that is not
      `null`/`undefined` (the caller checks `ReadThrows` where the source can
      throw). Objects expose their fields; arrays and strings expose `length`.
      None of the keys the pipeline reads names a prototype member, so every
      other read is `undefined`. */
  function Get(p: Prop, key: string): (r: Prop)
    ensures p.Some? && p.value.JObj? ==> r == Lookup(p.value.fields, key)
    ensures r.Some? ==> p.Some? && (p.value.JObj? || key == "length")
  {
    match p
    case Some(JObj(fields)) => Lookup(fields, key)
    case Some(JArr(items)) => if key == "length" then Some(JNum(|items|)) else None
    case Some(JStr(s)) => if key == "length" then Some(JNum(|s|)) else None
    case _ => None
  }

  /** `p[0]`: the first element of an array, the first character of a
      string, the field "0" of an object, otherwise `undefined`. */
  function Elem0(p: Prop): (r: Prop)
    ensures IsArray(p) && |p.value.items| > 0 ==> r == Some(p.value.items[0])
    ensures IsArray(p) && |p.value.items| == 0 ==> r.None?
  {
    match p
    case Some(JArr(items)) => if |items| > 0 then Some(items[0]) else None
    case Some(JStr(s)) => if |s| > 0 then Some(JStr([s[0]])) else None
    case Some(JObj(fields)) => Lookup(fields, "0")
    case _ => None
  }

  /** `p > 0` for the values a `length` read yields. */
  predicate Positive(p: Prop)
  {
    match p
    case Some(JNum(n)) => n > 0
    case Some(JBool(b)) => b
    case _ => false
  }

  /** `sub` occurs in `s` starting at index `i`. */
  predicate OccursAt(s: string, sub: string, i: int)
  {
    0 <= i && i + |sub| <= |s| && s[i..i + |sub|] == sub
  }

  /** `s.includes(sub)`, as a search from the left. */
  predicate Contains(s: string, sub: string)
    decreases |s|
  {
    if |s| < |sub| then false
    else if sub <= s then true
    else Contains(s[1..], sub)
  }

  /** `Contains` holds exactly when `sub` occurs at some index of `s`. */
  lemma {:induction false} ContainsIff(s: string, sub: string)
    ensures Contains(s, sub) <==> exists i :: OccursAt(s, sub, i)
    decreases |s|
  {
    if |s| < |sub| {
      assert forall i :: !OccursAt(s, sub, i);
    } else if sub <= s {
      assert OccursAt(s, sub, 0);
    } else {
      ContainsIff(s[1..], sub);
      assert !OccursAt(s, sub, 0);
      forall i | OccursAt(s, sub, i)
        ensures OccursAt(s[1..], sub, i - 1)
      {
        assert s[1..][i - 1..i - 1 + |sub|] == s[i..i + |sub|];
      }
      forall i | OccursAt(s[1..], sub, i)
        ensures OccursAt(s, sub, i + 1)
      {
        assert s[1..][i..i + |sub|] == s[i + 1..i + 1 + |sub|];
      }
    }
  }

  /** Whatever contains `big` contains every part of `big`. */
  lemma ContainsTransitive(s: string, big: string, sub: string)
    requires Contains(s, big) && Contains(big, sub)
    ensures Contains(s, sub)
  {
    ContainsIff(s, big);
    ContainsIff(big, sub);
    var i :| OccursAt(s, big, i);
    var j :| OccursAt(big, sub, j);
    assert forall k :: 0 <= k < |sub| ==> s[i + j + k] == big[j + k] == sub[k];
    assert s[i + j..i + j + |sub|] == sub;
    assert OccursAt(s, sub, i + j);
    ContainsIff(s, sub);
  }

  function LowerChar(c: char): (r: char)
    ensures 'A' <= c <= 'Z' ==> 'a' <= r <= 'z'
    ensures !('A' <= c <= 'Z') ==> r == c
  {
    if 'A' <= c <= 'Z' then (c as int + 32) as char else c
  }

  /** `s.toLowerCase()` on the ASCII letters. */
  function Lower(s: string): (r: string)
    ensures |r| == |s|
    ensures forall i :: 0 <= i < |s| ==> r[i] == LowerChar(s[i])
  {
    if s == [] then [] else [LowerChar(s[0])] + Lower(s[1..])
  }

  /** Lower-casing twice changes nothing. */
  lemma LowerIdempotent(s: string)
    ensures Lower(Lower(s)) == Lower(s)
  {
    assert forall i :: 0 <= i < |s| ==> Lower(Lower(s))[i] == Lower(s)[i];
  }
}
