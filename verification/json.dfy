/** JavaScript values as they reach the handlers: the result of `JSON.parse`
    (or `undefined` for a property that is not there), with the three
    operations the handlers apply to them: truthiness (`!v`, `v || ""`),
    `String(v)` and property access `v.key`. */
module Json {
  import opened Wrappers
  import opened Text

  /** A number is carried as the decimal text JavaScript renders for it. */
  datatype Value =
    | Undefined
    | Null
    | Bool(b: bool)
    | Number(text: string)
    | Str(s: string)
    | Array(items: seq<Value>)
    | Object(members: seq<Member>)

  datatype Member = Member(key: string, value: Value)

  /** JavaScript truthiness: `undefined`, `null`, `false`, zero and the empty
      string are falsy; arrays and objects are truthy even when empty. */
  predicate Truthy(v: Value) {
    match v
    case Undefined => false
    case Null => false
    case Bool(b) => b
    case Number(text) => text != "0"
    case Str(s) => s != ""
    case Array(_) => true
    case Object(_) => true
  }

  /** Whether an object has an own member named `key`. */
  predicate HasKey(members: seq<Member>, key: string) {
    exists i :: 0 <= i < |members| && members[i].key == key
  }

  /** `String(v)`, also what a template literal interpolates; `None` when the
      conversion throws a TypeError. An object converts with the inherited
      `toString` unless it has its own `toString` member: no parsed value is
      callable, so the conversion falls back to the inherited `valueOf`,
      which yields the object itself, and that throws. An array is its
      elements joined with ",", and throws when an element does. */
  function ToString(v: Value): Option<string>
    decreases v, 0
  {
    match v
    case Undefined => Some("undefined")
    case Null => Some("null")
    case Bool(b) => Some(if b then "true" else "false")
    case Number(text) => Some(text)
    case Str(s) => Some(s)
    case Array(items) =>
      var parts := ElementStrings(items);
      if parts.None? then None else Some(Join(parts.value, ","))
    case Object(members) => if HasKey(members, "toString") then None else Some("[object Object]")
  }

  /** How `Array.prototype.join` renders one element: `null` and `undefined`
      as the empty string, every other element by `String`. */
  function ElementString(v: Value): Option<string>
    decreases v, 1
  {
    if v.Undefined? || v.Null? then Some("") else ToString(v)
  }

  /** The rendering of every element, or `None` when one of them throws. */
  function ElementStrings(items: seq<Value>): (r: Option<seq<string>>)
    decreases items, 2
    ensures r.Some? <==> forall i :: 0 <= i < |items| ==> ElementString(items[i]).Some?
    ensures r.Some? ==> |r.value| == |items|
    ensures r.Some? ==> forall i :: 0 <= i < |items| ==> r.value[i] == ElementString(items[i]).value
  {
    if items == [] then Some([])
    else
      var head, tail := ElementString(items[0]), ElementStrings(items[1..]);
      if head.None? || tail.None? then None else Some([head.value] + tail.value)
  }

  /** Element rendering distributes over concatenation, and throws on the
      whole exactly when it throws on a part. */
  lemma {:induction false} ElementStringsAppend(a: seq<Value>, b: seq<Value>)
    ensures ElementStrings(a + b) ==
              if ElementStrings(a).Some? && ElementStrings(b).Some?
              then Some(ElementStrings(a).value + ElementStrings(b).value) else None
  {
    var ab := a + b;
    forall i | 0 <= i < |ab| ensures ab[i] == if i < |a| then a[i] else b[i - |a|] {
    }
    var l, ra, rb := ElementStrings(ab), ElementStrings(a), ElementStrings(b);
    if ra.None? {
      var i :| 0 <= i < |a| && ElementString(a[i]).None?;
      assert ab[i] == a[i];
    } else if rb.None? {
      var i :| 0 <= i < |b| && ElementString(b[i]).None?;
      assert ab[|a| + i] == b[i];
    } else {
      assert l.Some?;
      var r := ra.value + rb.value;
      assert forall i :: 0 <= i < |ab| ==> l.value[i] == r[i];
      assert l.value == r;
    }
  }

  /** `v.key`: `None` when `v` is `null` or `undefined` (the access throws a
      TypeError); for an object the value of the last member with that key,
      as `JSON.parse` keeps the last duplicate; otherwise `undefined`, which
      is what every key the handlers read gives on a boolean, number, string
      or array (their own members, such as `length`, are not modelled). */
  function Property(v: Value, key: string): (r: Option<Value>)
    ensures r.None? <==> v.Null? || v.Undefined?
    ensures !v.Object? && r.Some? ==> r.value == Undefined
  {
    match v
    case Undefined => None
    case Null => None
    case Object(members) => Some(LastValue(members, key))
    case _ => Some(Undefined)
  }

  /** The value of the last member named `key`, or `undefined`. */
  function LastValue(members: seq<Member>, key: string): Value {
    if members == [] then Undefined
    else if members[|members| - 1].key == key then members[|members| - 1].value
    else LastValue(members[..|members| - 1], key)
  }

  /** `undefined` when no member has the key; otherwise the value of the
      member with that key that no later member shadows. */
  lemma {:induction false} LastValueIsLast(members: seq<Member>, key: string)
    ensures (forall i :: 0 <= i < |members| ==> members[i].key != key) ==> LastValue(members, key) == Undefined
    ensures forall i :: (0 <= i < |members| && members[i].key == key &&
                         forall j :: i < j < |members| ==> members[j].key != key) ==> LastValue(members, key) == members[i].value
    ensures LastValue(members, key) != Undefined ==>
              exists i :: 0 <= i < |members| && members[i] == Member(key, LastValue(members, key))
  {
    if members != [] && members[|members| - 1].key != key {
      var init := members[..|members| - 1];
      LastValueIsLast(init, key);
      assert LastValue(members, key) == LastValue(init, key);
      forall i | 0 <= i < |members| && members[i].key == key ensures i < |init| && members[i] == init[i] {
      }
      if LastValue(members, key) != Undefined {
        var i :| 0 <= i < |init| && init[i] == Member(key, LastValue(init, key));
        assert members[i] == init[i];
      }
    }
  }

  /** A member added at the end wins for its own key and leaves the others
      as they were. */
  lemma LastValueSnoc(members: seq<Member>, m: Member, key: string)
    ensures LastValue(members + [m], key) == if m.key == key then m.value else LastValue(members, key)
  {
    assert (members + [m])[..|members|] == members;
  }
}
