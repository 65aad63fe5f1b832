/**
 * The Python values an already-parsed YAML document (and a caller's arguments)
 * are made of, with the few dictionary operations the library performs on them.
 *
 * A dictionary is kept as its list of key/value bindings in document order; as
 * when PyYAML builds a `dict`, a later binding of a key hides an earlier one.
 * Keys are strings.
 */
module Values {
  import opened Results
  import opened Text

  datatype Value =
    | Null
    | Bool(b: bool)
    | Int(i: int)
    | Str(s: string)
    | List(items: seq<Value>)
    | Dict(pairs: seq<(string, Value)>)

  /** The keys bound in `pairs`. */
  function Keys(pairs: seq<(string, Value)>): set<string>
  {
    set i | 0 <= i < |pairs| :: pairs[i].0
  }

  lemma KeysSnoc(pairs: seq<(string, Value)>, p: (string, Value))
    ensures Keys(pairs + [p]) == Keys(pairs) + {p.0}
  {
    var ps := pairs + [p];
    forall k | k in Keys(ps) ensures k in Keys(pairs) + {p.0} {
      var i :| 0 <= i < |ps| && ps[i].0 == k;
      if i < |pairs| {
        assert pairs[i].0 == k;
      }
    }
    forall k | k in Keys(pairs) ensures k in Keys(ps) {
      var i :| 0 <= i < |pairs| && pairs[i].0 == k;
      assert ps[i].0 == k;
    }
    assert ps[|pairs|].0 == p.0;
  }

  lemma KeysInit(pairs: seq<(string, Value)>)
    requires |pairs| > 0
    ensures Keys(pairs) == Keys(pairs[..|pairs| - 1]) + {pairs[|pairs| - 1].0}
  {
    KeysSnoc(pairs[..|pairs| - 1], pairs[|pairs| - 1]);
    assert pairs[..|pairs| - 1] + [pairs[|pairs| - 1]] == pairs;
  }

  /** `d.get(k)`: the value of the last binding of `k`. */
  function Lookup(pairs: seq<(string, Value)>, k: string): (r: Option<Value>)
    ensures r.Some? <==> k in Keys(pairs)
  {
    if |pairs| == 0 then None
    else if pairs[|pairs| - 1].0 == k then Some(pairs[|pairs| - 1].1)
    else
      var r := Lookup(pairs[..|pairs| - 1], k);
      KeysInit(pairs);
      r
  }

  /** `del d[k]`: every binding of `k` dropped, the others kept in order. */
  function Without(pairs: seq<(string, Value)>, k: string): (r: seq<(string, Value)>)
    ensures Keys(r) == Keys(pairs) - {k}
    ensures forall j :: j != k ==> Lookup(r, j) == Lookup(pairs, j)
  {
    if |pairs| == 0 then []
    else
      var init := pairs[..|pairs| - 1];
      var last := pairs[|pairs| - 1];
      var r := Without(init, k);
      KeysInit(pairs);
      if last.0 == k then r
      else
        KeysSnoc(r, last);
        assert (r + [last])[..|r|] == r;
        r + [last]
  }

  /** The Python `dict` a list of bindings denotes. */
  function ToMap(pairs: seq<(string, Value)>): (m: map<string, Value>)
    ensures m.Keys == Keys(pairs)
    ensures forall k :: k in m ==> Lookup(pairs, k) == Some(m[k])
  {
    if |pairs| == 0 then map[]
    else
      var init := pairs[..|pairs| - 1];
      KeysInit(pairs);
      ToMap(init)[pairs[|pairs| - 1].0 := pairs[|pairs| - 1].1]
  }

  /** Python's `key in container` for a string key. */
  function Contains(container: Value, key: string): (r: Result<bool>)
    ensures container.Dict? ==> r == Ok(key in Keys(container.pairs))
    ensures container.List? ==> r == Ok(Str(key) in container.items)
    ensures container.Str? ==> r == Ok(IsSubstring(key, container.s))
    ensures r.Err? <==> container.Null? || container.Bool? || container.Int?
  {
    match container
    case Dict(pairs) => Ok(key in Keys(pairs))
    case List(items) => Ok(Str(key) in items)
    case Str(s) => Ok(IsSubstring(key, s))
    case _ => Raise("TypeError")
  }

  /** Python's `container[key]` for a string key. */
  function Item(container: Value, key: string): (r: Result<Value>)
    ensures r.Ok? <==> container.Dict? && key in Keys(container.pairs)
    ensures r.Ok? ==> Lookup(container.pairs, key) == Some(r.value)
  {
    match container
    case Dict(pairs) => if key in Keys(pairs) then Ok(Lookup(pairs, key).value) else Raise("KeyError")
    case _ => Raise("TypeError")
  }

  /** `repr(v)` for the values that are neither strings nor containers. */
  function Repr(v: Value): string
  {
    match v
    case Null => "None"
    case Bool(b) => if b then "True" else "False"
    case Int(i) => IntToString(i)
    case _ => "<container>"
  }
}
