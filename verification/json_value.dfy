/**
 * The decoded JSON document that the pointer engine walks, and the
 * concrete locations inside it.
 *
 * A PHP string is a byte string; here each `char` of a `string` stands
 * for one byte.
 */
module JsonValue {
  import opened Wrappers

  /** A value as `json_decode` produces it without the associative flag:
      JSON arrays become PHP lists (`Arr`), JSON objects `stdClass`
      instances (`Obj`). */
  datatype Json =
    | Null
    | Bool(b: bool)
    | Num(n: int)
    | Str(s: string)
    | Arr(elems: seq<Json>)
    | Obj(fields: map<string, Json>)

  /** `is_array($x) || is_object($x)`: a node a pointer can step into. */
  predicate IsContainer(j: Json) {
    j.Arr? || j.Obj?
  }

  /** One resolved step: a member of a mapping or an element of a sequence. */
  datatype Step = Field(key: string) | Elem(index: nat)

  /** The node one step below `j`, if that step exists. */
  function Child(j: Json, s: Step): Option<Json> {
    match s
    case Field(k) => if j.Obj? && k in j.fields then Some(j.fields[k]) else None
    case Elem(i) => if j.Arr? && i < |j.elems| then Some(j.elems[i]) else None
  }

  /** The value found by following `path` from `j`, if every step exists. */
  function At(j: Json, path: seq<Step>): Option<Json>
    decreases |path|
  {
    if path == [] then Some(j)
    else
      match Child(j, path[0])
      case Some(c) => At(c, path[1..])
      case None => None
  }

  /** Following a path one step at a time. */
  lemma AtCons(j: Json, s: Step, path: seq<Step>)
    ensures At(j, [s] + path) == if Child(j, s).Some? then At(Child(j, s).value, path) else None
    ensures At(j, [s]) == Child(j, s)
  {
    assert ([s] + path)[1..] == path;
    assert [s][1..] == [];
  }

  /** `j` with its child at step `s` replaced by `c`; a missing step
      leaves `j` as it is. */
  function WithChild(j: Json, s: Step, c: Json): (r: Json)
    ensures j.Obj? ==> r.Obj? && r.fields.Keys == j.fields.Keys
    ensures j.Arr? ==> r.Arr? && |r.elems| == |j.elems|
    ensures !IsContainer(j) ==> r == j
    ensures Child(j, s).Some? ==> Child(r, s) == Some(c)
  {
    match s
    case Field(k) => if j.Obj? && k in j.fields then Obj(j.fields[k := c]) else j
    case Elem(i) => if j.Arr? && i < |j.elems| then Arr(j.elems[i := c]) else j
  }

  /** `j` with the slot at `path` replaced by `v`; a path that does not
      exist leaves `j` as it is. */
  function Update(j: Json, path: seq<Step>, v: Json): (r: Json)
    decreases |path|
    ensures path != [] && j.Obj? ==> r.Obj? && r.fields.Keys == j.fields.Keys
    ensures path != [] && j.Arr? ==> r.Arr? && |r.elems| == |j.elems|
    ensures path != [] && !IsContainer(j) ==> r == j
  {
    if path == [] then v
    else
      match Child(j, path[0])
      case Some(c) => WithChild(j, path[0], Update(c, path[1..], v))
      case None => j
  }

  /** Writing along a path one step at a time. */
  lemma UpdateCons(j: Json, s: Step, path: seq<Step>, v: Json)
    ensures Update(j, [s] + path, v) ==
            if Child(j, s).Some? then WithChild(j, s, Update(Child(j, s).value, path, v)) else j
    ensures Update(j, [s], v) == if Child(j, s).Some? then WithChild(j, s, v) else j
  {
    assert ([s] + path)[1..] == path;
    assert [s][1..] == [];
  }

  /** Both nodes are mappings with the same keys or sequences of the same
      length: the slots are the same, whatever they hold. */
  predicate SameSlots(a: Json, b: Json) {
    (a.Obj? && b.Obj? && a.fields.Keys == b.fields.Keys) ||
    (a.Arr? && b.Arr? && |a.elems| == |b.elems|)
  }

  predicate IsPrefix(p: seq<Step>, q: seq<Step>) {
    |p| <= |q| && q[..|p|] == p
  }

  /** After an update, the written slot holds the written value. */
  lemma {:induction false} UpdateThenAt(j: Json, path: seq<Step>, v: Json)
    requires At(j, path).Some?
    ensures At(Update(j, path, v), path) == Some(v)
    decreases |path|
  {
    if path != [] {
      UpdateThenAt(Child(j, path[0]).value, path[1..], v);
    }
  }

  /** An update changes nothing at a location that is neither above nor
      below the written slot. */
  lemma {:induction false} UpdateElsewhere(j: Json, path: seq<Step>, v: Json, q: seq<Step>)
    requires At(j, path).Some?
    requires !IsPrefix(path, q) && !IsPrefix(q, path)
    ensures At(Update(j, path, v), q) == At(j, q)
    decreases |path|
  {
    assert path != [] && q != [];
    if path[0] == q[0] {
      PrefixCons(path, q);
      PrefixCons(q, path);
      UpdateElsewhere(Child(j, path[0]).value, path[1..], v, q[1..]);
    }
  }

  /** Along the written path every container keeps its kind, its keys and
      its length, and holds the update of its own sub-tree: an update
      never creates a key or changes the length of a sequence. */
  lemma {:induction false} UpdateAlongPath(j: Json, path: seq<Step>, v: Json, k: nat)
    requires At(j, path).Some?
    requires k < |path|
    ensures At(j, path[..k]).Some? && At(Update(j, path, v), path[..k]).Some?
    ensures SameSlots(At(j, path[..k]).value, At(Update(j, path, v), path[..k]).value)
    ensures At(Update(j, path, v), path[..k]).value == Update(At(j, path[..k]).value, path[k..], v)
    decreases |path|
  {
    if k > 0 {
      UpdateAlongPath(Child(j, path[0]).value, path[1..], v, k - 1);
      assert path[..k][1..] == path[1..][..k - 1];
      assert path[1..][k - 1..] == path[k..];
    }
  }

  /** Prefix-ness of two paths that start with the same step is decided
      by their tails. */
  lemma PrefixCons(p: seq<Step>, q: seq<Step>)
    requires p != [] && q != [] && p[0] == q[0]
    ensures IsPrefix(p[1..], q[1..]) <==> IsPrefix(p, q)
  {
    if |p| <= |q| {
      assert q[..|p|] == [q[0]] + q[1..][..|p| - 1];
    }
  }
}
