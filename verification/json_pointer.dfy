/**
 * The engine object: a decoded document whose root can be walked, the
 * last validated pointer, and the `get`/`set` entry points.
 */
module JsonPointer {
  import opened Wrappers
  import opened JsonValue
  import opened PointerSyntax
  import opened Walker

  /** `isWalkableJson`: only a sequence or a mapping can be pointed
      through. */
  predicate IsWalkable(doc: Json) {
    doc.Arr? || doc.Obj?
  }

  /** What `get` returns for a pointer argument. The empty pointer yields
      the whole document (the PHP code returns it re-encoded as text). */
  function GetValue(doc: Json, p: PointerArg): (r: Result<Json, PointerError>)
    ensures p == Text("") ==> r == Ok(doc)
    ensures p != Text("") && ValidatePointer(p).Err? ==> r == Err(ValidatePointer(p).error)
    ensures r.Err? && r.error.NonexistentValue? ==> p == Text(r.error.pointer)
  {
    if p == Text("") then Ok(doc)
    else
      match ValidatePointer(p)
      case Err(e) => Err(e)
      case Ok(s) =>
        match Traverse(doc, Tokenize(s))
        case Some(v) => Ok(v)
        case None => Err(NonexistentValue(s))
  }

  /** The document after `set`, defined by the slot the pointer locates.
      The empty pointer changes nothing. */
  function SetValue(doc: Json, p: PointerArg, v: Json): (r: Result<Json, PointerError>)
    ensures p == Text("") ==> r == Ok(doc)
    ensures p != Text("") && ValidatePointer(p).Err? ==> r == Err(ValidatePointer(p).error)
    ensures r.Err? && r.error.NonexistentValue? ==> p == Text(r.error.pointer)
  {
    if p == Text("") then Ok(doc)
    else
      match ValidatePointer(p)
      case Err(e) => Err(e)
      case Ok(s) =>
        match WriteAt(doc, Locate(doc, Tokenize(s)), v)
        case Some(d) => Ok(d)
        case None => Err(NonexistentValue(s))
  }

  /** The recorded pointer after a `get` or `set` with argument `p`: a
      pointer that passed validation, recorded before the walk. */
  function LastPointer(previous: Option<string>, p: PointerArg): Option<string> {
    if ValidatePointer(p).Ok? then Some(p.s) else previous
  }

  /** A pointer whose every token is used to reach an existing slot. */
  predicate ResolvesFully(doc: Json, p: PointerArg) {
    ValidatePointer(p).Ok? &&
    var tokens := Tokenize(p.s);
    Locate(doc, tokens).Found? && |Locate(doc, tokens).path| == |tokens|
  }

  lemma ValidPointerHasTokens(s: string)
    requires s != [] && s[0] == Separator
    ensures Tokenize(s) != []
  {
    assert Count(s, Separator) == 1 + Count(s[1..], Separator);
  }

  // ---------------------------------------------------------------------
  // properties of get and set

  /** `get` and `set` share their case analysis: for the same pointer both
      succeed or both fail, with the same error. */
  lemma GetSetSameOutcome(doc: Json, p: PointerArg, v: Json)
    ensures GetValue(doc, p).Ok? <==> SetValue(doc, p, v).Ok?
    ensures GetValue(doc, p).Err? ==> SetValue(doc, p, v) == Err(GetValue(doc, p).error)
  {
    if p != Text("") && ValidatePointer(p).Ok? {
      ValidPointerHasTokens(p.s);
      TraverseReadsLocation(doc, Tokenize(p.s));
    }
  }

  /** A `set` whose pointer uses every token is seen by a following `get`
      of the same pointer. */
  lemma SetThenGet(doc: Json, p: PointerArg, v: Json)
    requires ResolvesFully(doc, p)
    ensures SetValue(doc, p, v).Ok? && GetValue(SetValue(doc, p, v).value, p) == Ok(v)
  {
    ValidPointerHasTokens(p.s);
    ReadAfterWrite(doc, Tokenize(p.s), v);
  }

  /** A successful `set` writes one existing slot below the root, or
      nothing at all: with keys matched exactly, it creates no key and
      changes no sequence length
      (see `UpdateElsewhere` and `UpdateAlongPath` for what an update
      leaves alone), and the root stays walkable. */
  lemma SetWritesOneSlot(doc: Json, p: PointerArg, v: Json)
    requires SetValue(doc, p, v).Ok?
    ensures var d := SetValue(doc, p, v).value;
      d == doc || exists path :: path != [] && At(doc, path).Some? && d == Update(doc, path, v)
    ensures IsWalkable(doc) ==> IsWalkable(SetValue(doc, p, v).value)
    ensures IsWalkable(doc) ==> SameSlots(doc, SetValue(doc, p, v).value)
  {
    if p != Text("") {
      var tokens := Tokenize(p.s);
      ValidPointerHasTokens(p.s);
      var target := Locate(doc, tokens);
      if target.Found? {
        assert SetValue(doc, p, v).value == Update(doc, target.path, v);
        assert target.path != [] && At(doc, target.path).Some?;
      }
    }
  }

  /** For a pointer composed from reference tokens that RFC 6901 evaluation
      resolves, `get` returns the value RFC 6901 designates. */
  lemma GetAgreesWithRfc(doc: Json, tokens: seq<string>)
    requires tokens != []
    requires forall i :: 0 <= i < |tokens| ==> IsByteString(tokens[i])
    requires RfcLocate(doc, tokens).Some?
    ensures At(doc, RfcLocate(doc, tokens).value).Some?
    ensures GetValue(doc, Text(Compose(tokens))) == Ok(At(doc, RfcLocate(doc, tokens).value).value)
  {
    var s := Compose(tokens);
    ComposeTokenize(tokens);
    var pieces := seq(|tokens|, i requires 0 <= i < |tokens| => EncodeToken(tokens[i]));
    assert s == [] + [Separator] + Join(pieces);
    RfcAgreement(doc, tokens);
    TraverseReadsLocation(doc, tokens);
  }

  // ---------------------------------------------------------------------
  // the engine object

  class Pointer {
    /** The decoded document (`$json`). */
    var json: Json
    /** The last validated pointer (`$pointer`), unset until the first one. */
    var pointer: Option<string>

    ghost predicate Valid()
      reads this
    {
      IsWalkable(json)
    }

    constructor (decoded: Json)
      requires IsWalkable(decoded)
      ensures Valid() && json == decoded && pointer == None
    {
      json := decoded;
      pointer := None;
    }

    /** `__construct` on an already decoded document: a root that cannot
        be walked raises NonWalkableJson. */
    static method Open(decoded: Json) returns (r: Result<Pointer, PointerError>)
      ensures r.Ok? <==> IsWalkable(decoded)
      ensures r.Err? ==> r.error == NonWalkableJson
      ensures r.Ok? ==> fresh(r.value) && r.value.Valid() && r.value.json == decoded && r.value.pointer == None
    {
      if IsWalkable(decoded) {
        var engine := new Pointer(decoded);
        r := Ok(engine);
      } else {
        r := Err(NonWalkableJson);
      }
    }

    /** `getPointer`. */
    function GetPointer(): Option<string>
      reads this
    {
      pointer
    }

    /** `get`: the pointer is recorded as soon as it is validated, before
        the walk, so it is recorded on a failed walk too. */
    method Get(p: PointerArg) returns (r: Result<Json, PointerError>)
      modifies this`pointer
      ensures r == GetValue(json, p)
      ensures pointer == LastPointer(old(pointer), p)
    {
      if p == Text("") {
        return Ok(json);
      }
      var checked := ValidatePointer(p);
      if checked.Err? {
        return Err(checked.error);
      }
      var s := checked.value;
      pointer := Some(s);
      ValidPointerHasTokens(s);
      var found := Traverse(json, Tokenize(s));
      r := if found.Some? then Ok(found.value) else Err(NonexistentValue(GetPointer().value));
    }

    /** `set`: writes through the walk; on any failure the document is
        left as it was. */
    method Set(p: PointerArg, v: Json) returns (failure: Option<PointerError>)
      requires Valid()
      modifies this
      ensures Valid()
      ensures pointer == LastPointer(old(pointer), p)
      ensures SetValue(old(json), p, v).Ok? ==> failure == None && json == SetValue(old(json), p, v).value
      ensures SetValue(old(json), p, v).Err? ==> failure == Some(SetValue(old(json), p, v).error) && json == old(json)
    {
      if p == Text("") {
        return None;
      }
      var checked := ValidatePointer(p);
      if checked.Err? {
        return Some(checked.error);
      }
      var s := checked.value;
      pointer := Some(s);
      ValidPointerHasTokens(s);
      var written := Traverset(json, Tokenize(s), v);
      if written.Some? {
        SetWritesOneSlot(json, p, v);
        json := written.value;
        failure := None;
      } else {
        failure := Some(NonexistentValue(GetPointer().value));
      }
    }
  }
}
