/**
 * The tree walker: `traverse` (read) and `traverset` (write), and the
 * location both of them resolve a token list to.
 */
module Walker {
  import opened Wrappers
  import opened JsonValue

  /** `LAST_ARRAY_ELEMENT_CHAR`. */
  const LastElementMarker: string := "-"

  // ---------------------------------------------------------------------
  // sequence indexes

  predicate IsDigit(c: char) {
    '0' <= c <= '9'
  }

  /** The strings PHP turns into an integer array key that can be a list
      index: a decimal numeral without sign or leading zero. */
  predicate IsCanonicalIndex(t: string) {
    t != [] && (forall i :: 0 <= i < |t| ==> IsDigit(t[i])) && (t[0] == '0' ==> |t| == 1)
  }

  function DecimalValue(t: string): nat
    requires forall i :: 0 <= i < |t| ==> IsDigit(t[i])
  {
    if t == [] then 0
    else
      assert IsDigit(t[|t| - 1]);
      10 * DecimalValue(t[..|t| - 1]) + (t[|t| - 1] as int - '0' as int)
  }

  /** The decimal numeral of `n`, as PHP prints an integer. */
  function Decimal(n: nat): (t: string)
  {
    if n < 10 then [('0' as int + n) as char]
    else Decimal(n / 10) + [('0' as int + n % 10) as char]
  }

  lemma {:induction false} DecimalIsCanonical(n: nat)
    ensures IsCanonicalIndex(Decimal(n)) && DecimalValue(Decimal(n)) == n
  {
    if n >= 10 {
      DecimalIsCanonical(n / 10);
      var t := Decimal(n);
      assert t[..|t| - 1] == Decimal(n / 10);
    }
  }

  lemma {:induction false} LeadingDigitPositive(t: string)
    requires IsCanonicalIndex(t) && t[0] != '0'
    ensures DecimalValue(t) >= 1
    decreases |t|
  {
    if |t| > 1 {
      LeadingDigitPositive(t[..|t| - 1]);
    }
  }

  lemma {:induction false} CanonicalIsDecimal(t: string)
    requires IsCanonicalIndex(t)
    ensures Decimal(DecimalValue(t)) == t
    decreases |t|
  {
    if |t| > 1 {
      var init := t[..|t| - 1];
      CanonicalIsDecimal(init);
      LeadingDigitPositive(init);
      var d := t[|t| - 1] as int - '0' as int;
      var n := DecimalValue(t);
      assert n == 10 * DecimalValue(init) + d;
      assert n / 10 == DecimalValue(init) && n % 10 == d;
      assert t == init + [t[|t| - 1]];
    }
  }

  /** `isset`/`array_key_exists` of a token on a list of `len` elements:
      the index the token names, if it names one. */
  function ArrayIndex(t: string, len: nat): (r: Option<nat>)
    ensures r.Some? ==> r.value < len
  {
    if IsCanonicalIndex(t) && DecimalValue(t) < len then Some(DecimalValue(t)) else None
  }

  /** A token selects element `i` exactly when it is the decimal numeral
      of an index in bounds. */
  lemma ArrayIndexIff(t: string, len: nat, i: nat)
    ensures ArrayIndex(t, len) == Some(i) <==> i < len && t == Decimal(i)
  {
    DecimalIsCanonical(i);
    if IsCanonicalIndex(t) {
      CanonicalIsDecimal(t);
    }
  }

  // ---------------------------------------------------------------------
  // the read walker

  /** `traverse`: the value the tokens reach from `node`, or `None` where
      the PHP code throws NonexistentValueReferenced. */
  function Traverse(node: Json, tokens: seq<string>): Option<Json>
    requires tokens != []
    decreases |tokens|
  {
    var t, rest := tokens[0], tokens[1..];
    match node
    case Arr(a) =>
      var idx := ArrayIndex(t, |a|);
      if idx.Some? && a[idx.value] != Null then          // isset($json[$t])
        if rest == [] then Some(a[idx.value])
        else if IsContainer(a[idx.value]) then Traverse(a[idx.value], rest)
        else None
      else if t == LastElementMarker then                   // end($json)
        Some(if a == [] then Bool(false) else a[|a| - 1])
      else if idx.Some? && a[idx.value] == Null then Some(Null)
      else None
    case Obj(m) =>
      if t in m then
        if rest == [] then Some(m[t])
        else if IsContainer(m[t]) then Traverse(m[t], rest)
        else None
      else None
    case _ => None
  }

  // ---------------------------------------------------------------------
  // the location both walkers resolve

  /** Where a walk ends: at a slot, at the marker `-` on an empty
      sequence (which has no slot), or nowhere. */
  datatype Target = Found(path: seq<Step>) | EndOfEmpty | Missing

  function Prepend(s: Step, t: Target): Target {
    if t.Found? then Found([s] + t.path) else t
  }

  /** The slot the tokens address under the case analysis shared by
      `traverse` and `traverset`. */
  function Locate(node: Json, tokens: seq<string>): (r: Target)
    requires tokens != []
    ensures r.Found? ==> 1 <= |r.path| <= |tokens| && At(node, r.path).Some?
    decreases |tokens|
  {
    var t, rest := tokens[0], tokens[1..];
    match node
    case Arr(a) =>
      var idx := ArrayIndex(t, |a|);
      if idx.Some? && a[idx.value] != Null then
        if rest == [] then Found([Elem(idx.value)])
        else if IsContainer(a[idx.value]) then Prepend(Elem(idx.value), Locate(a[idx.value], rest))
        else Missing
      else if t == LastElementMarker then
        if a == [] then EndOfEmpty else Found([Elem(|a| - 1)])
      else if idx.Some? then Found([Elem(idx.value)])
      else Missing
    case Obj(m) =>
      if t in m then
        if rest == [] then Found([Field(t)])
        else if IsContainer(m[t]) then Prepend(Field(t), Locate(m[t], rest))
        else Missing
      else Missing
    case _ => Missing
  }

  /** What a read at a target yields; `end([])` is `false`. */
  function ReadAt(node: Json, target: Target): Option<Json> {
    match target
    case Found(path) => At(node, path)
    case EndOfEmpty => Some(Bool(false))
    case Missing => None
  }

  /** What a write at a target leaves; `-` on an empty sequence writes
      nothing and does not fail. */
  function WriteAt(node: Json, target: Target, v: Json): Option<Json> {
    match target
    case Found(path) => Some(Update(node, path, v))
    case EndOfEmpty => Some(node)
    case Missing => None
  }

  /** The read walker returns the value at the located slot and fails
      exactly where the location is missing. */
  lemma {:induction false} TraverseReadsLocation(node: Json, tokens: seq<string>)
    requires tokens != []
    ensures Traverse(node, tokens) == ReadAt(node, Locate(node, tokens))
    decreases |tokens|
  {
    var t, rest := tokens[0], tokens[1..];
    match node
    case Arr(a) =>
      var idx := ArrayIndex(t, |a|);
      if idx.Some? && a[idx.value] != Null {
        var i := idx.value;
        AtCons(node, Elem(i), []);
        if rest != [] && IsContainer(a[i]) {
          TraverseReadsLocation(a[i], rest);
          if Locate(a[i], rest).Found? {
            AtCons(node, Elem(i), Locate(a[i], rest).path);
          }
        }
      } else if t == LastElementMarker {
        if a != [] {
          AtCons(node, Elem(|a| - 1), []);
        }
      } else if idx.Some? {
        AtCons(node, Elem(idx.value), []);
      }
    case Obj(m) =>
      if t in m {
        AtCons(node, Field(t), []);
        if rest != [] && IsContainer(m[t]) {
          TraverseReadsLocation(m[t], rest);
          if Locate(m[t], rest).Found? {
            AtCons(node, Field(t), Locate(m[t], rest).path);
          }
        }
      }
    case _ =>
  }

  // ---------------------------------------------------------------------
  // the write walker

  /** The counting `foreach` of the `-` branch of `traverset`: the
      element whose position equals the count is overwritten. */
  method OverwriteLast(a: seq<Json>, v: Json) returns (r: seq<Json>)
    ensures |r| == |a|
    ensures a == [] ==> r == a
    ensures a != [] ==> r[|a| - 1] == v && r[..|a| - 1] == a[..|a| - 1]
  {
    r := a;
    var i, c := 0, |a|;
    var k := 0;
    while k < |a|
      invariant 0 <= k <= |a| && i == k && r == a
      invariant a != [] ==> k < |a|
    {
      i := i + 1;
      if i == c {
        r := r[k := v];
        break;
      }
      k := k + 1;
    }
  }

  /** `traverset`: the tree after the write, or `None` where the PHP code
      throws NonexistentValueReferenced. The PHP code writes through a
      chain of references; here each container on the way is rebuilt
      around its updated child. */
  method Traverset(node: Json, tokens: seq<string>, v: Json) returns (r: Option<Json>)
    requires tokens != []
    ensures r == WriteAt(node, Locate(node, tokens), v)
    decreases |tokens|
  {
    var t, rest := tokens[0], tokens[1..];
    match node {
      case Arr(a) =>
        var idx := ArrayIndex(t, |a|);
        if idx.Some? && a[idx.value] != Null {
          var i := idx.value;
          UpdateCons(node, Elem(i), [], v);
          if rest == [] {
            r := Some(Arr(a[i := v]));
          } else if IsContainer(a[i]) {
            var child := Traverset(a[i], rest, v);
            r := if child.Some? then Some(Arr(a[i := child.value])) else None;
            var target := Locate(a[i], rest);
            if target.Found? {
              UpdateCons(node, Elem(i), target.path, v);
            } else if target.EndOfEmpty? {
              assert a[i := a[i]] == a;
            }
          } else {
            r := None;
          }
        } else if t == LastElementMarker {
          var updated := OverwriteLast(a, v);
          r := Some(Arr(updated));
          if a != [] {
            assert updated == a[|a| - 1 := v];
            UpdateCons(node, Elem(|a| - 1), [], v);
          }
        } else if idx.Some? && a[idx.value] == Null {
          r := Some(Arr(a[idx.value := v]));
          UpdateCons(node, Elem(idx.value), [], v);
        } else {
          r := None;
        }
      case Obj(m) =>
        if t in m {
          UpdateCons(node, Field(t), [], v);
          if rest == [] {
            r := Some(Obj(m[t := v]));
          } else if IsContainer(m[t]) {
            var child := Traverset(m[t], rest, v);
            r := if child.Some? then Some(Obj(m[t := child.value])) else None;
            var target := Locate(m[t], rest);
            if target.Found? {
              UpdateCons(node, Field(t), target.path, v);
            } else if target.EndOfEmpty? {
              assert m[t := m[t]] == m;
            }
          } else {
            r := None;
          }
        } else {
          r := None;
        }
      case _ =>
        r := None;
    }
  }

  /** Writing at the slot a token list resolves to leaves the same token
      list resolving to the same slot, when every token was used. */
  lemma {:induction false} LocateAfterUpdate(node: Json, tokens: seq<string>, v: Json)
    requires tokens != []
    requires Locate(node, tokens).Found?
    requires |Locate(node, tokens).path| == |tokens|
    ensures Locate(Update(node, Locate(node, tokens).path, v), tokens) == Locate(node, tokens)
    decreases |tokens|
  {
    var t, rest := tokens[0], tokens[1..];
    var path := Locate(node, tokens).path;
    match node
    case Arr(a) =>
      var idx := ArrayIndex(t, |a|);
      if idx.Some? && a[idx.value] != Null && rest != [] {
        var i := idx.value;
        LocateAfterUpdate(a[i], rest, v);
        assert path[1..] == Locate(a[i], rest).path;
      }
    case Obj(m) =>
      if rest != [] {
        LocateAfterUpdate(m[t], rest, v);
        assert path[1..] == Locate(m[t], rest).path;
      }
  }

  /** A read after a write through the same fully used token list yields
      the written value. */
  lemma ReadAfterWrite(node: Json, tokens: seq<string>, v: Json)
    requires tokens != []
    requires Locate(node, tokens).Found?
    requires |Locate(node, tokens).path| == |tokens|
    ensures Traverse(Update(node, Locate(node, tokens).path, v), tokens) == Some(v)
  {
    var path := Locate(node, tokens).path;
    LocateAfterUpdate(node, tokens, v);
    TraverseReadsLocation(Update(node, path, v), tokens);
    UpdateThenAt(node, path, v);
  }

  // ---------------------------------------------------------------------
  // RFC 6901, section 4, as a reference

  /** Evaluation as section 4 of RFC 6901 states it: a mapping is stepped
      into by key, a sequence by a canonical index in bounds; `-` names
      the nonexistent element after the last, so it never resolves. */
  function RfcLocate(node: Json, tokens: seq<string>): (r: Option<seq<Step>>)
    ensures r.Some? ==> |r.value| == |tokens|
    decreases |tokens|
  {
    if tokens == [] then Some([])
    else
      var t, rest := tokens[0], tokens[1..];
      match node
      case Obj(m) =>
        if t in m then
          match RfcLocate(m[t], rest)
          case Some(p) => Some([Field(t)] + p)
          case None => None
        else None
      case Arr(a) =>
        if IsCanonicalIndex(t) && DecimalValue(t) < |a| then
          match RfcLocate(a[DecimalValue(t)], rest)
          case Some(p) => Some([Elem(DecimalValue(t))] + p)
          case None => None
        else None
      case _ => None
  }

  /** Wherever RFC 6901 evaluation succeeds, the engine resolves the same
      slot. */
  lemma {:induction false} RfcAgreement(node: Json, tokens: seq<string>)
    requires tokens != []
    requires RfcLocate(node, tokens).Some?
    ensures Locate(node, tokens) == Found(RfcLocate(node, tokens).value)
    decreases |tokens|
  {
    var t, rest := tokens[0], tokens[1..];
    if rest != [] {
      match node
      case Obj(m) => RfcAgreement(m[t], rest);
      case Arr(a) => RfcAgreement(a[DecimalValue(t)], rest);
    }
  }

  /** Without the marker `-`, the engine's slot is the RFC 6901 slot of a
      prefix of the tokens, and a walk that stops before the last token
      stops at a null: a null sequence element ends the walk whatever
      tokens follow. */
  lemma {:induction false} LocateIsRfcOfPrefix(node: Json, tokens: seq<string>)
    requires tokens != []
    requires forall i :: 0 <= i < |tokens| ==> tokens[i] != LastElementMarker
    requires Locate(node, tokens).Found?
    ensures RfcLocate(node, tokens[..|Locate(node, tokens).path|]) == Some(Locate(node, tokens).path)
    ensures |Locate(node, tokens).path| < |tokens| ==> At(node, Locate(node, tokens).path) == Some(Null)
    ensures |Locate(node, tokens).path| < |tokens| ==> Locate(node, tokens).path[|Locate(node, tokens).path| - 1].Elem?
    decreases |tokens|
  {
    EarlyStopIsElement(node, tokens);
    var t, rest := tokens[0], tokens[1..];
    var path := Locate(node, tokens).path;
    match node
    case Arr(a) =>
      var idx := ArrayIndex(t, |a|);
      var i := idx.value;
      if a[i] != Null && rest != [] {
        var p := Locate(a[i], rest).path;
        LocateIsRfcOfPrefix(a[i], rest);
        assert tokens[..|path|][1..] == rest[..|p|];
        AtCons(node, Elem(i), p);
      } else {
        assert tokens[..|path|] == [t];
        assert RfcLocate(a[i], []) == Some([]);
        assert [Elem(i)] + [] == path;
        AtCons(node, Elem(i), []);
      }
    case Obj(m) =>
      if rest != [] {
        var p := Locate(m[t], rest).path;
        LocateIsRfcOfPrefix(m[t], rest);
        assert tokens[..|path|][1..] == rest[..|p|];
        AtCons(node, Field(t), p);
      } else {
        assert tokens[..|path|] == [t];
        assert RfcLocate(m[t], []) == Some([]);
        assert [Field(t)] + [] == path;
      }
  }

  /** The walk stops before the last token only at a sequence element
      (a null one, or the last one for `-`): a mapping member never ends
      the walk early, whatever its value. */
  lemma {:induction false} EarlyStopIsElement(node: Json, tokens: seq<string>)
    requires tokens != []
    requires Locate(node, tokens).Found?
    ensures |Locate(node, tokens).path| < |tokens| ==> Locate(node, tokens).path[|Locate(node, tokens).path| - 1].Elem?
    ensures |Locate(node, tokens).path| < |tokens| ==>
              At(node, Locate(node, tokens).path) == Some(Null) ||
              tokens[|Locate(node, tokens).path| - 1] == LastElementMarker
    decreases |tokens|
  {
    var t, rest := tokens[0], tokens[1..];
    var path := Locate(node, tokens).path;
    match node
    case Arr(a) =>
      var idx := ArrayIndex(t, |a|);
      if idx.Some? && a[idx.value] != Null && rest != [] {
        var p := Locate(a[idx.value], rest).path;
        EarlyStopIsElement(a[idx.value], rest);
        assert path == [Elem(idx.value)] + p;
        assert path[|path| - 1] == p[|p| - 1];
        AtCons(node, Elem(idx.value), p);
        if |path| < |tokens| {
          assert tokens[|path| - 1] == rest[|p| - 1];
        }
      } else if |path| < |tokens| {
        AtCons(node, path[0], []);
      }
    case Obj(m) =>
      if rest != [] {
        var p := Locate(m[t], rest).path;
        EarlyStopIsElement(m[t], rest);
        assert path == [Field(t)] + p;
        assert path[|path| - 1] == p[|p| - 1];
        AtCons(node, Field(t), p);
        if |path| < |tokens| {
          assert tokens[|path| - 1] == rest[|p| - 1];
        }
      }
  }

  /** Conversely, once a prefix of the tokens leads as RFC 6901 reads it
      to a null sequence element, the walk ends there and ignores the
      tokens that follow. */
  lemma {:induction false} NullElementEndsWalk(node: Json, prefix: seq<string>, more: seq<string>)
    requires prefix != [] && more != []
    requires RfcLocate(node, prefix).Some?
    requires RfcLocate(node, prefix).value[|prefix| - 1].Elem?
    requires At(node, RfcLocate(node, prefix).value) == Some(Null)
    ensures Locate(node, prefix + more) == Found(RfcLocate(node, prefix).value)
    decreases |prefix|
  {
    var tokens := prefix + more;
    var t, rest := prefix[0], prefix[1..];
    assert tokens[0] == t && tokens[1..] == rest + more;
    var p := RfcLocate(node, prefix).value;
    match node
    case Arr(a) =>
      var i := DecimalValue(t);
      IndexStep(a, t, i);
      if rest == [] {
        assert p == [Elem(i)];
        AtCons(node, Elem(i), []);
        LocateNullElement(a, tokens, i);
      } else {
        var q := RfcLocate(a[i], rest).value;
        assert p == [Elem(i)] + q;
        AtCons(node, Elem(i), q);
        NullElementEndsWalk(a[i], rest, more);
        LocateElementStep(a, tokens, i);
      }
    case Obj(m) =>
      var q := RfcLocate(m[t], rest).value;
      assert p == [Field(t)] + q;
      AtCons(node, Field(t), q);
      NullElementEndsWalk(m[t], rest, more);
      LocateFieldStep(m, tokens);
  }

  /** A canonical index in bounds is what the engine selects, and it is
      not the marker `-`. */
  lemma IndexStep(a: seq<Json>, t: string, i: nat)
    requires IsCanonicalIndex(t) && i == DecimalValue(t) && i < |a|
    ensures ArrayIndex(t, |a|) == Some(i) && t != LastElementMarker
  {
    CanonicalIsDecimal(t);
    ArrayIndexIff(t, |a|, i);
    assert t[0] != '-';
  }

  lemma LocateNullElement(a: seq<Json>, tokens: seq<string>, i: nat)
    requires tokens != [] && i < |a| && a[i] == Null
    requires ArrayIndex(tokens[0], |a|) == Some(i) && tokens[0] != LastElementMarker
    ensures Locate(Arr(a), tokens) == Found([Elem(i)])
  {
  }

  lemma LocateElementStep(a: seq<Json>, tokens: seq<string>, i: nat)
    requires |tokens| > 1 && i < |a| && IsContainer(a[i])
    requires ArrayIndex(tokens[0], |a|) == Some(i)
    ensures Locate(Arr(a), tokens) == Prepend(Elem(i), Locate(a[i], tokens[1..]))
  {
  }

  lemma LocateFieldStep(m: map<string, Json>, tokens: seq<string>)
    requires |tokens| > 1 && tokens[0] in m && IsContainer(m[tokens[0]])
    ensures Locate(Obj(m), tokens) == Prepend(Field(tokens[0]), Locate(m[tokens[0]], tokens[1..]))
  {
  }
}
