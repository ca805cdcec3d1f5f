/**
 * The behaviour the test suite of the library pins down, stated on the
 * model: tokenization of the pointers it uses, the values `get` returns,
 * the failures it raises and the writes `set` makes. Each case takes
 * its tokens from `PlainTokens` (through a lemma of its own for the
 * four-piece pointers) and its walk from a lemma of its own, so that no
 * proof has to unfold the tokenizer and the walk on the same literal.
 */
module PointerCases {
  import opened Wrappers
  import opened JsonValue
  import opened PointerSyntax
  import opened Walker
  import opened JsonPointer

  // ---------------------------------------------------------------------
  // helpers

  /** The pointer `/p1/p2/...` written piece by piece. */
  function Slashed(pieces: seq<string>): string {
    if pieces == [] then [] else [Separator] + pieces[0] + Slashed(pieces[1..])
  }

  lemma {:induction false} SlashedIsJoin(pieces: seq<string>)
    requires pieces != []
    ensures Slashed(pieces) == Join([[]] + pieces)
  {
    var full := [[]] + pieces;
    assert full[1..] == pieces;
    if |pieces| > 1 {
      SlashedIsJoin(pieces[1..]);
      assert ([[]] + pieces[1..])[1..] == pieces[1..];
      assert Join(pieces) == pieces[0] + [Separator] + Join(pieces[1..]);
      assert Join([[]] + pieces[1..]) == [] + [Separator] + Join(pieces[1..]);
    }
  }

  /** A pointer made of pieces with no escape, no `%` and no `+` has the
      pieces themselves as tokens. */
  lemma {:induction false} PlainTokens(s: string, pieces: seq<string>)
    requires pieces != []
    requires forall i :: 0 <= i < |pieces| ==> Separator !in pieces[i]
    requires forall i :: 0 <= i < |pieces| ==> '%' !in pieces[i] && '+' !in pieces[i] && '~' !in pieces[i]
    requires s == Slashed(pieces)
    ensures Tokenize(s) == pieces
  {
    SlashedIsJoin(pieces);
    PlainPointer(pieces);
  }

  /** `get` of a valid pointer is the walk over its tokens. */
  lemma {:induction false} GetByTokens(doc: Json, s: string, tokens: seq<string>)
    requires s != [] && s[0] == Separator && Tokenize(s) == tokens && tokens != []
    ensures GetValue(doc, Text(s)) ==
            if Traverse(doc, tokens).Some? then Ok(Traverse(doc, tokens).value) else Err(NonexistentValue(s))
  {
  }

  /** `set` through a valid pointer is the write at its located target. */
  lemma {:induction false} SetByTokens(doc: Json, s: string, tokens: seq<string>, v: Json)
    requires s != [] && s[0] == Separator && Tokenize(s) == tokens && tokens != []
    ensures SetValue(doc, Text(s), v) ==
            if WriteAt(doc, Locate(doc, tokens), v).Some? then Ok(WriteAt(doc, Locate(doc, tokens), v).value)
            else Err(NonexistentValue(s))
  {
  }
  // ---------------------------------------------------------------------
  // escaped keys

  /** A key written with the escapes of RFC 6901 is found by `get`; the
      keys "a/b/c", "a/b" and "m~n" are written as below. */
  lemma {:induction false} GetEscapedKey(m: map<string, Json>, k: string)
    requires k in m && '%' !in k && '+' !in k
    ensures GetValue(Obj(m), Text([Separator] + Escape(k))) == Ok(m[k])
  {
    EscapedKeyPointer(k);
  }

  /** A character that escaping leaves as it is. */
  predicate Ordinary(c: char) {
    c != '~' && c != '/'
  }

  lemma {:induction false} EscapeTwoSlashes(a: char, b: char, c: char)
    requires Ordinary(a) && Ordinary(b) && Ordinary(c)
    ensures Escape([a, '/', b, '/', c]) == [a, '~', '1', b, '~', '1', c]
  {
    assert [a, '/', b, '/', c][1..] == ['/', b, '/', c];
    assert ['/', b, '/', c][1..] == [b, '/', c];
    assert [b, '/', c][1..] == ['/', c];
    assert ['/', c][1..] == [c];
    assert [c][1..] == [];
    assert Escape([c]) == [c];
    assert Escape(['/', c]) == ['~', '1', c];
    assert Escape([b, '/', c]) == [b, '~', '1', c];
    assert Escape(['/', b, '/', c]) == ['~', '1', b, '~', '1', c];
  }

  lemma {:induction false} EscapeBetween(a: char, d: char, b: char)
    requires Ordinary(a) && Ordinary(b) && !Ordinary(d)
    ensures Escape([a, d, b]) == [a, '~', if d == '/' then '1' else '0', b]
  {
    assert [a, d, b][1..] == [d, b];
    assert [d, b][1..] == [b];
    assert [b][1..] == [];
    assert Escape([b]) == [b];
    assert Escape([d, b]) == ['~', if d == '/' then '1' else '0', b];
  }

  lemma EscapedSlashes()
    ensures Escape("a/b/c") == "a~1b~1c"
  {
    EscapeTwoSlashes('a', 'b', 'c');
  }

  lemma EscapedSlash()
    ensures Escape("a/b") == "a~1b"
  {
    EscapeBetween('a', '/', 'b');
  }

  lemma EscapedTilde()
    ensures Escape("m~n") == "m~0n"
  {
    EscapeBetween('m', '~', 'n');
  }

  // ---------------------------------------------------------------------
  // get on the examples of section 5 of RFC 6901

  /** {"foo":["bar","baz"],"":0,"a/b":1,"c%d":2,"e^f":3,"g|h":4,"k\"l":6," ":7,"m~n":8} */
  function RfcExample(): Json {
    Obj(map["foo" := Arr([Str("bar"), Str("baz")]), "" := Num(0), "a/b" := Num(1), "c%d" := Num(2),
            "e^f" := Num(3), "g|h" := Num(4), "k\"l" := Num(6), " " := Num(7), "m~n" := Num(8)])
  }

  lemma WalkRfcFoo()
    ensures Traverse(RfcExample(), ["foo"]) == Some(Arr([Str("bar"), Str("baz")]))
  {
  }

  lemma RfcFoo()
    ensures GetValue(RfcExample(), Text("/foo")) == Ok(Arr([Str("bar"), Str("baz")]))
  {
    PlainTokens("/foo", ["foo"]);
    WalkRfcFoo();
    GetByTokens(RfcExample(), "/foo", ["foo"]);
  }

  lemma RfcSlash()
    ensures GetValue(RfcExample(), Text("/a~1b")) == Ok(Num(1))
  {
    assert [Separator] + "a~1b" == "/a~1b";
    EscapedSlash();
    GetEscapedKey(RfcExample().fields, "a/b");
  }

  lemma RfcTilde()
    ensures GetValue(RfcExample(), Text("/m~0n")) == Ok(Num(8))
  {
    assert [Separator] + "m~0n" == "/m~0n";
    EscapedTilde();
    GetEscapedKey(RfcExample().fields, "m~n");
  }

  lemma WalkRfcFooZero()
    ensures Traverse(RfcExample(), ["foo", "0"]) == Some(Str("bar"))
  {
    assert ArrayIndex("0", 2) == Some(0);
  }

  lemma RfcFooZero()
    ensures GetValue(RfcExample(), Text("/foo/0")) == Ok(Str("bar"))
  {
    PlainTokens("/foo/0", ["foo", "0"]);
    WalkRfcFooZero();
    GetByTokens(RfcExample(), "/foo/0", ["foo", "0"]);
  }

  lemma WalkRfcCaret()
    ensures Traverse(RfcExample(), ["e^f"]) == Some(Num(3))
  {
  }

  lemma RfcCaret()
    ensures GetValue(RfcExample(), Text("/e^f")) == Ok(Num(3))
  {
    PlainTokens("/e^f", ["e^f"]);
    WalkRfcCaret();
    GetByTokens(RfcExample(), "/e^f", ["e^f"]);
  }

  lemma WalkRfcBar()
    ensures Traverse(RfcExample(), ["g|h"]) == Some(Num(4))
  {
  }

  lemma RfcBar()
    ensures GetValue(RfcExample(), Text("/g|h")) == Ok(Num(4))
  {
    PlainTokens("/g|h", ["g|h"]);
    WalkRfcBar();
    GetByTokens(RfcExample(), "/g|h", ["g|h"]);
  }

  lemma WalkRfcQuote()
    ensures Traverse(RfcExample(), ["k\"l"]) == Some(Num(6))
  {
  }

  lemma RfcQuote()
    ensures GetValue(RfcExample(), Text("/k\"l")) == Ok(Num(6))
  {
    PlainTokens("/k\"l", ["k\"l"]);
    WalkRfcQuote();
    GetByTokens(RfcExample(), "/k\"l", ["k\"l"]);
  }

  lemma WalkRfcSpace()
    ensures Traverse(RfcExample(), [" "]) == Some(Num(7))
  {
  }

  lemma RfcSpace()
    ensures GetValue(RfcExample(), Text("/ ")) == Ok(Num(7))
  {
    PlainTokens("/ ", [" "]);
    WalkRfcSpace();
    GetByTokens(RfcExample(), "/ ", [" "]);
  }

  lemma WalkRfcRootKey()
    ensures Traverse(RfcExample(), [""]) == Some(Num(0))
  {
  }

  lemma RfcRootKey()
    ensures GetValue(RfcExample(), Text("/")) == Ok(Num(0))
  {
    PlainTokens("/", [""]);  // `/` alone is one empty token, the key ""
    WalkRfcRootKey();
    GetByTokens(RfcExample(), "/", [""]);
  }

  // ---------------------------------------------------------------------
  // deep paths and the marker `-`

  /** {"categories":{"a":{"a1":{"a1a":["a1aa"],"a1b":["a1bb"]},"a2":["a2a","a2b"]}}} */
  function Categories(): Json {
    Obj(map["categories" := Obj(map["a" := Obj(map[
      "a1" := Obj(map["a1a" := Arr([Str("a1aa")]), "a1b" := Arr([Str("a1bb")])]),
      "a2" := Arr([Str("a2a"), Str("a2b")])])])])
  }

  lemma SlashedDeepIndex()
    ensures Slashed(["categories", "a", "a2", "1"]) == "/categories/a/a2/1"
  {
    assert Slashed(["1"]) == "/1";
    assert Slashed(["a2", "1"]) == "/a2/1";
    assert Slashed(["a", "a2", "1"]) == "/a/a2/1";
  }

  lemma TokenizeDeepIndex()
    ensures Tokenize("/categories/a/a2/1") == ["categories", "a", "a2", "1"]
  {
    SlashedDeepIndex();
    PlainTokens("/categories/a/a2/1", ["categories", "a", "a2", "1"]);
  }

  lemma WalkDeepIndex()
    ensures Traverse(Categories(), ["categories", "a", "a2", "1"]) == Some(Str("a2b"))
  {
    assert ArrayIndex("1", 2) == Some(1);
  }

  lemma DeepIndex()
    ensures GetValue(Categories(), Text("/categories/a/a2/1")) == Ok(Str("a2b"))
  {
    TokenizeDeepIndex();
    WalkDeepIndex();
    GetByTokens(Categories(), "/categories/a/a2/1", ["categories", "a", "a2", "1"]);
  }

  lemma SlashedDeepLast()
    ensures Slashed(["categories", "a", "a2", "-"]) == "/categories/a/a2/-"
  {
    assert Slashed(["-"]) == "/-";
    assert Slashed(["a2", "-"]) == "/a2/-";
    assert Slashed(["a", "a2", "-"]) == "/a/a2/-";
  }

  lemma TokenizeDeepLast()
    ensures Tokenize("/categories/a/a2/-") == ["categories", "a", "a2", "-"]
  {
    SlashedDeepLast();
    PlainTokens("/categories/a/a2/-", ["categories", "a", "a2", "-"]);
  }

  lemma WalkDeepLast()
    ensures Traverse(Categories(), ["categories", "a", "a2", "-"]) == Some(Str("a2b"))
  {
    assert ArrayIndex("-", 2) == None;
  }

  /** `-` reads the last element of a sequence. */
  lemma DeepLast()
    ensures GetValue(Categories(), Text("/categories/a/a2/-")) == Ok(Str("a2b"))
  {
    TokenizeDeepLast();
    WalkDeepLast();
    GetByTokens(Categories(), "/categories/a/a2/-", ["categories", "a", "a2", "-"]);
  }

  lemma WalkDeepMissing()
    ensures Traverse(Categories(), ["categories", "b"]) == None
  {
  }

  lemma DeepMissing()
    ensures GetValue(Categories(), Text("/categories/b")) == Err(NonexistentValue("/categories/b"))
  {
    PlainTokens("/categories/b", ["categories", "b"]);
    WalkDeepMissing();
    GetByTokens(Categories(), "/categories/b", ["categories", "b"]);
  }

  /** {"a2":["a2a","a2b","a2c"]} */
  function ThreeElements(): Json {
    Obj(map["a2" := Arr([Str("a2a"), Str("a2b"), Str("a2c")])])
  }

  lemma WalkGetLast()
    ensures Traverse(ThreeElements(), ["a2", "-"]) == Some(Str("a2c"))
  {
    assert ArrayIndex("-", 3) == None;
  }

  lemma GetLast()
    ensures GetValue(ThreeElements(), Text("/a2/-")) == Ok(Str("a2c"))
  {
    PlainTokens("/a2/-", ["a2", "-"]);
    WalkGetLast();
    GetByTokens(ThreeElements(), "/a2/-", ["a2", "-"]);
  }

  lemma LocateLast()
    ensures Locate(ThreeElements(), ["a2", "-"]) == Found([Field("a2"), Elem(2)])
  {
    assert ArrayIndex("-", 3) == None;
  }

  lemma UpdateLast()
    ensures Update(ThreeElements(), [Field("a2"), Elem(2)], Str("w")) ==
            Obj(map["a2" := Arr([Str("a2a"), Str("a2b"), Str("w")])])
  {
    UpdateCons(ThreeElements(), Field("a2"), [Elem(2)], Str("w"));
    UpdateCons(ThreeElements().fields["a2"], Elem(2), [], Str("w"));
    assert Update(Arr([Str("a2a"), Str("a2b"), Str("a2c")]), [Elem(2)], Str("w")) == Arr([Str("a2a"), Str("a2b"), Str("w")]);
  }

  /** `-` writes the last element of a sequence. */
  lemma SetLast()
    ensures SetValue(ThreeElements(), Text("/a2/-"), Str("w")) ==
            Ok(Obj(map["a2" := Arr([Str("a2a"), Str("a2b"), Str("w")])]))
  {
    PlainTokens("/a2/-", ["a2", "-"]);
    LocateLast();
    UpdateLast();
    SetByTokens(ThreeElements(), "/a2/-", ["a2", "-"], Str("w"));
  }

  lemma WalkGetLastOfEmpty()
    ensures Traverse(Arr([]), ["-"]) == Some(Bool(false))
  {
    assert ArrayIndex("-", 0) == None;
  }

  /** On an empty sequence `-` reads `false`. */
  lemma GetLastOfEmpty()
    ensures GetValue(Arr([]), Text("/-")) == Ok(Bool(false))
  {
    PlainTokens("/-", ["-"]);
    WalkGetLastOfEmpty();
    GetByTokens(Arr([]), "/-", ["-"]);
  }

  /** On an empty sequence `-` writes nothing and does not fail. */
  lemma SetLastOfEmpty()
    ensures SetValue(Arr([]), Text("/-"), Num(1)) == Ok(Arr([]))
  {
    PlainTokens("/-", ["-"]);
    assert ArrayIndex("-", 0) == None;
    SetByTokens(Arr([]), "/-", ["-"], Num(1));
  }

  // ---------------------------------------------------------------------
  // stored nulls and nonexistent values

  lemma WalkStoredNull()
    ensures Traverse(Obj(map["a" := Obj(map["b" := Null])]), ["a", "b"]) == Some(Null)
  {
  }

  /** A null stored under a key is a value, not a missing one. */
  lemma StoredNull()
    ensures GetValue(Obj(map["a" := Obj(map["b" := Null])]), Text("/a/b")) == Ok(Null)
  {
    PlainTokens("/a/b", ["a", "b"]);
    WalkStoredNull();
    GetByTokens(Obj(map["a" := Obj(map["b" := Null])]), "/a/b", ["a", "b"]);
  }

  lemma WalkMissingUnderObject()
    ensures Traverse(Obj(map["a" := Obj(map["b" := Obj(map["c" := Null])])]), ["a", "b", "d"]) == None
  {
  }

  lemma MissingUnderObject()
    ensures GetValue(Obj(map["a" := Obj(map["b" := Obj(map["c" := Null])])]), Text("/a/b/d")) == Err(NonexistentValue("/a/b/d"))
  {
    assert Slashed(["d"]) == "/d";
    assert Slashed(["b", "d"]) == "/b/d";
    PlainTokens("/a/b/d", ["a", "b", "d"]);
    WalkMissingUnderObject();
    GetByTokens(Obj(map["a" := Obj(map["b" := Obj(map["c" := Null])])]), "/a/b/d", ["a", "b", "d"]);
  }

  lemma WalkGetThroughNullElement()
    ensures Traverse(Arr([Null]), ["0", "x"]) == Some(Null)
  {
    assert ArrayIndex("0", 1) == Some(0);
  }

  /** A null sequence element ends the walk of `get`: the tokens after it are not looked at. */
  lemma GetThroughNullElement()
    ensures GetValue(Arr([Null]), Text("/0/x")) == Ok(Null)
  {
    PlainTokens("/0/x", ["0", "x"]);
    WalkGetThroughNullElement();
    GetByTokens(Arr([Null]), "/0/x", ["0", "x"]);
  }

  lemma LocateNullElement()
    ensures Locate(Arr([Null]), ["0", "x"]) == Found([Elem(0)])
  {
    assert ArrayIndex("0", 1) == Some(0);
  }

  lemma UpdateNullElement()
    ensures Update(Arr([Null]), [Elem(0)], Num(5)) == Arr([Num(5)])
  {
    UpdateCons(Arr([Null]), Elem(0), [], Num(5));
    assert [Elem(0)] + [] == [Elem(0)];
  }

  /** A null sequence element ends the walk of `set` too, and is
      overwritten. */
  lemma SetThroughNullElement()
    ensures SetValue(Arr([Null]), Text("/0/x"), Num(5)) == Ok(Arr([Num(5)]))
  {
    PlainTokens("/0/x", ["0", "x"]);
    LocateNullElement();
    UpdateNullElement();
    SetByTokens(Arr([Null]), "/0/x", ["0", "x"], Num(5));
  }

  lemma WalkNullValueIsNotWalked()
    ensures Traverse(Obj(map["k" := Null]), ["k", "x"]) == None
  {
  }

  /** A null mapping value is not stepped through. */
  lemma NullValueIsNotWalked()
    ensures GetValue(Obj(map["k" := Null]), Text("/k/x")) == Err(NonexistentValue("/k/x"))
  {
    PlainTokens("/k/x", ["k", "x"]);
    WalkNullValueIsNotWalked();
    GetByTokens(Obj(map["k" := Null]), "/k/x", ["k", "x"]);
  }

  /** ["done","started","planned","pending","archived"] */
  function FiveElements(): Json {
    Arr([Str("done"), Str("started"), Str("planned"), Str("pending"), Str("archived")])
  }

  lemma WalkIndexInRange()
    ensures Traverse(FiveElements(), ["3"]) == Some(Str("pending"))
  {
    assert ArrayIndex("3", 5) == Some(3);
  }

  lemma IndexInRange()
    ensures GetValue(FiveElements(), Text("/3")) == Ok(Str("pending"))
  {
    PlainTokens("/3", ["3"]);
    WalkIndexInRange();
    GetByTokens(FiveElements(), "/3", ["3"]);
  }

  /** {"foo":{"bar":{},"baz":"qux"}} */
  function EmptyMember(): Json {
    Obj(map["foo" := Obj(map["bar" := Obj(map[]), "baz" := Str("qux")])])
  }

  /** The member is given back as a mapping, its empty member too. */
  lemma EmptyObjectStaysObject()
    ensures GetValue(EmptyMember(), Text("/foo")) == Ok(Obj(map["bar" := Obj(map[]), "baz" := Str("qux")]))
  {
    PlainTokens("/foo", ["foo"]);
    GetByTokens(EmptyMember(), "/foo", ["foo"]);
  }

  /** ["done","started","planned","第二个","archived"] */
  function WideElements(): Json {
    Arr([Str("done"), Str("started"), Str("planned"), Str("第二个"), Str("archived")])
  }

  lemma WalkWideIndex()
    ensures Traverse(WideElements(), ["3"]) == Some(Str("第二个"))
  {
    assert ArrayIndex("3", 5) == Some(3);
  }

  /** A string element is given back whole, whatever its characters. */
  lemma WideIndex()
    ensures GetValue(WideElements(), Text("/3")) == Ok(Str("第二个"))
  {
    PlainTokens("/3", ["3"]);
    WalkWideIndex();
    GetByTokens(WideElements(), "/3", ["3"]);
  }

  lemma WalkIndexOutOfRange()
    ensures Traverse(FiveElements(), ["6"]) == None
  {
    assert ArrayIndex("6", 5) == None;
  }

  lemma IndexOutOfRange()
    ensures GetValue(FiveElements(), Text("/6")) == Err(NonexistentValue("/6"))
  {
    PlainTokens("/6", ["6"]);
    WalkIndexOutOfRange();
    GetByTokens(FiveElements(), "/6", ["6"]);
  }

  lemma WalkBelowScalar()
    ensures Traverse(Obj(map["foo" := Str("bar")]), ["foo", "boo"]) == None
  {
  }

  /** A scalar has nothing below it. */
  lemma BelowScalar()
    ensures GetValue(Obj(map["foo" := Str("bar")]), Text("/foo/boo")) == Err(NonexistentValue("/foo/boo"))
  {
    PlainTokens("/foo/boo", ["foo", "boo"]);
    WalkBelowScalar();
    GetByTokens(Obj(map["foo" := Str("bar")]), "/foo/boo", ["foo", "boo"]);
  }

  lemma WalkLeadingZeroIsNotAnIndex()
    ensures Traverse(Arr([Str("x"), Str("y")]), ["01"]) == None
  {
    assert !IsCanonicalIndex("01");
  }

  /** A numeral with a leading zero is not a sequence index. */
  lemma LeadingZeroIsNotAnIndex()
    ensures GetValue(Arr([Str("x"), Str("y")]), Text("/01")) == Err(NonexistentValue("/01"))
  {
    PlainTokens("/01", ["01"]);
    WalkLeadingZeroIsNotAnIndex();
    GetByTokens(Arr([Str("x"), Str("y")]), "/01", ["01"]);
  }

  // ---------------------------------------------------------------------
  // invalid pointers

  lemma {:induction false} InvalidPointers(doc: Json, v: Json)
    ensures GetValue(doc, Text("*")) == Err(InvalidPointer("Pointer starts with invalid character"))
    ensures GetValue(doc, Text("#")) == Err(InvalidPointer("Pointer starts with invalid character"))
    ensures GetValue(doc, NonString) == Err(InvalidPointer("Pointer is not a string"))
    ensures SetValue(doc, Text("a/b"), v) == Err(InvalidPointer("Pointer starts with invalid character"))
  {
  }

  // ---------------------------------------------------------------------
  // the engine object

  /** {"a/b/c":1,"m~n":8,"a":{"b":{"c":12}}} */
  function SlashedKeys(): Json {
    Obj(map["a/b/c" := Num(1), "m~n" := Num(8), "a" := Obj(map["b" := Obj(map["c" := Num(12)])])])
  }

  lemma WalkNestedNotEscaped()
    ensures Traverse(SlashedKeys(), ["a", "b", "c"]) == Some(Num(12))
  {
  }

  /** Unescaped, `/a/b/c` walks the nested members and not the key "a/b/c". */
  lemma NestedNotEscaped()
    ensures GetValue(SlashedKeys(), Text("/a/b/c")) == Ok(Num(12))
  {
    assert Slashed(["c"]) == "/c";
    assert Slashed(["b", "c"]) == "/b/c";
    PlainTokens("/a/b/c", ["a", "b", "c"]);
    WalkNestedNotEscaped();
    GetByTokens(SlashedKeys(), "/a/b/c", ["a", "b", "c"]);
  }

  /** Escaped, `/a~1b~1c` names the key "a/b/c" itself. */
  lemma SlashesInKey()
    ensures GetValue(SlashedKeys(), Text("/a~1b~1c")) == Ok(Num(1))
  {
    assert [Separator] + "a~1b~1c" == "/a~1b~1c";
    EscapedSlashes();
    GetEscapedKey(SlashedKeys().fields, "a/b/c");
  }

  lemma TildeInKey()
    ensures GetValue(SlashedKeys(), Text("/m~0n")) == Ok(Num(8))
  {
    assert [Separator] + "m~0n" == "/m~0n";
    EscapedTilde();
    GetEscapedKey(SlashedKeys().fields, "m~n");
  }

  /** {"foo":{"bar":{"baz":[{"bar":"baz"},{"bar":"qux"}]}}} */
  function ObjectsInList(): Json {
    Obj(map["foo" := Obj(map["bar" := Obj(map["baz" :=
      Arr([Obj(map["bar" := Str("baz")]), Obj(map["bar" := Str("qux")])])])])])
  }

  lemma SlashedFirstBar()
    ensures Slashed(["foo", "bar", "baz", "0", "bar"]) == "/foo/bar/baz/0/bar"
  {
    assert Slashed(["bar"]) == "/bar";
    assert Slashed(["0", "bar"]) == "/0/bar";
    assert Slashed(["baz", "0", "bar"]) == "/baz/0/bar";
    assert Slashed(["bar", "baz", "0", "bar"]) == "/bar/baz/0/bar";
  }

  lemma TokenizeFirstBar()
    ensures Tokenize("/foo/bar/baz/0/bar") == ["foo", "bar", "baz", "0", "bar"]
  {
    SlashedFirstBar();
    PlainTokens("/foo/bar/baz/0/bar", ["foo", "bar", "baz", "0", "bar"]);
  }

  lemma WalkFirstBar()
    ensures Traverse(ObjectsInList(), ["foo", "bar", "baz", "0", "bar"]) == Some(Str("baz"))
  {
    assert ArrayIndex("0", 2) == Some(0);
  }

  /** A mapping member is reached after a sequence index. */
  lemma FieldAfterIndexFirst()
    ensures GetValue(ObjectsInList(), Text("/foo/bar/baz/0/bar")) == Ok(Str("baz"))
  {
    TokenizeFirstBar();
    WalkFirstBar();
    GetByTokens(ObjectsInList(), "/foo/bar/baz/0/bar", ["foo", "bar", "baz", "0", "bar"]);
  }

  lemma SlashedSecondBar()
    ensures Slashed(["foo", "bar", "baz", "1", "bar"]) == "/foo/bar/baz/1/bar"
  {
    assert Slashed(["bar"]) == "/bar";
    assert Slashed(["1", "bar"]) == "/1/bar";
    assert Slashed(["baz", "1", "bar"]) == "/baz/1/bar";
    assert Slashed(["bar", "baz", "1", "bar"]) == "/bar/baz/1/bar";
  }

  lemma TokenizeSecondBar()
    ensures Tokenize("/foo/bar/baz/1/bar") == ["foo", "bar", "baz", "1", "bar"]
  {
    SlashedSecondBar();
    PlainTokens("/foo/bar/baz/1/bar", ["foo", "bar", "baz", "1", "bar"]);
  }

  lemma WalkSecondBar()
    ensures Traverse(ObjectsInList(), ["foo", "bar", "baz", "1", "bar"]) == Some(Str("qux"))
  {
    assert ArrayIndex("1", 2) == Some(1);
  }

  lemma FieldAfterIndexSecond()
    ensures GetValue(ObjectsInList(), Text("/foo/bar/baz/1/bar")) == Ok(Str("qux"))
  {
    TokenizeSecondBar();
    WalkSecondBar();
    GetByTokens(ObjectsInList(), "/foo/bar/baz/1/bar", ["foo", "bar", "baz", "1", "bar"]);
  }

  /** {"status":["done","started","planned"]} */
  function StatusList(): Json {
    Obj(map["status" := Arr([Str("done"), Str("started"), Str("planned")])])
  }

  lemma WalkStatusOne()
    ensures Traverse(StatusList(), ["status", "1"]) == Some(Str("started"))
  {
    assert ArrayIndex("1", 3) == Some(1);
  }

  lemma StatusOne()
    ensures GetValue(StatusList(), Text("/status/1")) == Ok(Str("started"))
  {
    PlainTokens("/status/1", ["status", "1"]);
    WalkStatusOne();
    GetByTokens(StatusList(), "/status/1", ["status", "1"]);
  }

  /** The engine refuses a scalar or null root, answers a `get`, and
      records the pointer it was fed. */
  method EngineRecordsFedPointer() returns (scalarRefused: bool, nullRefused: bool, got: Result<Json, PointerError>, recorded: Option<string>)
    ensures scalarRefused && nullRefused
    ensures got == Ok(Str("started"))
    ensures recorded == Some("/status/1")
  {
    var scalar := Pointer.Open(Num(6));
    var none := Pointer.Open(Null);
    scalarRefused, nullRefused := scalar.Err?, none.Err?;
    var created := Pointer.Open(StatusList());
    var engine := created.value;
    StatusOne();
    got := engine.Get(Text("/status/1"));
    recorded := engine.GetPointer();
  }
}
