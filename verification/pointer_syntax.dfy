/**
 * The pointer argument: its validation and its tokenization into
 * reference tokens (`validatePointer`, the `explode`/`urldecode`/
 * `array_slice` pipeline of `get` and `set`, and `evaluatePointerParts`).
 */
module PointerSyntax {
  import opened Wrappers

  /** The separator of reference tokens (`POINTER_CHAR`). */
  const Separator: char := '/'

  /** The argument handed to `get` or `set`: a PHP string or any other
      PHP value (array, integer, object, null, ...). */
  datatype PointerArg = Text(s: string) | NonString

  /** The exceptions of the engine other than invalid JSON text. */
  datatype PointerError =
    | NonWalkableJson
    | InvalidPointer(message: string)
    | NonexistentValue(pointer: string)

  const NotAString: string := "Pointer is not a string"
  const BadFirstChar: string := "Pointer starts with invalid character"

  /** The message the exception carries; a nonexistent-value message holds
      the fed pointer verbatim between a 14-character opening and a
      32-character closing. */
  function Message(e: PointerError): (m: string)
    ensures e.NonexistentValue? ==> |m| == 14 + |e.pointer| + 32 && m[14..|m| - 32] == e.pointer
  {
    match e
    case NonWalkableJson => "Non walkable Json to point through"
    case InvalidPointer(msg) => msg
    case NonexistentValue(p) => "Json Pointer '" + p + "' references a nonexistent value"
  }

  /** The nonexistent-value message tells the fed pointer apart: two
      messages are equal only when the pointers they carry are (a
      corollary of where `Message` puts the pointer). */
  lemma MessageIdentifiesPointer(p: string, q: string)
    requires Message(NonexistentValue(p)) == Message(NonexistentValue(q))
    ensures p == q
  {
  }

  /** `validatePointer`: only a string whose first character is `/` gets
      through; the validated string is returned. */
  function ValidatePointer(p: PointerArg): (r: Result<string, PointerError>)
    ensures r.Ok? <==> p.Text? && p.s != [] && p.s[0] == Separator
    ensures r.Ok? ==> r.value == p.s
    ensures p.NonString? ==> r == Err(InvalidPointer(NotAString))
    ensures p.Text? && r.Err? ==> r == Err(InvalidPointer(BadFirstChar))
  {
    match p
    case NonString => Err(InvalidPointer(NotAString))
    case Text(s) =>
      // substr($pointer, 0, 1) is "" for the empty string
      if |s| >= 1 && s[..1] == [Separator] then Ok(s) else Err(InvalidPointer(BadFirstChar))
  }

  // ---------------------------------------------------------------------
  // explode('/', ...)

  function Count(s: string, c: char): nat {
    if s == [] then 0 else (if s[0] == c then 1 else 0) + Count(s[1..], c)
  }

  /** `explode('/', s)`: the pieces between separators, empty ones kept. */
  function Split(s: string): (r: seq<string>)
    ensures |r| == Count(s, Separator) + 1
    ensures forall i :: 0 <= i < |r| ==> Separator !in r[i]
  {
    if s == [] then [[]]
    else
      var rest := Split(s[1..]);
      if s[0] == Separator then [[]] + rest else [[s[0]] + rest[0]] + rest[1..]
  }

  /** `implode('/', pieces)`, the inverse of `Split`. */
  function Join(pieces: seq<string>): string
    requires pieces != []
  {
    if |pieces| == 1 then pieces[0] else pieces[0] + [Separator] + Join(pieces[1..])
  }

  lemma {:induction false} SplitPiece(x: string, tail: string)
    requires Separator !in x
    ensures Split(x) == [x]
    ensures Split(x + [Separator] + tail) == [x] + Split(tail)
    decreases |x|
  {
    if x != [] {
      SplitPiece(x[1..], tail);
      assert (x + [Separator] + tail)[1..] == x[1..] + [Separator] + tail;
      assert [x[0]] + x[1..] == x;
    } else {
      assert ([] + [Separator] + tail)[1..] == tail;
    }
  }

  /** Splitting undoes joining pieces that hold no separator. */
  lemma {:induction false} SplitJoin(pieces: seq<string>)
    requires pieces != []
    requires forall i :: 0 <= i < |pieces| ==> Separator !in pieces[i]
    ensures Split(Join(pieces)) == pieces
    decreases |pieces|
  {
    SplitPiece(pieces[0], if |pieces| == 1 then [] else Join(pieces[1..]));
    if |pieces| > 1 {
      SplitJoin(pieces[1..]);
    }
  }

  // ---------------------------------------------------------------------
  // urldecode / urlencode

  predicate IsHexDigit(c: char) {
    '0' <= c <= '9' || 'a' <= c <= 'f' || 'A' <= c <= 'F'
  }

  function HexValue(c: char): (n: nat)
    requires IsHexDigit(c)
    ensures n < 16
  {
    if '0' <= c <= '9' then c as int - '0' as int
    else if 'a' <= c <= 'f' then c as int - 'a' as int + 10
    else c as int - 'A' as int + 10
  }

  /** PHP `urldecode`: `+` is a space, `%` followed by two hex digits is
      the byte they spell, anything else (a lone or malformed `%`
      included) is copied. */
  function UrlDecode(s: string): (r: string)
    ensures |r| <= |s|
    ensures '%' !in s && '+' !in s ==> r == s
  {
    if s == [] then []
    else if s[0] == '+' then [' '] + UrlDecode(s[1..])
    else if s[0] == '%' && |s| >= 3 && IsHexDigit(s[1]) && IsHexDigit(s[2]) then
      [(16 * HexValue(s[1]) + HexValue(s[2])) as char] + UrlDecode(s[3..])
    else [s[0]] + UrlDecode(s[1..])
  }

  predicate IsByteString(s: string) {
    forall i :: 0 <= i < |s| ==> s[i] as int < 256
  }

  function UpperHexDigit(n: nat): (c: char)
    requires n < 16
    ensures IsHexDigit(c) && HexValue(c) == n
  {
    if n < 10 then ('0' as int + n) as char else ('A' as int + n - 10) as char
  }

  /** The bytes `urlencode` leaves as they are. */
  predicate IsUnreserved(c: char) {
    'a' <= c <= 'z' || 'A' <= c <= 'Z' || '0' <= c <= '9' || c == '-' || c == '_' || c == '.'
  }

  /** How `urlencode` writes one byte: unreserved bytes stay, a space
      becomes `+`, every other byte becomes `%XX`. */
  function EncodeByte(c: char): (r: string)
    requires c as int < 256
    ensures Separator !in r
  {
    if IsUnreserved(c) then [c]
    else if c == ' ' then ['+']
    else ['%', UpperHexDigit(c as int / 16), UpperHexDigit(c as int % 16)]
  }

  /** PHP `urlencode`. */
  function UrlEncode(s: string): (r: string)
    requires IsByteString(s)
    ensures Separator !in r
  {
    if s == [] then [] else EncodeByte(s[0]) + UrlEncode(s[1..])
  }

  lemma DecodeEncodedByte(c: char, rest: string)
    requires c as int < 256
    ensures UrlDecode(EncodeByte(c) + rest) == [c] + UrlDecode(rest)
  {
    var e := EncodeByte(c) + rest;
    if IsUnreserved(c) || c == ' ' {
      assert e[1..] == rest;
    } else {
      assert e[3..] == rest;
    }
  }

  /** `urldecode` inverts `urlencode`. */
  lemma {:induction false} UrlDecodeEncode(s: string)
    requires IsByteString(s)
    ensures UrlDecode(UrlEncode(s)) == s
  {
    if s != [] {
      UrlDecodeEncode(s[1..]);
      DecodeEncodedByte(s[0], UrlEncode(s[1..]));
    }
  }

  // ---------------------------------------------------------------------
  // evaluatePointerParts: str_replace(['~1', '~0'], ['/', '~'], $v)

  /** One pass of `str_replace` for a two-character needle: left to right,
      non-overlapping, replaced text is not searched again. */
  function ReplacePair(s: string, a: char, b: char, c: char): (r: string)
    ensures |r| <= |s|
  {
    if |s| >= 2 && s[0] == a && s[1] == b then [c] + ReplacePair(s[2..], a, b, c)
    else if s == [] then []
    else [s[0]] + ReplacePair(s[1..], a, b, c)
  }

  /** The escapes of a reference token: every `~1` is replaced first, then
      every `~0`, so that `~01` stands for `~1`. */
  function Unescape(t: string): string {
    ReplacePair(ReplacePair(t, '~', '1', '/'), '~', '0', '~')
  }

  /** The escaping of section 3 of RFC 6901: `~` as `~0`, `/` as `~1`. */
  function Escape(k: string): (r: string)
    ensures Separator !in r
    ensures IsByteString(k) ==> IsByteString(r)
  {
    if k == [] then []
    else (if k[0] == '~' then "~0" else if k[0] == '/' then "~1" else [k[0]]) + Escape(k[1..])
  }

  /** `~` written as `~0`, `/` kept: what the first pass leaves of `Escape(k)`. */
  function TildeEscaped(k: string): string {
    if k == [] then [] else (if k[0] == '~' then "~0" else [k[0]]) + TildeEscaped(k[1..])
  }

  /** One step of `ReplacePair` on a nonempty string. */
  lemma {:induction false} ReplaceStep(s: string, a: char, b: char, c: char)
    requires s != []
    ensures ReplacePair(s, a, b, c) ==
            if |s| >= 2 && s[0] == a && s[1] == b then [c] + ReplacePair(s[2..], a, b, c)
            else [s[0]] + ReplacePair(s[1..], a, b, c)
  {
  }

  /** `str_replace` leaves a string without the pair's first character as
      it is. */
  lemma {:induction false} ReplaceAbsent(s: string, a: char, b: char, c: char)
    requires a !in s
    ensures ReplacePair(s, a, b, c) == s
  {
    if s != [] {
      assert s[0] in s;
      assert forall i :: 1 <= i < |s| ==> s[1..][i - 1] == s[i];
      ReplaceAbsent(s[1..], a, b, c);
      ReplaceStep(s, a, b, c);
    }
  }

  /** `str_replace` copies a character that does not start the pair. */
  lemma {:induction false} ReplaceSkip(d: char, rest: string, a: char, b: char, c: char)
    requires d != a || rest == [] || rest[0] != b
    ensures ReplacePair([d] + rest, a, b, c) == [d] + ReplacePair(rest, a, b, c)
  {
    var s := [d] + rest;
    ReplaceStep(s, a, b, c);
    assert s[1..] == rest;
  }

  /** `str_replace` replaces the pair it finds. */
  lemma {:induction false} ReplaceHit(rest: string, a: char, b: char, c: char)
    ensures ReplacePair([a, b] + rest, a, b, c) == [c] + ReplacePair(rest, a, b, c)
  {
    var s := [a, b] + rest;
    ReplaceStep(s, a, b, c);
    assert s[2..] == rest;
  }

  lemma {:induction false} EscapeTilde(k: string)
    requires k != [] && k[0] == '~'
    ensures Escape(k) == ['~'] + (['0'] + Escape(k[1..]))
  {
    assert Escape(k) == "~0" + Escape(k[1..]);
  }

  /** The first pass keeps an escaped `~` as `~0`. */
  lemma {:induction false} FirstPassTilde(k: string)
    requires k != [] && k[0] == '~'
    ensures ReplacePair(Escape(k), '~', '1', '/') == ['~', '0'] + ReplacePair(Escape(k[1..]), '~', '1', '/')
  {
    var rest := Escape(k[1..]);
    EscapeTilde(k);
    ReplaceSkip('~', ['0'] + rest, '~', '1', '/');
    ReplaceSkip('0', rest, '~', '1', '/');
    assert ['~'] + (['0'] + rest) == ['~', '0'] + rest;
  }

  /** The first pass turns an escaped `/` back into `/`. */
  lemma {:induction false} FirstPassSlash(k: string)
    requires k != [] && k[0] == '/'
    ensures ReplacePair(Escape(k), '~', '1', '/') == ['/'] + ReplacePair(Escape(k[1..]), '~', '1', '/')
  {
    assert Escape(k) == ['~', '1'] + Escape(k[1..]);
    ReplaceHit(Escape(k[1..]), '~', '1', '/');
  }

  /** The first pass keeps any other character. */
  lemma {:induction false} FirstPassOther(k: string)
    requires k != [] && k[0] != '~' && k[0] != '/'
    ensures ReplacePair(Escape(k), '~', '1', '/') == [k[0]] + ReplacePair(Escape(k[1..]), '~', '1', '/')
  {
    assert Escape(k) == [k[0]] + Escape(k[1..]);
    ReplaceSkip(k[0], Escape(k[1..]), '~', '1', '/');
  }

  lemma {:induction false} FirstPassOfEscape(k: string)
    ensures ReplacePair(Escape(k), '~', '1', '/') == TildeEscaped(k)
  {
    if k != [] {
      FirstPassOfEscape(k[1..]);
      if k[0] == '~' {
        FirstPassTilde(k);
      } else if k[0] == '/' {
        FirstPassSlash(k);
      } else {
        FirstPassOther(k);
      }
    }
  }

  lemma {:induction false} SecondPassOfEscape(k: string)
    ensures ReplacePair(TildeEscaped(k), '~', '0', '~') == k
  {
    if k != [] {
      SecondPassOfEscape(k[1..]);
      var e := TildeEscaped(k);
      if k[0] == '~' {
        assert e[2..] == TildeEscaped(k[1..]);
      } else {
        assert e[1..] == TildeEscaped(k[1..]);
      }
    }
  }

  /** The unescaping order of `evaluatePointerParts` undoes the escaping of
      RFC 6901 for every key. */
  lemma UnescapeEscape(k: string)
    ensures Unescape(Escape(k)) == k
  {
    FirstPassOfEscape(k);
    SecondPassOfEscape(k);
  }

  // ---------------------------------------------------------------------
  // the token pipeline of get and set

  /** One piece of the pointer as a reference token: percent-decoded
      first, then unescaped. */
  function DecodeToken(piece: string): string {
    Unescape(UrlDecode(piece))
  }

  /** `evaluatePointerParts(array_slice(array_map('urldecode',
      explode('/', $pointer)), 1))`: one token per separator. */
  function Tokenize(pointer: string): (tokens: seq<string>)
    ensures |tokens| == Count(pointer, Separator)
  {
    var pieces := Split(pointer)[1..];
    seq(|pieces|, i requires 0 <= i < |pieces| => DecodeToken(pieces[i]))
  }

  /** A reference token written so that `Tokenize` gives it back: escaped,
      then percent-encoded. */
  function EncodeToken(t: string): (piece: string)
    requires IsByteString(t)
    ensures Separator !in piece
  {
    UrlEncode(Escape(t))
  }

  /** The pointer that addresses the reference tokens `tokens`. */
  function Compose(tokens: seq<string>): string
    requires forall i :: 0 <= i < |tokens| ==> IsByteString(tokens[i])
  {
    Join([[]] + seq(|tokens|, i requires 0 <= i < |tokens| => EncodeToken(tokens[i])))
  }

  /** Tokenizing a composed pointer gives back its tokens, whatever
      separators, tildes or percent signs they contain. */
  lemma ComposeTokenize(tokens: seq<string>)
    requires forall i :: 0 <= i < |tokens| ==> IsByteString(tokens[i])
    ensures Tokenize(Compose(tokens)) == tokens
  {
    var pieces := [[]] + seq(|tokens|, i requires 0 <= i < |tokens| => EncodeToken(tokens[i]));
    SplitJoin(pieces);
    var r := Tokenize(Compose(tokens));
    forall i | 0 <= i < |tokens| ensures r[i] == tokens[i] {
      UrlDecodeEncode(Escape(tokens[i]));
      UnescapeEscape(tokens[i]);
    }
  }

  /** The pointer is split before it is percent-decoded: a piece holding
      no `/` yields exactly one token, even when it decodes to a `/`. */
  lemma SinglePiece(piece: string)
    requires Separator !in piece
    ensures Tokenize([Separator] + piece) == [DecodeToken(piece)]
  {
    SplitPiece([], piece);
    SplitPiece(piece, []);
    assert [] + [Separator] + piece == [Separator] + piece;
  }

  /** A pointer made of pieces without separators tokenizes piece by
      piece. */
  lemma TokenizeJoin(pieces: seq<string>)
    requires forall i :: 0 <= i < |pieces| ==> Separator !in pieces[i]
    ensures Tokenize(Join([[]] + pieces)) == seq(|pieces|, i requires 0 <= i < |pieces| => DecodeToken(pieces[i]))
  {
    SplitJoin([[]] + pieces);
  }

  /** `urldecode` copies a prefix that holds no `%` and no `+`. */
  lemma {:induction false} UrlDecodePlainPrefix(a: string, rest: string)
    requires '%' !in a && '+' !in a
    ensures UrlDecode(a + rest) == a + UrlDecode(rest)
  {
    if a != [] {
      assert a[0] in a;
      UrlDecodePlainPrefix(a[1..], rest);
      var s := a + rest;
      assert s[0] == a[0] && s[1..] == a[1..] + rest;
      assert UrlDecode(s) == [a[0]] + UrlDecode(a[1..] + rest);
      assert a == [a[0]] + a[1..];
    } else {
      assert a + rest == rest;
    }
  }

  /** A piece with no `%`, `+` or `~` is its own token. */
  lemma PlainToken(piece: string)
    requires '%' !in piece && '+' !in piece && '~' !in piece
    ensures DecodeToken(piece) == piece
  {
    ReplaceAbsent(piece, '~', '1', '/');
    ReplaceAbsent(piece, '~', '0', '~');
  }

  /** A pointer made of plain pieces tokenizes to those pieces. */
  lemma PlainPointer(pieces: seq<string>)
    requires forall i :: 0 <= i < |pieces| ==> Separator !in pieces[i]
    requires forall i :: 0 <= i < |pieces| ==> '%' !in pieces[i] && '+' !in pieces[i] && '~' !in pieces[i]
    ensures Tokenize(Join([[]] + pieces)) == pieces
  {
    TokenizeJoin(pieces);
    forall i | 0 <= i < |pieces| ensures DecodeToken(pieces[i]) == pieces[i] {
      PlainToken(pieces[i]);
    }
  }

  // ---------------------------------------------------------------------
  // how single escapes inside a piece decode

  /** A piece with no `%`, no `+` and no `~`: both decoding steps copy it. */
  predicate IsPlain(s: string) {
    '%' !in s && '+' !in s && '~' !in s
  }

  /** One step of `urldecode` on a nonempty string. */
  lemma {:induction false} UrlDecodeStep(s: string)
    requires s != []
    ensures UrlDecode(s) ==
            if s[0] == '+' then [' '] + UrlDecode(s[1..])
            else if s[0] == '%' && |s| >= 3 && IsHexDigit(s[1]) && IsHexDigit(s[2]) then
              [(16 * HexValue(s[1]) + HexValue(s[2])) as char] + UrlDecode(s[3..])
            else [s[0]] + UrlDecode(s[1..])
  {
  }

  /** `str_replace` copies a prefix that does not hold the first character
      of the pair it replaces. */
  lemma {:induction false} ReplacePlainPrefix(x: string, rest: string, a: char, b: char, c: char)
    requires a !in x
    ensures ReplacePair(x + rest, a, b, c) == x + ReplacePair(rest, a, b, c)
  {
    if x != [] {
      assert x[0] in x;
      ReplacePlainPrefix(x[1..], rest, a, b, c);
      var s := x + rest;
      assert s[0] == x[0] && s[1..] == x[1..] + rest;
      ReplaceStep(s, a, b, c);
      assert x == [x[0]] + x[1..];
    } else {
      assert x + rest == rest;
    }
  }

  /** Both passes of `Unescape` over a plain prefix, then the rest. */
  lemma {:induction false} UnescapePlainPrefix(x: string, t: string)
    requires IsPlain(x)
    ensures Unescape(x + t) == x + Unescape(t)
  {
    ReplacePlainPrefix(x, t, '~', '1', '/');
    ReplacePlainPrefix(x, ReplacePair(t, '~', '1', '/'), '~', '0', '~');
  }

  /** `~1` inside a piece is a `/` of the token. */
  lemma {:induction false} DecodeEscapedSlash(x: string, y: string)
    requires IsPlain(x) && IsPlain(y)
    ensures DecodeToken(x + ['~', '1'] + y) == x + ['/'] + y
  {
    var t := ['~', '1'] + y;
    assert x + ['~', '1'] + y == x + t;
    assert '%' !in x + t && '+' !in x + t;
    UnescapePlainPrefix(x, t);
    ReplaceHit(y, '~', '1', '/');
    ReplaceAbsent(y, '~', '1', '/');
    ReplaceSkip('/', y, '~', '0', '~');
    ReplaceAbsent(y, '~', '0', '~');
  }

  /** `~0` inside a piece is a `~` of the token. */
  lemma {:induction false} DecodeEscapedTilde(x: string, y: string)
    requires IsPlain(x) && IsPlain(y)
    ensures DecodeToken(x + ['~', '0'] + y) == x + ['~'] + y
  {
    var t := ['~', '0'] + y;
    assert x + ['~', '0'] + y == x + t;
    assert '%' !in x + t && '+' !in x + t;
    UnescapePlainPrefix(x, t);
    assert t == ['~'] + (['0'] + y);
    ReplaceSkip('~', ['0'] + y, '~', '1', '/');
    ReplaceSkip('0', y, '~', '1', '/');
    ReplaceAbsent(y, '~', '1', '/');
    ReplaceHit(y, '~', '0', '~');
    ReplaceAbsent(y, '~', '0', '~');
  }

  /** `~01` is `~` followed by `1`, never `/`: every `~1` is replaced
      before any `~0`, so the `~1` that the second pass creates stays. */
  lemma {:induction false} DecodeTildeOne(x: string, y: string)
    requires IsPlain(x) && IsPlain(y)
    ensures DecodeToken(x + ['~', '0', '1'] + y) == x + ['~', '1'] + y
  {
    var t := ['~', '0', '1'] + y;
    assert x + ['~', '0', '1'] + y == x + t;
    assert '%' !in x + t && '+' !in x + t;
    UnescapePlainPrefix(x, t);
    assert t == ['~'] + (['0'] + (['1'] + y));
    ReplaceSkip('~', ['0'] + (['1'] + y), '~', '1', '/');
    ReplaceSkip('0', ['1'] + y, '~', '1', '/');
    ReplaceSkip('1', y, '~', '1', '/');
    ReplaceAbsent(y, '~', '1', '/');
    assert ['~'] + (['0'] + (['1'] + y)) == ['~', '0'] + (['1'] + y);
    ReplaceHit(['1'] + y, '~', '0', '~');
    ReplaceSkip('1', y, '~', '0', '~');
    ReplaceAbsent(y, '~', '0', '~');
  }

  /** `%2F` inside a piece is a `/` of the token. */
  lemma {:induction false} DecodeEncodedSlash(x: string, y: string)
    requires IsPlain(x) && IsPlain(y)
    ensures DecodeToken(x + ['%', '2', 'F'] + y) == x + ['/'] + y
  {
    var t := ['%', '2', 'F'] + y;
    assert x + ['%', '2', 'F'] + y == x + t;
    UrlDecodePlainPrefix(x, t);
    UrlDecodeStep(t);
    assert t[3..] == y;
    assert UrlDecode(x + t) == x + (['/'] + y);
    PlainToken(x + (['/'] + y));
  }

  /** `+` inside a piece is a space of the token. */
  lemma {:induction false} DecodePlus(x: string, y: string)
    requires IsPlain(x) && IsPlain(y)
    ensures DecodeToken(x + ['+'] + y) == x + [' '] + y
  {
    var t := ['+'] + y;
    assert x + ['+'] + y == x + t;
    UrlDecodePlainPrefix(x, t);
    UrlDecodeStep(t);
    assert t[1..] == y;
    assert UrlDecode(x + t) == x + ([' '] + y);
    assert '~' !in x + ([' '] + y);
    ReplaceAbsent(x + ([' '] + y), '~', '1', '/');
    ReplaceAbsent(x + ([' '] + y), '~', '0', '~');
  }

  /** A `%` not followed by two hexadecimal digits is kept as it is. */
  lemma {:induction false} DecodeStrayPercent(x: string, y: string)
    requires IsPlain(x) && IsPlain(y)
    requires !(|y| >= 2 && IsHexDigit(y[0]) && IsHexDigit(y[1]))
    ensures DecodeToken(x + ['%'] + y) == x + ['%'] + y
  {
    var t := ['%'] + y;
    assert x + ['%'] + y == x + t;
    UrlDecodePlainPrefix(x, t);
    UrlDecodeStep(t);
    assert t[1..] == y;
    assert UrlDecode(x + t) == x + t;
    assert '~' !in x + t;
    ReplaceAbsent(x + t, '~', '1', '/');
    ReplaceAbsent(x + t, '~', '0', '~');
  }

  /** Percent-decoding happens after splitting: an encoded `/` stays inside
      its token instead of separating two. */
  lemma {:induction false} EncodedSlashStaysInToken(x: string, y: string)
    requires IsPlain(x) && IsPlain(y) && Separator !in x && Separator !in y
    ensures Tokenize([Separator] + x + ['%', '2', 'F'] + y) == [x + ['/'] + y]
  {
    var piece := x + ['%', '2', 'F'] + y;
    assert Separator !in piece;
    SinglePiece(piece);
    assert [Separator] + x + ['%', '2', 'F'] + y == [Separator] + piece;
    DecodeEncodedSlash(x, y);
  }

  /** Escaping adds only `~`, `0` and `1` to a key. */
  lemma {:induction false} EscapeAbsent(k: string, c: char)
    requires c !in k && c != '~' && c != '0' && c != '1'
    ensures c !in Escape(k)
  {
    if k != [] {
      assert k[0] in k;
      assert forall i :: 0 <= i < |k[1..]| ==> k[1..][i] == k[i + 1];
      EscapeAbsent(k[1..], c);
    }
  }

  /** A key without `%` or `+`, escaped as RFC 6901 says, is the single
      token of the pointer `/` followed by it. */
  lemma EscapedKeyPointer(k: string)
    requires '%' !in k && '+' !in k
    ensures Tokenize([Separator] + Escape(k)) == [k]
  {
    SinglePiece(Escape(k));
    EscapeAbsent(k, '%');
    EscapeAbsent(k, '+');
    UnescapeEscape(k);
  }
}
