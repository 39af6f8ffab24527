/**
 * The nxjson tree parser: `parse_value` and `parse_key` with their comment
 * extensions, number scanning as `strtoll`/`strtod` do it, `create_json`,
 * and the `nx_json_get`/`nx_json_item` lookups.
 *
 * The parser decodes strings in place, but every write lands before the
 * closing quote of the string being decoded and every later read lies after
 * it, so the parse is stated over the original text `t`.
 */
module NxJson {
  import opened Bytes
  import opened NxJsonText

  datatype Kind = NullKind | ObjectKind | ArrayKind | StringKind | IntegerKind | DoubleKind | BoolKind

  /**
   * A node: its kind, its key (object members only), the text of a string,
   * the `int_value` of an integer, double or boolean, the characters of a
   * double as scanned, and the children of an object or array in order.
   */
  datatype Json = Json(kind: Kind, key: Option<seq<Byte>>, text: seq<Byte>, intValue: int,
                       number: seq<Byte>, children: seq<Json>)

  /** The static node `nx_json_get` and `nx_json_item` return when nothing matches. */
  const DUMMY: Json := Json(NullKind, None, [], 0, [], [])

  function Leaf(kind: Kind, key: Option<seq<Byte>>): Json
  {
    Json(kind, key, [], 0, [], [])
  }

  const STAR: Byte := '*' as int
  const NEWLINE: Byte := '\n' as int
  const COMMA: Byte := ',' as int
  const COLON: Byte := ':' as int
  const MINUS: Byte := '-' as int
  const PLUS: Byte := '+' as int
  const DOT: Byte := '.' as int
  const OPEN_BRACE: Byte := '{' as int
  const CLOSE_BRACE: Byte := '}' as int
  const OPEN_BRACKET: Byte := '[' as int
  const CLOSE_BRACKET: Byte := ']' as int

  // -----------------------------------------------------------------------
  // create_json, nx_json_get, nx_json_item
  // -----------------------------------------------------------------------

  /** `create_json`: link `child` in as the last child of `parent`. */
  function CreateJson(parent: Json, child: Json): (r: Json)
    ensures |r.children| == |parent.children| + 1
  {
    parent.(children := parent.children + [child])
  }

  /** `parse_value` links the node it built, if any, into `js`. */
  function Adopt(js: Json, node: Option<Json>): (r: Json)
  {
    if node.Some? then CreateJson(js, node.value) else js
  }

  /**
   * `r` is `js` with children appended after its own, each new one with a
   * key exactly when `keyed`.
   */
  predicate Grows(js: Json, r: Json, keyed: bool)
  {
    r.kind == js.kind && r.key == js.key && r.text == js.text && r.intValue == js.intValue &&
    r.number == js.number &&
    |js.children| <= |r.children| && r.children[..|js.children|] == js.children &&
    forall i :: |js.children| <= i < |r.children| ==> r.children[i].key.Some? == keyed
  }

  lemma GrowsAdopt(js: Json, node: Option<Json>, keyed: bool)
    requires node.Some? ==> node.value.key.Some? == keyed
    ensures Grows(js, Adopt(js, node), keyed)
  {
  }

  lemma GrowsTrans(a: Json, b: Json, c: Json, keyed: bool)
    requires Grows(a, b, keyed) && Grows(b, c, keyed)
    ensures Grows(a, c, keyed)
  {
    assert c.children[..|b.children|][..|a.children|] == c.children[..|a.children|];
  }

  /** The index of the first child whose key is `key`. */
  function KeyIndex(kids: seq<Json>, key: seq<Byte>): (r: Option<nat>)
    ensures r.Some? ==> r.value < |kids| && kids[r.value].key == Some(key) &&
                        forall i :: 0 <= i < r.value ==> kids[i].key != Some(key)
    ensures r.None? ==> forall i :: 0 <= i < |kids| ==> kids[i].key != Some(key)
  {
    if kids == [] then None
    else if kids[0].key == Some(key) then Some(0)
    else match KeyIndex(kids[1..], key)
      case None => None
      case Some(i) => Some(i + 1)
  }

  /** What `nx_json_get` finds: a missing node or key gives the dummy. */
  function GetOf(json: Option<Json>, key: Option<seq<Byte>>): Json
  {
    if json.None? || key.None? then DUMMY
    else match KeyIndex(json.value.children, key.value)
      case None => DUMMY
      case Some(i) => json.value.children[i]
  }

  /** What `nx_json_item` finds: the `idx`-th child, else the dummy. */
  function ItemOf(json: Option<Json>, idx: int): Json
  {
    if json.Some? && 0 <= idx < |json.value.children| then json.value.children[idx] else DUMMY
  }

  /** `nx_json_get`: walk the children for the first one with key `key`. */
  method Get(json: Option<Json>, key: Option<seq<Byte>>) returns (r: Json)
    ensures r == GetOf(json, key)
  {
    if json.None? || key.None? {
      return DUMMY;
    }
    var kids := json.value.children;
    var i := 0;
    while i < |kids|
      invariant 0 <= i <= |kids|
      invariant forall j :: 0 <= j < i ==> kids[j].key != key
    {
      if kids[i].key == key {
        return kids[i];
      }
      i := i + 1;
    }
    return DUMMY;
  }

  /** `nx_json_item`: count down along the children. */
  method Item(json: Option<Json>, idx: int) returns (r: Json)
    ensures r == ItemOf(json, idx)
  {
    if json.None? {
      return DUMMY;
    }
    var kids := json.value.children;
    var n := idx;
    var i := 0;
    while i < |kids|
      invariant 0 <= i <= |kids| && n == idx - i
      invariant idx < 0 || idx >= i
    {
      if n == 0 {
        return kids[i];
      }
      n := n - 1;
      i := i + 1;
    }
    return DUMMY;
  }

  /** A child linked in by `create_json` is found at the old length. */
  lemma ItemAfterCreate(parent: Json, child: Json)
    ensures ItemOf(Some(CreateJson(parent, child)), |parent.children|) == child
    ensures forall i :: 0 <= i < |parent.children| ==>
      ItemOf(Some(CreateJson(parent, child)), i) == ItemOf(Some(parent), i)
  {
  }

  /** A new child is found by its key unless an earlier child has the same key. */
  lemma {:induction false} KeyIndexAfterAppend(kids: seq<Json>, child: Json, key: seq<Byte>)
    ensures KeyIndex(kids + [child], key) ==
      (if KeyIndex(kids, key).Some? then KeyIndex(kids, key)
       else if child.key == Some(key) then Some(|kids|) else None)
  {
    if kids != [] {
      assert (kids + [child])[1..] == kids[1..] + [child];
      KeyIndexAfterAppend(kids[1..], child, key);
    }
  }

  lemma GetAfterCreate(parent: Json, child: Json, key: seq<Byte>)
    ensures GetOf(Some(CreateJson(parent, child)), Some(key)) ==
      (if KeyIndex(parent.children, key).Some? then GetOf(Some(parent), Some(key))
       else if child.key == Some(key) then child else DUMMY)
  {
    KeyIndexAfterAppend(parent.children, child, key);
  }

  // -----------------------------------------------------------------------
  // Scanning helpers: C strings, strchr, comments
  // -----------------------------------------------------------------------

  /** The C string at the start of `s`: the bytes before the first NUL. */
  function CString(s: seq<Byte>): (r: seq<Byte>)
    ensures |r| <= |s| && r == s[..|r|] && 0 !in r
    ensures |r| < |s| ==> s[|r|] == 0
  {
    if s == [] || s[0] == 0 then [] else [s[0]] + CString(s[1..])
  }

  /** `strchr(t + i, c)`: the first `c` from `i` on, none when the terminator comes first. */
  function StrChr(t: seq<Byte>, i: nat, c: Byte): (r: Option<nat>)
    requires c != 0
    decreases |t| - i
    ensures r.Some? ==> i <= r.value < |t| && t[r.value] == c &&
                        forall k :: i <= k < r.value ==> t[k] != c && t[k] != 0
    ensures r.None? ==> exists e :: i <= e && At(t, e) == 0 && forall k :: i <= k < e ==> At(t, k) != c
  {
    if i >= |t| || t[i] == 0 then assert At(t, i) == 0; None
    else if t[i] == c then Some(i)
    else StrChr(t, i + 1, c)
  }

  /**
   * The `REPEAT` loop of `skip_block_comment`: look for a `/` after `q`
   * that follows a `*`; the result is the index after it.
   */
  function CommentEnd(t: seq<Byte>, q: nat): (r: Option<nat>)
    decreases |t| - q
    ensures r.Some? ==> q + 1 < r.value <= |t| && t[r.value - 1] == SLASH && t[r.value - 2] == STAR
  {
    match StrChr(t, q + 1, SLASH)
    case None => None
    case Some(j) => if t[j - 1] != STAR then CommentEnd(t, j) else Some(j + 1)
  }

  /** `skip_block_comment`, called with `p` just after the opening slash and star. */
  function SkipBlockComment(t: seq<Byte>, p: nat): (r: Option<nat>)
    ensures r.Some? ==> p + 1 < r.value <= |t|
  {
    if At(t, p) == 0 then None else CommentEnd(t, p)
  }

  /** A comment starting with the slash at `p`: the index after it. */
  function SkipComment(t: seq<Byte>, p: nat): (r: Option<nat>)
    requires At(t, p) == SLASH
    ensures r.Some? ==> p < r.value <= |t|
  {
    if At(t, p + 1) == SLASH then
      match StrChr(t, p + 2, NEWLINE)
      case None => None
      case Some(j) => Some(j + 1)
    else if At(t, p + 1) == STAR then SkipBlockComment(t, p + 2)
    else None
  }

  // -----------------------------------------------------------------------
  // Numbers: strtoll with base 0, and the extent strtod scans
  // -----------------------------------------------------------------------

  /** A digit's value in bases up to 36; 36 for any other byte. */
  function DigitVal(c: Byte): (r: nat)
    ensures r <= 36
    ensures r < 10 <==> '0' as int <= c <= '9' as int
  {
    if '0' as int <= c <= '9' as int then c - '0' as int
    else if 'a' as int <= c <= 'z' as int then c - 'a' as int + 10
    else if 'A' as int <= c <= 'Z' as int then c - 'A' as int + 10
    else 36
  }

  /** The end of the run of `base` digits starting at `i`. */
  function DigitsEnd(t: seq<Byte>, i: nat, base: nat): (j: nat)
    decreases |t| - i
    ensures i <= j && (i <= |t| ==> j <= |t|)
    ensures forall k :: i <= k < j ==> k < |t| && DigitVal(t[k]) < base
    ensures DigitVal(At(t, j)) >= base || At(t, j) == 0
  {
    if i < |t| && DigitVal(t[i]) < base then DigitsEnd(t, i + 1, base) else i
  }

  /** The value of the digits `t[i..j]` in `base`. */
  function DigitsValue(t: seq<Byte>, i: nat, j: nat, base: nat): (v: nat)
    requires i <= j <= |t|
    decreases j - i
  {
    if i == j then 0 else DigitsValue(t, i, j - 1, base) * base + DigitVal(t[j - 1])
  }

  const INT64_MIN: int := -0x8000_0000_0000_0000
  const INT64_MAX: int := 0x7FFF_FFFF_FFFF_FFFF

  /**
   * What `strtoll(t + p, &pe, 0)` sees: no digits at all, a value outside
   * `long long` (`ERANGE`), or a value with the index after its digits.
   */
  datatype Scanned = NoDigits | OutOfRange | Scanned(value: int, end: nat, hex: bool)

  predicate IsHexPrefix(t: seq<Byte>, q: nat)
  {
    At(t, q) == '0' as int && (At(t, q + 1) == 'x' as int || At(t, q + 1) == 'X' as int) &&
    IsHexDigit(At(t, q + 2))
  }

  /**
   * `strtoll` with base 0, from an optional sign: `0x` followed by a hex
   * digit selects base 16, another leading `0` base 8, anything else base 10.
   */
  function StrToLL(t: seq<Byte>, p: nat): (r: Scanned)
    ensures r.Scanned? ==> p < r.end && (p < |t| ==> r.end <= |t|) && INT64_MIN <= r.value <= INT64_MAX
  {
    var q := if At(t, p) == MINUS || At(t, p) == PLUS then p + 1 else p;
    var hex := IsHexPrefix(t, q);
    var base := if hex then 16 else if At(t, q) == '0' as int then 8 else 10;
    var start := if hex then q + 2 else q;
    var e := DigitsEnd(t, start, base);
    if e == start then NoDigits
    else
      var v := DigitsValue(t, start, e, base);
      var s: int := if At(t, p) == MINUS then 0 - v else v;
      if s < INT64_MIN || s > INT64_MAX then OutOfRange else Scanned(s, e, hex)
  }

  /** An exponent marker at `i` is taken only with at least one digit after its sign. */
  function ExponentEnd(t: seq<Byte>, i: nat, hex: bool): (r: nat)
    ensures r >= i && (i <= |t| ==> r <= |t|)
  {
    var c := At(t, i);
    if (hex && (c == 'p' as int || c == 'P' as int)) || (!hex && (c == 'e' as int || c == 'E' as int)) then
      var j := if At(t, i + 1) == PLUS || At(t, i + 1) == MINUS then i + 2 else i + 1;
      var k := DigitsEnd(t, j, 10);
      if k > j then k else i
    else i
  }

  /**
   * The end of what `strtod` reads once `strtoll` stopped at `e`: an
   * optional fraction, then an optional exponent (`p` for hexadecimal).
   */
  function FractionEnd(t: seq<Byte>, e: nat, hex: bool): (r: nat)
    ensures r >= e && (e <= |t| ==> r <= |t|)
  {
    var f := if At(t, e) == DOT then DigitsEnd(t, e + 1, if hex then 16 else 10) else e;
    ExponentEnd(t, f, hex)
  }

  predicate IsDigit(c: Byte)
  {
    '0' as int <= c <= '9' as int
  }

  /** A parsed node and the index after it; no node when `parse_value` stops at `]`. */
  datatype Parsed = Parsed(node: Option<Json>, next: nat)

  /** The characters after the `strtoll` digits that make `parse_value` call `strtod`. */
  predicate IsDoubleMark(c: Byte)
  {
    c == DOT || c == 'e' as int || c == 'E' as int
  }

  /**
   * What the number case reads besides the text.  `staleRange`: `errno`
   * already holds `ERANGE` when parsing starts; nothing in the parser resets
   * it, so every number then fails its `errno` test.  `fits`: whether
   * `strtod` represents the value of the given characters without `ERANGE`
   * (overflow or underflow); the floating-point conversion itself is not
   * part of this model.
   */
  datatype Strtod = Strtod(staleRange: bool, fits: seq<Byte> -> bool)

  /**
   * The number case of `parse_value`: an integer unless a `.`, `e` or `E`
   * follows the `strtoll` digits, in which case it is a double and its
   * characters are what `strtod` reads.  No digits, a stale or fresh
   * `ERANGE` from either conversion fails the parse.
   */
  function ParseNumber(t: seq<Byte>, p: nat, key: Option<seq<Byte>>, num: Strtod): (r: Option<Parsed>)
    requires p < |t|
    ensures r.Some? ==> p < r.value.next <= |t| && r.value.node.Some? && r.value.node.value.key == key
    ensures r.Some? ==> r.value.node.value.kind in {IntegerKind, DoubleKind}
    ensures r.None? <==>
      num.staleRange || !StrToLL(t, p).Scanned? ||
      (IsDoubleMark(At(t, StrToLL(t, p).end)) &&
       !num.fits(t[p..FractionEnd(t, StrToLL(t, p).end, StrToLL(t, p).hex)]))
    ensures r.Some? ==>
      var e := StrToLL(t, p).end;
      r.value.node.value.intValue == StrToLL(t, p).value &&
      (r.value.node.value.kind == DoubleKind <==> IsDoubleMark(At(t, e))) &&
      r.value.next == (if IsDoubleMark(At(t, e)) then FractionEnd(t, e, StrToLL(t, p).hex) else e)
  {
    match StrToLL(t, p)
    case NoDigits => None
    case OutOfRange => None
    case Scanned(v, e, hex) =>
      if num.staleRange then None
      else if IsDoubleMark(At(t, e)) then
        var f := FractionEnd(t, e, hex);
        if num.fits(t[p..f]) then Some(Parsed(Some(Json(DoubleKind, key, [], v, t[p..f], [])), f)) else None
      else Some(Parsed(Some(Json(IntegerKind, key, [], v, [], [])), e))
  }

  const TRUE_WORD: seq<Byte> := [0x74, 0x72, 0x75, 0x65]
  const FALSE_WORD: seq<Byte> := [0x66, 0x61, 0x6C, 0x73, 0x65]
  const NULL_WORD: seq<Byte> := [0x6E, 0x75, 0x6C, 0x6C]

  /** The bytes `parse_value` skips between values. */
  predicate IsValueSpace(c: Byte)
  {
    c == ' ' as int || c == '\t' as int || c == '\n' as int || c == '\r' as int || c == COMMA
  }

  /** `IS_WHITESPACE`: every byte up to the space, compared unsigned. */
  predicate IsKeySpace(c: Byte)
  {
    c <= ' ' as int
  }

  // -----------------------------------------------------------------------
  // parse_value, parse_key
  // -----------------------------------------------------------------------

  /**
   * `parse_value` from `p` with the key the new node gets.  On success
   * the node is built (none when the text reaches `]` first) and `next` is
   * the index after it.
   */
  function ParseValue(t: seq<Byte>, p: nat, key: Option<seq<Byte>>, utf8: bool, num: Strtod): (r: Option<Parsed>)
    decreases |t| - p, 1
    ensures r.Some? ==> p <= r.value.next <= |t|
    ensures r.Some? && r.value.node.None? ==> At(t, r.value.next) == CLOSE_BRACKET
    ensures r.Some? && r.value.next == p ==> r.value.node.None?
    ensures r.Some? && r.value.node.Some? ==> r.value.node.value.key == key
    ensures r.Some? ==> At(t, p) != CLOSE_BRACE
  {
    var c := At(t, p);
    if c == 0 then None
    else if IsValueSpace(c) then ParseValue(t, p + 1, key, utf8, num)
    else if c == OPEN_BRACE then
      match ParseMembers(t, p + 1, Leaf(ObjectKind, key), utf8, num)
      case None => None
      case Some((js, q)) => Some(Parsed(Some(js), q))
    else if c == OPEN_BRACKET then
      match ParseElements(t, p + 1, Leaf(ArrayKind, key), utf8, num)
      case None => None
      case Some((js, q)) => Some(Parsed(Some(js), q))
    else if c == CLOSE_BRACKET then Some(Parsed(None, p))
    else if c == QUOTE then
      match UnescapeFrom(t, p + 1, utf8)
      case None => None
      case Some(u) => Some(Parsed(Some(Json(StringKind, key, CString(u.out), 0, [], [])), u.end))
    else if c == MINUS || IsDigit(c) then ParseNumber(t, p, key, num)
    else if c == 't' as int then
      if Spells(t, p, TRUE_WORD) then Some(Parsed(Some(Json(BoolKind, key, [], 1, [], [])), p + 4)) else None
    else if c == 'f' as int then
      if Spells(t, p, FALSE_WORD) then Some(Parsed(Some(Json(BoolKind, key, [], 0, [], [])), p + 5)) else None
    else if c == 'n' as int then
      if Spells(t, p, NULL_WORD) then Some(Parsed(Some(Leaf(NullKind, key)), p + 4)) else None
    else if c == SLASH then
      match SkipComment(t, p)
      case None => None
      case Some(q) => ParseValue(t, q, key, utf8, num)
    else None
  }

  /**
   * The array loop of `parse_value`: values go into `js` until one stops at
   * `]`; the index after that bracket comes back with the filled array.
   */
  function ParseElements(t: seq<Byte>, p: nat, js: Json, utf8: bool, num: Strtod): (r: Option<(Json, nat)>)
    decreases |t| - p, 2
    ensures r.Some? ==> p < r.value.1 <= |t| && Grows(js, r.value.0, false)
  {
    match ParseValue(t, p, None, utf8, num)
    case None => None
    case Some(Parsed(node, q)) =>
      var js' := Adopt(js, node);
      GrowsAdopt(js, node, false);
      if At(t, q) == CLOSE_BRACKET then Some((js', q + 1))
      else
        var r := ParseElements(t, q, js', utf8, num);
        if r.Some? then GrowsTrans(js, js', r.value.0, false); r else r
  }

  /** What `parse_key` finds: the `}` that ends the object, or a key and the index after its colon. */
  datatype KeyParsed = EndOfObject(at: nat) | Key(key: seq<Byte>, next: nat)

  /** `while (*p && IS_WHITESPACE(*p)) p++` */
  function SkipKeySpace(t: seq<Byte>, q: nat): (r: nat)
    decreases |t| - q
    ensures q <= r && (q <= |t| ==> r <= |t|)
    ensures At(t, r) == 0 || !IsKeySpace(At(t, r))
  {
    if q < |t| && t[q] != 0 && IsKeySpace(t[q]) then SkipKeySpace(t, q + 1) else q
  }

  /** `parse_key`: skip separators and comments up to a quoted key and its colon, or a `}`. */
  function ParseKey(t: seq<Byte>, p: nat, utf8: bool): (r: Option<KeyParsed>)
    decreases |t| - p
    ensures r.Some? && r.value.EndOfObject? ==> p <= r.value.at < |t| && t[r.value.at] == CLOSE_BRACE
    ensures r.Some? && r.value.Key? ==> p < r.value.next <= |t| && 0 !in r.value.key
  {
    var c := At(t, p);
    if c == 0 then None
    else if c == QUOTE then
      match UnescapeFrom(t, p + 1, utf8)
      case None => None
      case Some(u) =>
        var q := SkipKeySpace(t, u.end);
        if At(t, q) == COLON then Some(Key(CString(u.out), q + 1)) else None
    else if IsKeySpace(c) || c == COMMA then ParseKey(t, p + 1, utf8)
    else if c == CLOSE_BRACE then Some(EndOfObject(p))
    else if c == SLASH then
      match SkipComment(t, p)
      case None => None
      case Some(q) => ParseKey(t, q, utf8)
    else None
  }

  /**
   * The object loop of `parse_value`: key and value pairs go into `js`
   * until `parse_key` reaches `}`.  The `}` test follows every `parse_key`,
   * so a `}` right after a key's colon also ends the object, and that key
   * is dropped.
   */
  function ParseMembers(t: seq<Byte>, p: nat, js: Json, utf8: bool, num: Strtod): (r: Option<(Json, nat)>)
    decreases |t| - p, 2
    ensures r.Some? ==> p < r.value.1 <= |t| && Grows(js, r.value.0, true)
  {
    match ParseKey(t, p, utf8)
    case None => None
    case Some(EndOfObject(q)) => Some((js, q + 1))
    case Some(Key(k, q)) =>
      if At(t, q) == CLOSE_BRACE then Some((js, q + 1))
      else match ParseValue(t, q, Some(k), utf8, num)
      case None => None
      case Some(Parsed(node, q2)) =>
        var js' := Adopt(js, node);
        GrowsAdopt(js, node, true);
        var r := ParseMembers(t, q2, js', utf8, num);
        if r.Some? then GrowsTrans(js, js', r.value.0, true); r else r
  }

  /** `nx_json_parse`: the node the first value builds, none on an error or an empty parse. */
  function Parse(t: seq<Byte>, utf8: bool, num: Strtod): (r: Option<Json>)
    ensures r.Some? ==> r.value.key.None?
  {
    match ParseValue(t, 0, None, utf8, num)
    case Some(Parsed(Some(js), _)) => Some(js)
    case _ => None
  }

  // -----------------------------------------------------------------------
  // What a text parses to
  // -----------------------------------------------------------------------

  lemma {:induction false} CStringNoNul(s: seq<Byte>)
    requires 0 !in s
    ensures CString(s) == s
  {
    if s != [] {
      assert 0 !in s[1..];
      CStringNoNul(s[1..]);
    }
  }

  /** A quote, then `Escape(s)` and a quote: the string decodes to `s` and ends after the closing quote. */
  lemma {:induction false} QuotedDecodes(t: seq<Byte>, p: nat, s: seq<Byte>, utf8: bool)
    requires At(t, p) == QUOTE && 0 !in s && Spells(t, p + 1, Escape(s) + [QUOTE])
    ensures UnescapeFrom(t, p + 1, utf8) == Some(Unescaped(s, p + |Escape(s)| + 2))
  {
    UnescapeEscaped(t, p + 1, s, utf8);
  }

  /** `parse_value` at a quote whose string decodes to a NUL-free `u.out`. */
  lemma {:induction false} ParseValueDecoded(t: seq<Byte>, p: nat, key: Option<seq<Byte>>, utf8: bool, num: Strtod, u: Unescaped)
    requires At(t, p) == QUOTE && UnescapeFrom(t, p + 1, utf8) == Some(u) && 0 !in u.out
    ensures ParseValue(t, p, key, utf8, num) == Some(Parsed(Some(Json(StringKind, key, u.out, 0, [], [])), u.end))
  {
    CStringNoNul(u.out);
  }

  /** A quoted, escaped string is a string node holding exactly its bytes, ending after the closing quote. */
  lemma {:induction false} ParseStringValue(t: seq<Byte>, p: nat, s: seq<Byte>, key: Option<seq<Byte>>, utf8: bool, num: Strtod)
    requires At(t, p) == QUOTE && 0 !in s && Spells(t, p + 1, Escape(s) + [QUOTE])
    ensures ParseValue(t, p, key, utf8, num) ==
      Some(Parsed(Some(Json(StringKind, key, s, 0, [], [])), p + |Escape(s)| + 2))
  {
    QuotedDecodes(t, p, s, utf8);
    ParseValueDecoded(t, p, key, utf8, num, Unescaped(s, p + |Escape(s)| + 2));
  }

  /** The words `true`, `false` and `null` are boolean 1, boolean 0 and null nodes, ending after the word. */
  lemma {:induction false} ParseWords(t: seq<Byte>, p: nat, key: Option<seq<Byte>>, utf8: bool, num: Strtod)
    ensures Spells(t, p, TRUE_WORD) ==>
      ParseValue(t, p, key, utf8, num) == Some(Parsed(Some(Json(BoolKind, key, [], 1, [], [])), p + 4))
    ensures Spells(t, p, FALSE_WORD) ==>
      ParseValue(t, p, key, utf8, num) == Some(Parsed(Some(Json(BoolKind, key, [], 0, [], [])), p + 5))
    ensures Spells(t, p, NULL_WORD) ==>
      ParseValue(t, p, key, utf8, num) == Some(Parsed(Some(Leaf(NullKind, key)), p + 4))
  {
    if Spells(t, p, TRUE_WORD) {
      assert t[p] == TRUE_WORD[0];
    }
    if Spells(t, p, FALSE_WORD) {
      assert t[p] == FALSE_WORD[0];
    }
    if Spells(t, p, NULL_WORD) {
      assert t[p] == NULL_WORD[0];
    }
  }

  /** `strtoll` in base 10 reads a run of decimal digits up to the first other byte. */
  lemma {:induction false} DecimalRun(t: seq<Byte>, i: nat, e: nat)
    requires i <= e <= |t|
    requires forall k :: i <= k < e ==> IsDigit(t[k])
    requires !IsDigit(At(t, e))
    ensures DigitsEnd(t, i, 10) == e
    decreases e - i
  {
    if i < e {
      DecimalRun(t, i + 1, e);
    }
  }

  /**
   * A decimal digit run not starting with `0` (which would select octal)
   * and not followed by `.`, `e` or `E` is an integer node holding the
   * run's value, ending after its last digit, when it fits `long long`
   * and `errno` is clear.
   */
  lemma {:induction false} ParseDecimal(t: seq<Byte>, p: nat, e: nat, key: Option<seq<Byte>>, utf8: bool, num: Strtod)
    requires p < e <= |t| && t[p] != '0' as int
    requires forall k :: p <= k < e ==> IsDigit(t[k])
    requires !IsDigit(At(t, e)) && !IsDoubleMark(At(t, e))
    requires DigitsValue(t, p, e, 10) <= INT64_MAX && !num.staleRange
    ensures ParseValue(t, p, key, utf8, num) ==
      Some(Parsed(Some(Json(IntegerKind, key, [], DigitsValue(t, p, e, 10), [], [])), e))
  {
    DecimalRun(t, p, e);
    assert IsDigit(t[p]);
    assert StrToLL(t, p) == Scanned(DigitsValue(t, p, e, 10), e, false);
  }

  /**
   * The text holds a quoted key from `p` on, in any escaped form, that
   * decodes to the NUL-free `k`; its closing quote ends before `q`, where a
   * colon stands.
   */
  predicate KeyAt(t: seq<Byte>, p: nat, k: seq<Byte>, q: nat, utf8: bool)
  {
    At(t, p) == QUOTE && 0 !in k && UnescapeFrom(t, p + 1, utf8) == Some(Unescaped(k, q)) &&
    At(t, q) == COLON
  }

  /** `parse_key` reads a quoted key and its colon. */
  lemma {:induction false} ParseKeyDecoded(t: seq<Byte>, p: nat, k: seq<Byte>, q: nat, utf8: bool)
    requires KeyAt(t, p, k, q, utf8)
    ensures ParseKey(t, p, utf8) == Some(Key(k, q + 1))
  {
    assert SkipKeySpace(t, q) == q;
    CStringNoNul(k);
  }

  /** `"k":` with the key escaped by `Escape` is a key that `parse_key` reads as `k`. */
  lemma {:induction false} ParseKeyEscaped(t: seq<Byte>, p: nat, k: seq<Byte>, utf8: bool)
    requires At(t, p) == QUOTE && 0 !in k && Spells(t, p + 1, Escape(k) + [QUOTE])
    requires At(t, p + |Escape(k)| + 2) == COLON
    ensures KeyAt(t, p, k, p + |Escape(k)| + 2, utf8)
    ensures ParseKey(t, p, utf8) == Some(Key(k, p + |Escape(k)| + 3))
  {
    QuotedDecodes(t, p, k, utf8);
    ParseKeyDecoded(t, p, k, p + |Escape(k)| + 2, utf8);
  }

  /** After a key, a `}` ends the object and the key is dropped. */
  lemma {:induction false} MembersKeyThenClose(t: seq<Byte>, p: nat, js: Json, k: seq<Byte>, q: nat, utf8: bool, num: Strtod)
    requires ParseKey(t, p, utf8) == Some(Key(k, q)) && At(t, q) == CLOSE_BRACE
    ensures ParseMembers(t, p, js, utf8, num) == Some((js, q + 1))
  {
  }

  /** A `}` where a key may stand ends the object. */
  lemma {:induction false} MembersClose(t: seq<Byte>, p: nat, js: Json, utf8: bool, num: Strtod)
    requires At(t, p) == CLOSE_BRACE
    ensures ParseMembers(t, p, js, utf8, num) == Some((js, p + 1))
  {
    assert ParseKey(t, p, utf8) == Some(EndOfObject(p));
  }

  /** One turn of the object loop: a key, then a value that is not `}`, then the loop again. */
  lemma {:induction false} MembersStep(t: seq<Byte>, p: nat, js: Json, k: seq<Byte>, q: nat, r: Parsed, utf8: bool, num: Strtod)
    requires ParseKey(t, p, utf8) == Some(Key(k, q)) && At(t, q) != CLOSE_BRACE
    requires ParseValue(t, q, Some(k), utf8, num) == Some(r)
    ensures ParseMembers(t, p, js, utf8, num) == ParseMembers(t, r.next, Adopt(js, r.node), utf8, num)
  {
  }

  /** After a key, a value that stops at `}` is the one member the object gains. */
  lemma {:induction false} MembersKeyThenValue(t: seq<Byte>, p: nat, js: Json, k: seq<Byte>, q: nat, n: Json, e: nat, utf8: bool, num: Strtod)
    requires ParseKey(t, p, utf8) == Some(Key(k, q))
    requires ParseValue(t, q, Some(k), utf8, num) == Some(Parsed(Some(n), e)) && At(t, e) == CLOSE_BRACE
    ensures ParseMembers(t, p, js, utf8, num) == Some((CreateJson(js, n), e + 1))
  {
    MembersStep(t, p, js, k, q, Parsed(Some(n), e), utf8, num);
    MembersClose(t, e, CreateJson(js, n), utf8, num);
  }

  /** A `}` straight after a key's colon ends the object without a member for that key. */
  lemma {:induction false} ParseKeyWithoutValue(t: seq<Byte>, p: nat, js: Json, k: seq<Byte>, q: nat, utf8: bool, num: Strtod)
    requires KeyAt(t, p, k, q, utf8) && At(t, q + 1) == CLOSE_BRACE
    ensures ParseMembers(t, p, js, utf8, num) == Some((js, q + 2))
  {
    ParseKeyDecoded(t, p, k, q, utf8);
    MembersKeyThenClose(t, p, js, k, q + 1, utf8, num);
  }

  /** A key whose value parses and stops at `}` is the one member the object gains. */
  lemma {:induction false} ParseOneMember(t: seq<Byte>, p: nat, js: Json, k: seq<Byte>, q: nat, n: Json, e: nat, utf8: bool, num: Strtod)
    requires KeyAt(t, p, k, q, utf8)
    requires ParseValue(t, q + 1, Some(k), utf8, num) == Some(Parsed(Some(n), e)) && At(t, e) == CLOSE_BRACE
    ensures n.key == Some(k)
    ensures ParseMembers(t, p, js, utf8, num) == Some((CreateJson(js, n), e + 1))
  {
    ParseKeyDecoded(t, p, k, q, utf8);
    MembersKeyThenValue(t, p, js, k, q + 1, n, e, utf8, num);
  }

  /** A text starting with `{` parses to the object its members fill. */
  lemma {:induction false} ParseObject(t: seq<Byte>, js: Json, e: nat, utf8: bool, num: Strtod)
    requires At(t, 0) == OPEN_BRACE && ParseMembers(t, 1, Leaf(ObjectKind, None), utf8, num) == Some((js, e))
    ensures Parse(t, utf8, num) == Some(js)
  {
  }

  /** `nx_json_get` on an object finds its only child by that child's key. */
  lemma {:induction false} GetOnlyChild(n: Json, k: seq<Byte>)
    requires n.key == Some(k)
    ensures GetOf(Some(Json(ObjectKind, None, [], 0, [], [n])), Some(k)) == n
  {
    assert KeyIndex([n], k) == Some(0);
  }

  /** `{"k":` and a value text, then `}`: an object whose one child `nx_json_get` finds by `k`. */
  lemma {:induction false} ParseObjectOfOne(t: seq<Byte>, k: seq<Byte>, q: nat, n: Json, e: nat, utf8: bool, num: Strtod)
    requires At(t, 0) == OPEN_BRACE && KeyAt(t, 1, k, q, utf8)
    requires ParseValue(t, q + 1, Some(k), utf8, num) == Some(Parsed(Some(n), e)) && At(t, e) == CLOSE_BRACE
    ensures Parse(t, utf8, num) == Some(Json(ObjectKind, None, [], 0, [], [n]))
    ensures GetOf(Parse(t, utf8, num), Some(k)) == n
  {
    ParseOneMember(t, 1, Leaf(ObjectKind, None), k, q, n, e, utf8, num);
    ParseObject(t, CreateJson(Leaf(ObjectKind, None), n), e + 1, utf8, num);
    GetOnlyChild(n, k);
  }

  /** The text `{"a":}` parses to an object with no children. */
  lemma {:induction false} ParseKeyWithoutValueExample(utf8: bool, num: Strtod)
    ensures Parse([OPEN_BRACE, QUOTE, 'a' as int, QUOTE, COLON, CLOSE_BRACE], utf8, num) ==
      Some(Leaf(ObjectKind, None))
  {
    var t := [OPEN_BRACE, QUOTE, 'a' as int, QUOTE, COLON, CLOSE_BRACE];
    assert StepAt(t, 2, utf8) == Piece(['a' as int], 3);
    UnescapeClose(t, 3, utf8);
    assert ['a' as int] + [] == ['a' as int];
    assert KeyAt(t, 1, ['a' as int], 4, utf8);
    ParseKeyWithoutValue(t, 1, Leaf(ObjectKind, None), ['a' as int], 4, utf8, num);
    ParseObject(t, Leaf(ObjectKind, None), 6, utf8, num);
  }
}
