/**
 * The text layer of the nxjson parser: hexadecimal digits, the UTF-8 encoder
 * used for `\u` escapes (RFC 3629, section 3), surrogate pairs, and the
 * in-place string unescaper (RFC 8259, section 7).
 *
 * Text is a NUL-terminated byte buffer; `At` reads it with everything from
 * the end of the sequence on reading as the terminator.
 */
module NxJsonText {
  import opened Bytes

  const QUOTE: Byte := '"' as int
  const BACKSLASH: Byte := '\\' as int
  const SLASH: Byte := '/' as int

  /** Byte `i` of a NUL-terminated text. */
  function At(t: seq<Byte>, i: nat): Byte
  {
    if i < |t| then t[i] else 0
  }

  // -----------------------------------------------------------------------
  // hex_val
  // -----------------------------------------------------------------------

  predicate IsHexDigit(c: Byte)
  {
    '0' as int <= c <= '9' as int || 'a' as int <= c <= 'f' as int || 'A' as int <= c <= 'F' as int
  }

  /** `hex_val`: the value of a hexadecimal digit, -1 for any other byte. */
  function HexVal(c: Byte): (r: int)
    ensures -1 <= r < 16
    ensures r >= 0 <==> IsHexDigit(c)
  {
    if '0' as int <= c <= '9' as int then c - '0' as int
    else if 'a' as int <= c <= 'f' as int then c - 'a' as int + 10
    else if 'A' as int <= c <= 'F' as int then c - 'A' as int + 10
    else -1
  }

  /** The lower- and upper-case digit of a value below 16. */
  function HexDigit(v: nat, upper: bool): (c: Byte)
    requires v < 16
  {
    if v < 10 then '0' as int + v
    else if upper then 'A' as int + v - 10
    else 'a' as int + v - 10
  }

  /** `hex_val` inverts both spellings of every digit. */
  lemma HexValInvertsDigit(v: nat, upper: bool)
    requires v < 16
    ensures HexVal(HexDigit(v, upper)) == v
  {
  }

  // -----------------------------------------------------------------------
  // unicode_to_utf8
  // -----------------------------------------------------------------------

  /**
   * `unicode_to_utf8` for an `unsigned int` code point: the UTF-8 bytes, or
   * None for a surrogate (the unsigned test `codepoint - 0xd800u < 0x800`)
   * and for anything from 0x110000 on.
   */
  function UnicodeToUtf8(cp: nat): (r: Option<seq<Byte>>)
    requires cp < TWO_32
    ensures r.None? <==> 0xD800 <= cp < 0xE000 || cp >= 0x11_0000
    ensures r.Some? ==> |r.value| == (if cp < 0x80 then 1 else if cp < 0x800 then 2
                                      else if cp < 0x1_0000 then 3 else 4)
  {
    if cp < 0x80 then Some([cp])
    else if cp < 0x800 then Some([192 + cp / 64, 128 + cp % 64])
    else if (cp - 0xD800) % TWO_32 < 0x800 then None
    else if cp < 0x1_0000 then Some([224 + cp / 4096, 128 + cp / 64 % 64, 128 + cp % 64])
    else if cp < 0x11_0000 then
      Some([240 + cp / 262144, 128 + cp / 4096 % 64, 128 + cp / 64 % 64, 128 + cp % 64])
    else None
  }

  predicate IsContinuation(b: Byte)
  {
    128 <= b < 192
  }

  /**
   * Reference UTF-8 decoder for one scalar value (RFC 3629, section 3):
   * lead byte, continuation bytes, no overlong forms, no surrogates, nothing
   * above U+10FFFF.
   */
  function Utf8Decode(b: seq<Byte>): (r: Option<nat>)
  {
    var b0: int := if |b| > 0 then b[0] else 0;
    var b1: int := if |b| > 1 then b[1] else 0;
    var b2: int := if |b| > 2 then b[2] else 0;
    var b3: int := if |b| > 3 then b[3] else 0;
    if |b| == 1 && b[0] < 0x80 then Some(b[0])
    else if |b| == 2 && 0xC0 <= b[0] < 0xE0 && IsContinuation(b[1]) then
      var cp := (b0 - 0xC0) * 64 + (b1 - 128);
      if cp >= 0x80 then Some(cp) else None
    else if |b| == 3 && 0xE0 <= b[0] < 0xF0 && IsContinuation(b[1]) && IsContinuation(b[2]) then
      var cp := (b0 - 0xE0) * 4096 + (b1 - 128) * 64 + (b2 - 128);
      if cp >= 0x800 && !(0xD800 <= cp < 0xE000) then Some(cp) else None
    else if |b| == 4 && 0xF0 <= b[0] < 0xF8 && IsContinuation(b[1]) && IsContinuation(b[2]) && IsContinuation(b[3]) then
      var cp := (b0 - 0xF0) * 262144 + (b1 - 128) * 4096 + (b2 - 128) * 64 + (b3 - 128);
      if 0x1_0000 <= cp < 0x11_0000 then Some(cp) else None
    else None
  }

  /** Every code point the encoder accepts decodes back to itself. */
  lemma Utf8RoundTrip(cp: nat)
    requires cp < TWO_32 && UnicodeToUtf8(cp).Some?
    ensures Utf8Decode(UnicodeToUtf8(cp).value) == Some(cp)
  {
    if cp < 0x80 {
    } else if cp < 0x800 {
      Utf8Two(cp);
    } else if cp < 0x1_0000 {
      Utf8Three(cp);
    } else {
      Utf8Four(cp);
    }
  }

  lemma Utf8Two(cp: nat)
    requires 0x80 <= cp < 0x800
    ensures Utf8Decode([192 + cp / 64, 128 + cp % 64]) == Some(cp)
  {
    assert cp == (cp / 64) * 64 + cp % 64;
  }

  lemma Utf8Three(cp: nat)
    requires 0x800 <= cp < 0x1_0000 && !(0xD800 <= cp < 0xE000)
    ensures Utf8Decode([224 + cp / 4096, 128 + cp / 64 % 64, 128 + cp % 64]) == Some(cp)
  {
    assert cp / 64 == (cp / 4096) * 64 + cp / 64 % 64;
    assert cp == (cp / 64) * 64 + cp % 64;
  }

  lemma Utf8Four(cp: nat)
    requires 0x1_0000 <= cp < 0x11_0000
    ensures Utf8Decode([240 + cp / 262144, 128 + cp / 4096 % 64, 128 + cp / 64 % 64, 128 + cp % 64]) == Some(cp)
  {
    assert cp / 4096 == (cp / 262144) * 64 + cp / 4096 % 64;
    assert cp / 64 == (cp / 4096) * 64 + cp / 64 % 64;
    assert cp == (cp / 64) * 64 + cp % 64;
  }

  // -----------------------------------------------------------------------
  // Surrogate pairs
  // -----------------------------------------------------------------------

  /** `(cp & 0xfc00) == 0xd800` on the 16-bit value of a `\u` escape. */
  predicate IsHighSurrogate(cp: bv16)
  {
    cp & 0xFC00 == 0xD800
  }

  /** `(cp & 0xfc00) == 0xdc00` */
  predicate IsLowSurrogate(cp: bv16)
  {
    cp & 0xFC00 == 0xDC00
  }

  /** The masks select exactly the two surrogate ranges. */
  lemma SurrogateRanges(cp: bv16)
    ensures IsHighSurrogate(cp) <==> 0xD800 <= cp as int < 0xDC00
    ensures IsLowSurrogate(cp) <==> 0xDC00 <= cp as int < 0xE000
  {
    CompareAsInt(cp);
  }

  lemma CompareAsInt(x: bv16)
    ensures (x < 0xD800) == (x as int < 0xD800) && (x < 0xDC00) == (x as int < 0xDC00)
    ensures (x < 0xE000) == (x as int < 0xE000)
  {
  }

  /** `0x10000 + ((hi - 0xd800) << 10) + (lo - 0xdc00)` */
  function CombineSurrogates(hi: nat, lo: nat): (cp: nat)
    requires 0xD800 <= hi < 0xDC00 && 0xDC00 <= lo < 0xE000
    ensures 0x1_0000 <= cp < 0x11_0000
  {
    0x1_0000 + (hi - 0xD800) * 1024 + (lo - 0xDC00)
  }

  /** The pair a supplementary code point is written as in JSON. */
  function SplitSurrogates(cp: nat): (pair: (nat, nat))
    requires 0x1_0000 <= cp < 0x11_0000
    ensures 0xD800 <= pair.0 < 0xDC00 && 0xDC00 <= pair.1 < 0xE000
  {
    (0xD800 + (cp - 0x1_0000) / 1024, 0xDC00 + (cp - 0x1_0000) % 1024)
  }

  /** Combining is a bijection between surrogate pairs and U+10000..U+10FFFF. */
  lemma SurrogatesRoundTrip(cp: nat, hi: nat, lo: nat)
    requires 0x1_0000 <= cp < 0x11_0000
    requires 0xD800 <= hi < 0xDC00 && 0xDC00 <= lo < 0xE000
    ensures CombineSurrogates(SplitSurrogates(cp).0, SplitSurrogates(cp).1) == cp
    ensures SplitSurrogates(CombineSurrogates(hi, lo)) == (hi, lo)
  {
    var c := CombineSurrogates(hi, lo) - 0x1_0000;
    assert c == (hi - 0xD800) * 1024 + (lo - 0xDC00);
    assert c / 1024 == hi - 0xD800 && c % 1024 == lo - 0xDC00;
  }

  // -----------------------------------------------------------------------
  // unescape_string
  // -----------------------------------------------------------------------

  const U_LETTER: Byte := 'u' as int

  /**
   * Four hexadecimal digits from `i` on, combined most significant first;
   * None when any of them is not a digit.  `HexQuadBits` shows the sum is
   * the source's `h1<<12 | h2<<8 | h3<<4 | h4`.
   */
  function HexQuad(t: seq<Byte>, i: nat): (r: Option<nat>)
    ensures r.Some? ==> i + 4 <= |t| && r.value < 0x1_0000
  {
    var h1, h2, h3, h4 := HexVal(At(t, i)), HexVal(At(t, i + 1)), HexVal(At(t, i + 2)), HexVal(At(t, i + 3));
    if h1 < 0 || h2 < 0 || h3 < 0 || h4 < 0 then None
    else Some(h1 * 4096 + h2 * 256 + h3 * 16 + h4)
  }

  /** Shifting and or-ing four hexadecimal digits into 16 bits is the same as summing them. */
  lemma HexQuadBits(h1: bv16, h2: bv16, h3: bv16, h4: bv16)
    requires h1 < 16 && h2 < 16 && h3 < 16 && h4 < 16
    ensures ((h1 << 12) | (h2 << 8) | (h3 << 4) | h4) == h1 * 4096 + h2 * 256 + h3 * 16 + h4
  {
  }

  /**
   * The code point written by the `\u` escape whose `u` is at index `u`, and
   * the index after the escape.  A high surrogate must be followed at once by
   * `\u` and a low surrogate, and the pair is combined.  The surrogate tests
   * are the ranges `SurrogateRanges` equates with the source's masks.
   */
  function UnicodeEscape(t: seq<Byte>, u: nat): (r: Option<(nat, nat)>)
    ensures r.Some? ==> r.value.0 < 0x11_0000 && r.value.1 <= |t|
    ensures r.Some? ==> (r.value.0 < 0x1_0000 && r.value.1 == u + 5) || r.value.1 == u + 11
  {
    match HexQuad(t, u + 1)
    case None => None
    case Some(cp) =>
      if 0xD800 <= cp < 0xDC00 then
        if At(t, u + 5) != BACKSLASH || At(t, u + 6) != U_LETTER then None
        else
          match HexQuad(t, u + 7)
          case None => None
          case Some(cp2) =>
            if !(0xDC00 <= cp2 < 0xE000) then None
            else Some((CombineSurrogates(cp, cp2), u + 11))
      else Some((cp, u + 5))
  }

  /** The UTF-8 bytes of the `\u` escape whose `u` is at `u`, and the index after it. */
  function UnicodeBytes(t: seq<Byte>, u: nat): (r: Option<(seq<Byte>, nat)>)
    ensures r.Some? ==> 1 <= |r.value.0| < r.value.1 - u && r.value.1 <= |t|
  {
    match UnicodeEscape(t, u)
    case None => None
    case Some((cp, next)) =>
      match UnicodeToUtf8(cp)
      case None => None
      case Some(bs) => Some((bs, next))
  }

  /** The byte a one-letter escape `\e` stands for, if `e` is one of them. */
  function SimpleEscape(e: Byte): (r: Option<Byte>)
  {
    if e == BACKSLASH || e == SLASH || e == QUOTE then Some(e)
    else if e == 'b' as int then Some(0x08)
    else if e == 'f' as int then Some(0x0C)
    else if e == 'n' as int then Some(0x0A)
    else if e == 'r' as int then Some(0x0D)
    else if e == 't' as int then Some(0x09)
    else None
  }

  /** The bytes a string body decodes to, and the index just after its closing quote. */
  datatype Unescaped = Unescaped(out: seq<Byte>, end: nat)

  function Prepend(bs: seq<Byte>, r: Option<Unescaped>): Option<Unescaped>
  {
    if r.None? then None else Some(Unescaped(bs + r.value.out, r.value.end))
  }

  /**
   * One step of `unescape_string` at `p`: the terminator (an error), the
   * closing quote, or the bytes one piece of input decodes to with the index
   * after that piece.  With the UTF-8 encoder (`utf8`) a `\u` escape gives
   * the encoded code point; without one (the `0` encoder) and for any
   * escape it does not know, the backslash is kept and the next byte is read
   * as an ordinary one.
   */
  datatype Step = Stop | Close | Piece(bytes: seq<Byte>, next: nat)

  function StepAt(t: seq<Byte>, p: nat, utf8: bool): (r: Step)
    ensures r.Close? ==> p < |t| && t[p] == QUOTE
    ensures r.Piece? ==> p < r.next <= |t| && |r.bytes| >= 1
  {
    var c := At(t, p);
    if c == 0 then Stop
    else if c == QUOTE then Close
    else if c == BACKSLASH then
      var e := At(t, p + 1);
      if SimpleEscape(e).Some? then Piece([SimpleEscape(e).value], p + 2)
      else if e == U_LETTER && utf8 then
        match UnicodeBytes(t, p + 1)
        case None => Stop
        case Some((bs, next)) => Piece(bs, next)
      else Piece([BACKSLASH], p + 1)
    else Piece([c], p + 1)
  }

  /** What `unescape_string` makes of the string body starting at `p`. */
  function UnescapeFrom(t: seq<Byte>, p: nat, utf8: bool): (r: Option<Unescaped>)
    decreases |t| - p
    ensures r.Some? ==> p < r.value.end <= |t| && At(t, r.value.end - 1) == QUOTE
  {
    match StepAt(t, p, utf8)
    case Stop => None
    case Close => Some(Unescaped([], p + 1))
    case Piece(bs, q) => Prepend(bs, UnescapeFrom(t, q, utf8))
  }

  lemma PrependNothing(r: Option<Unescaped>)
    ensures Prepend([], r) == r
  {
    if r.Some? {
      assert [] + r.value.out == r.value.out;
    }
  }

  lemma PrependTwice(a: seq<Byte>, b: seq<Byte>, r: Option<Unescaped>)
    ensures Prepend(a, Prepend(b, r)) == Prepend(a + b, r)
  {
    if r.Some? {
      assert a + (b + r.value.out) == (a + b) + r.value.out;
    }
  }

  /**
   * How a writer escapes one byte of a string body so that the unescaper
   * gives it back: the quote and the backslash get a backslash, the five
   * control characters with a one-letter escape get theirs.
   */
  function EscapeByte(x: Byte): (r: seq<Byte>)
    ensures |r| == 1 || |r| == 2
    ensures |r| == 1 ==> r == [x] && x != QUOTE && x != BACKSLASH
    ensures |r| == 2 ==> r[0] == BACKSLASH && SimpleEscape(r[1]) == Some(x)
  {
    if x == QUOTE || x == BACKSLASH then [BACKSLASH, x]
    else if x == 0x08 then [BACKSLASH, 'b' as int]
    else if x == 0x0C then [BACKSLASH, 'f' as int]
    else if x == 0x0A then [BACKSLASH, 'n' as int]
    else if x == 0x0D then [BACKSLASH, 'r' as int]
    else if x == 0x09 then [BACKSLASH, 't' as int]
    else [x]
  }

  /** A string body with every byte escaped by `EscapeByte`. */
  function Escape(s: seq<Byte>): (r: seq<Byte>)
    ensures |r| >= |s|
  {
    if |s| == 0 then [] else EscapeByte(s[0]) + Escape(s[1..])
  }

  /** `t` holds the bytes `w` from index `p` on. */
  predicate Spells(t: seq<Byte>, p: nat, w: seq<Byte>)
  {
    p + |w| <= |t| && forall k {:trigger w[k]} :: 0 <= k < |w| ==> t[p + k] == w[k]
  }

  /**
   * The text holds the escaped form of `s` from `p` on, then a quote, read
   * one escaped byte at a time; no byte of `s` is NUL.
   */
  predicate EscapedAt(t: seq<Byte>, p: nat, s: seq<Byte>)
    decreases |s|
  {
    if |s| == 0 then At(t, p) == QUOTE
    else
      var e := EscapeByte(s[0]);
      s[0] != 0 && At(t, p) == e[0] && (|e| == 2 ==> At(t, p + 1) == e[1]) && EscapedAt(t, p + |e|, s[1..])
  }

  /** Spelling the escaped body and the quote is reading them byte by byte. */
  lemma {:induction false} SpellsEscapedAt(t: seq<Byte>, p: nat, s: seq<Byte>)
    requires 0 !in s && Spells(t, p, Escape(s) + [QUOTE])
    ensures EscapedAt(t, p, s)
    decreases |s|
  {
    var w := Escape(s) + [QUOTE];
    if |s| == 0 {
      assert At(t, p) == w[0];
    } else {
      var e := EscapeByte(s[0]);
      var tail := Escape(s[1..]) + [QUOTE];
      assert w == e + tail;
      SpellsSplit(t, p, e, tail);
      assert At(t, p) == e[0];
      if |e| == 2 {
        assert At(t, p + 1) == e[1];
      }
      NotInTail(0, s);
      SpellsEscapedAt(t, p + |e|, s[1..]);
    }
  }

  lemma NotInTail<T>(x: T, s: seq<T>)
    requires |s| > 0 && x !in s
    ensures s[0] != x && x !in s[1..]
  {
    assert s[0] in s;
    forall y | y in s[1..]
      ensures y in s
    {
      var k :| 0 <= k < |s[1..]| && s[1..][k] == y;
      assert s[k + 1] == y;
    }
  }

  /**
   * Escaping inverts unescaping: an escaped body of a string without NUL
   * bytes, followed by a quote, decodes to that string and ends after the
   * quote, with or without the UTF-8 encoder.
   */
  lemma UnescapeEscaped(t: seq<Byte>, p: nat, s: seq<Byte>, utf8: bool)
    requires 0 !in s && Spells(t, p, Escape(s) + [QUOTE])
    ensures UnescapeFrom(t, p, utf8) == Some(Unescaped(s, p + |Escape(s)| + 1))
  {
    SpellsEscapedAt(t, p, s);
    UnescapeEscapedAt(t, p, s, utf8);
    assert UnescapeFrom(t, p, utf8).value == Unescaped(s, p + |Escape(s)| + 1);
  }

  lemma {:induction false} UnescapeEscapedAt(t: seq<Byte>, p: nat, s: seq<Byte>, utf8: bool)
    requires EscapedAt(t, p, s)
    ensures UnescapeFrom(t, p, utf8).Some?
    ensures UnescapeFrom(t, p, utf8).value.out == s
    ensures UnescapeFrom(t, p, utf8).value.end == p + |Escape(s)| + 1
    decreases |s|
  {
    if |s| == 0 {
      UnescapeClose(t, p, utf8);
    } else {
      EscapedAtCons(t, p, s);
      var q := p + |EscapeByte(s[0])|;
      UnescapeEscapedAt(t, q, s[1..], utf8);
      UnescapeFirst(t, p, s, utf8);
      assert [s[0]] + s[1..] == s;
    }
  }

  lemma SpellsSplit(t: seq<Byte>, p: nat, a: seq<Byte>, b: seq<Byte>)
    requires Spells(t, p, a + b)
    ensures Spells(t, p, a) && Spells(t, p + |a|, b)
  {
    forall k | 0 <= k < |b|
      ensures t[p + |a| + k] == b[k]
    {
      assert t[p + (|a| + k)] == (a + b)[|a| + k];
    }
    forall k | 0 <= k < |a|
      ensures t[p + k] == a[k]
    {
      assert t[p + k] == (a + b)[k];
    }
  }

  /** One escaped byte at the front of the body goes in front of what the rest decodes to. */
  lemma UnescapeFirst(t: seq<Byte>, p: nat, s: seq<Byte>, utf8: bool)
    requires |s| != 0 && EscapedAt(t, p, s)
    ensures var r := UnescapeFrom(t, p + |EscapeByte(s[0])|, utf8);
      r.Some? ==> UnescapeFrom(t, p, utf8).Some? &&
                  UnescapeFrom(t, p, utf8).value.out == [s[0]] + r.value.out &&
                  UnescapeFrom(t, p, utf8).value.end == r.value.end
  {
    var x := s[0];
    assert x != 0 && At(t, p) == EscapeByte(x)[0];
    assert StepAt(t, p, utf8) == Piece([x], p + |EscapeByte(x)|);
  }

  lemma UnescapeClose(t: seq<Byte>, p: nat, utf8: bool)
    requires At(t, p) == QUOTE
    ensures UnescapeFrom(t, p, utf8) == Some(Unescaped([], p + 1))
  {
  }

  lemma EscapedAtCons(t: seq<Byte>, p: nat, s: seq<Byte>)
    requires |s| != 0 && EscapedAt(t, p, s)
    ensures EscapedAt(t, p + |EscapeByte(s[0])|, s[1..])
    ensures |Escape(s)| == |EscapeByte(s[0])| + |Escape(s[1..])|
  {
  }

  /** Two texts that agree from `i` on read alike from `i` on. */
  lemma AgreeFrom(t1: seq<Byte>, t2: seq<Byte>, i: nat)
    requires i <= |t1| == |t2| && t1[i..] == t2[i..]
    ensures forall j :: j >= i ==> At(t1, j) == At(t2, j)
  {
    forall j | j >= i
      ensures At(t1, j) == At(t2, j)
    {
      if j < |t1| {
        assert t1[j] == t1[i..][j - i];
      }
    }
  }

  /** Byte `i` of the buffer, the terminator past its end. */
  function Read(buf: array<Byte>, i: nat): (c: Byte)
    reads buf
    ensures c == At(buf[..], i)
  {
    if i < buf.Length then buf[i] else 0
  }

  /** Byte `i` of the buffer, which agrees with the text from `from` on. */
  method ReadAt(buf: array<Byte>, i: nat, ghost t: seq<Byte>, ghost from: nat) returns (c: Byte)
    requires from <= i && from <= buf.Length == |t| && buf[from..] == t[from..]
    ensures c == At(t, i)
  {
    AgreeFrom(buf[..], t, from);
    c := Read(buf, i);
  }

  /** `UnicodeEscape` reads nothing before `u`. */
  lemma UnicodeEscapeFrame(t1: seq<Byte>, t2: seq<Byte>, u: nat)
    requires forall j :: j >= u ==> At(t1, j) == At(t2, j)
    requires |t1| == |t2|
    ensures UnicodeEscape(t1, u) == UnicodeEscape(t2, u)
  {
    assert HexQuad(t1, u + 1) == HexQuad(t2, u + 1);
    assert HexQuad(t1, u + 7) == HexQuad(t2, u + 7);
  }

  /**
   * The `\u` branch of `unescape_string`: decode the escape whose `u` is at
   * `u` and write its UTF-8 bytes at `d`.
   */
  method WriteUnicodeEscape(buf: array<Byte>, d: nat, u: nat, ghost t: seq<Byte>)
    returns (ok: bool, d': nat, next: nat)
    requires d < u <= buf.Length == |t| && buf[u..] == t[u..]
    modifies buf
    ensures ok == UnicodeBytes(t, u).Some?
    ensures ok ==> next == UnicodeBytes(t, u).value.1 && d' == d + |UnicodeBytes(t, u).value.0| &&
                   d' < next && buf[d..d'] == UnicodeBytes(t, u).value.0
    ensures buf[..d] == old(buf[..d])
    ensures ok ==> buf[next..] == old(buf[next..])
  {
    AgreeFrom(buf[..], t, u);
    UnicodeEscapeFrame(buf[..], t, u);
    var esc := UnicodeEscape(buf[..], u);
    if esc.None? {
      return false, d, u;
    }
    var cp;
    cp, next := esc.value.0, esc.value.1;
    var bs := UnicodeToUtf8(cp);
    if bs.None? {
      return false, d, u;
    }
    forall k | 0 <= k < |bs.value| {
      buf[d + k] := bs.value[k];
    }
    d' := d + |bs.value|;
    assert buf[d..d'] == bs.value;
    ok := true;
  }

  /**
   * The loop state of `unescape_string` on the original text `t`: the bytes
   * decoded so far sit at `s..d`, the text from `p` on is untouched, and
   * decoding the rest from `p` completes the decoding from `s`.
   */
  ghost predicate Progress(buf: array<Byte>, t: seq<Byte>, s: nat, d: nat, p: nat, utf8: bool)
    reads buf
  {
    Decoding(buf[..], t, s, d, p, utf8)
  }

  ghost predicate Decoding(b: seq<Byte>, t: seq<Byte>, s: nat, d: nat, p: nat, utf8: bool)
  {
    s <= d <= p <= |b| == |t| && b[..s] == t[..s] && b[p..] == t[p..] &&
    UnescapeFrom(t, s, utf8) == Prepend(b[s..d], UnescapeFrom(t, p, utf8))
  }

  /** At the closing quote, the decoded bytes are the whole result; a NUL goes after them. */
  lemma CloseAt(b0: seq<Byte>, b1: seq<Byte>, t: seq<Byte>, s: nat, d: nat, p: nat, utf8: bool)
    requires Decoding(b0, t, s, d, p, utf8) && At(t, p) == QUOTE
    requires d < |b0| && b1 == b0[d := 0]
    ensures UnescapeFrom(t, s, utf8).Some? && UnescapeFrom(t, s, utf8).value.end == p + 1
    ensures WrittenSeq(b1, s, UnescapeFrom(t, s, utf8).value)
    ensures b1[..s] == t[..s] && b1[p + 1..] == t[p + 1..]
  {
    UnescapeClose(t, p, utf8);
    assert b0[s..d] + [] == b0[s..d];
    assert b1[s..d] == b0[s..d];
    assert b1[p + 1..] == b0[p..][1..];
    assert b1[..s] == b0[..s];
  }

  /** A step that stops at `p` makes the whole decoding fail. */
  lemma StopAt(b: seq<Byte>, t: seq<Byte>, s: nat, d: nat, p: nat, utf8: bool)
    requires Decoding(b, t, s, d, p, utf8) && StepAt(t, p, utf8) == Stop
    ensures UnescapeFrom(t, s, utf8).None? && b[..s] == t[..s]
  {
  }

  /** Writing the bytes of the piece at `p` at `d` moves the decoding on past that piece. */
  lemma Advance(b0: seq<Byte>, b1: seq<Byte>, t: seq<Byte>, s: nat, d: nat, d': nat, p: nat, q: nat, utf8: bool)
    requires Decoding(b0, t, s, d, p, utf8)
    requires StepAt(t, p, utf8).Piece? && StepAt(t, p, utf8).next == q
    requires d' == d + |StepAt(t, p, utf8).bytes| <= q
    requires |b1| == |b0| && b1[..d] == b0[..d] && b1[d..d'] == StepAt(t, p, utf8).bytes && b1[q..] == b0[q..]
    ensures Decoding(b1, t, s, d', q, utf8)
  {
    var bs := StepAt(t, p, utf8).bytes;
    assert b1[s..d'] == b0[s..d] + bs by {
      assert b1[s..d] == b0[s..d] by {
        assert b1[s..d] == b1[..d][s..] && b0[s..d] == b0[..d][s..];
      }
    }
    assert b1[..s] == b0[..s] by {
      assert b1[..s] == b1[..d][..s];
    }
    assert b1[q..] == t[q..] by {
      assert b0[q..] == b0[p..][q - p..];
    }
    PrependTwice(b0[s..d], bs, UnescapeFrom(t, q, utf8));
  }

  /** The decoded body `u.out` sits at `s`, terminated by a NUL. */
  ghost predicate Written(buf: array<Byte>, s: nat, u: Unescaped)
    reads buf
  {
    WrittenSeq(buf[..], s, u)
  }

  ghost predicate WrittenSeq(b: seq<Byte>, s: nat, u: Unescaped)
  {
    s + |u.out| < u.end <= |b| && b[s..s + |u.out|] == u.out && b[s + |u.out|] == 0
  }

  datatype Turn = Continue(d: nat, p: nat) | Finished(end: nat) | Failed

  /** One turn of the `unescape_string` loop: read the byte at `p` and act on it. */
  method UnescapeTurn(buf: array<Byte>, s: nat, d: nat, p: nat, utf8: bool, ghost t: seq<Byte>) returns (r: Turn)
    requires Progress(buf, t, s, d, p, utf8)
    modifies buf
    ensures r.Continue? ==> Progress(buf, t, s, r.d, r.p, utf8) && r.p > p
    ensures r.Finished? ==> UnescapeFrom(t, s, utf8).Some? && UnescapeFrom(t, s, utf8).value.end == r.end &&
                            Written(buf, s, UnescapeFrom(t, s, utf8).value) &&
                            buf[..s] == t[..s] && buf[r.end..] == t[r.end..]
    ensures r.Failed? ==> UnescapeFrom(t, s, utf8).None? && buf[..s] == t[..s]
  {
    var c := ReadAt(buf, p, t, p);
    if c == 0 {
      StepKinds(t, p, utf8);
      StopAt(buf[..], t, s, d, p, utf8);
      return Failed;
    }
    if c == QUOTE {
      ghost var b0 := buf[..];
      buf[d] := 0;
      CloseAt(b0, buf[..], t, s, d, p, utf8);
      return Finished(p + 1);
    }
    if c == BACKSLASH {
      r := EscapeTurn(buf, s, d, p, utf8, t);
      return;
    }
    StepKinds(t, p, utf8);
    Emit(buf, s, d, p, p + 1, c, utf8, t);
    return Continue(d + 1, p + 1);
  }

  /** The turn on a backslash at `p`: an escape sequence, or a kept backslash. */
  method EscapeTurn(buf: array<Byte>, s: nat, d: nat, p: nat, utf8: bool, ghost t: seq<Byte>) returns (r: Turn)
    requires Progress(buf, t, s, d, p, utf8) && At(t, p) == BACKSLASH
    modifies buf
    ensures r.Continue? ==> Progress(buf, t, s, r.d, r.p, utf8) && r.p > p
    ensures r.Failed? ==> UnescapeFrom(t, s, utf8).None? && buf[..s] == t[..s]
    ensures !r.Finished?
  {
    var e := ReadAt(buf, p + 1, t, p);
    var simple := SimpleEscape(e);
    StepKinds(t, p, utf8);
    if simple.Some? {
      Emit(buf, s, d, p, p + 2, simple.value, utf8, t);
      return Continue(d + 1, p + 2);
    } else if e == U_LETTER && utf8 {
      r := UnicodeTurn(buf, s, d, p, utf8, t);
      return;
    }
    Emit(buf, s, d, p, p + 1, BACKSLASH, utf8, t);
    return Continue(d + 1, p + 1);
  }

  /** The turn on `\u` with the UTF-8 encoder: write the encoded code point. */
  method UnicodeTurn(buf: array<Byte>, s: nat, d: nat, p: nat, utf8: bool, ghost t: seq<Byte>) returns (r: Turn)
    requires Progress(buf, t, s, d, p, utf8) && utf8
    requires At(t, p) == BACKSLASH && At(t, p + 1) == U_LETTER
    modifies buf
    ensures r.Continue? ==> Progress(buf, t, s, r.d, r.p, utf8) && r.p > p
    ensures r.Failed? ==> UnescapeFrom(t, s, utf8).None? && buf[..s] == t[..s]
    ensures !r.Finished?
  {
    ghost var b0 := buf[..];
    UnicodeStep(t, p, utf8);
    var ok, d', next := WriteUnicodeEscape(buf, d, p + 1, t);
    if !ok {
      StopAt(b0, t, s, d, p, utf8);
      return Failed;
    }
    Advance(b0, buf[..], t, s, d, d', p, next, utf8);
    return Continue(d', next);
  }

  /** The steps that take one input byte or one simple escape. */
  lemma StepKinds(t: seq<Byte>, p: nat, utf8: bool)
    ensures At(t, p) == 0 ==> StepAt(t, p, utf8) == Stop
    ensures At(t, p) !in {0, QUOTE, BACKSLASH} ==> StepAt(t, p, utf8) == Piece([At(t, p)], p + 1)
    ensures At(t, p) == BACKSLASH && SimpleEscape(At(t, p + 1)).Some? ==>
      StepAt(t, p, utf8) == Piece([SimpleEscape(At(t, p + 1)).value], p + 2)
    ensures At(t, p) == BACKSLASH && SimpleEscape(At(t, p + 1)).None? && !(At(t, p + 1) == U_LETTER && utf8) ==>
      StepAt(t, p, utf8) == Piece([BACKSLASH], p + 1)
  {
  }

  /** How `UnescapeFrom` continues after `\u` with the UTF-8 encoder. */
  lemma UnicodeStep(t: seq<Byte>, p: nat, utf8: bool)
    requires utf8 && At(t, p) == BACKSLASH && At(t, p + 1) == U_LETTER
    ensures UnicodeBytes(t, p + 1).None? ==> StepAt(t, p, utf8) == Stop
    ensures UnicodeBytes(t, p + 1).Some? ==>
      StepAt(t, p, utf8) == Piece(UnicodeBytes(t, p + 1).value.0, UnicodeBytes(t, p + 1).value.1)
  {
  }

  /** Store one decoded byte `x` for the input `p..q`. */
  method Emit(buf: array<Byte>, s: nat, d: nat, p: nat, q: nat, x: Byte, utf8: bool, ghost t: seq<Byte>)
    requires Progress(buf, t, s, d, p, utf8)
    requires StepAt(t, p, utf8) == Piece([x], q)
    modifies buf
    ensures Progress(buf, t, s, d + 1, q, utf8)
  {
    ghost var b0 := buf[..];
    buf[d] := x;
    assert buf[d..d + 1] == [x];
    Advance(b0, buf[..], t, s, d, d + 1, p, q, utf8);
  }

  /**
   * `unescape_string`: decode the string body at `s` in place.  On success
   * the decoded bytes sit at `s`, followed by a terminator, and `end` is the
   * index after the closing quote; nothing before `s` or from `end` on
   * changes.
   */
  method UnescapeString(buf: array<Byte>, s: nat, utf8: bool) returns (ok: bool, end: nat)
    modifies buf
    ensures ok == UnescapeFrom(old(buf[..]), s, utf8).Some?
    ensures ok ==> end == UnescapeFrom(old(buf[..]), s, utf8).value.end &&
                   Written(buf, s, UnescapeFrom(old(buf[..]), s, utf8).value) &&
                   buf[end..] == old(buf[end..])
    ensures s <= buf.Length ==> buf[..s] == old(buf[..s])
  {
    ghost var t := buf[..];
    if s >= buf.Length {
      return false, 0;
    }
    var p, d := s, s;
    PrependNothing(UnescapeFrom(t, s, utf8));
    assert buf[s..d] == [];
    while true
      invariant Progress(buf, t, s, d, p, utf8)
      decreases buf.Length - p
    {
      var r := UnescapeTurn(buf, s, d, p, utf8, t);
      match r
      case Failed => return false, 0;
      case Finished(e) => return true, e;
      case Continue(d', p') => d, p := d', p';
    }
  }
}
