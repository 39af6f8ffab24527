/**
 * NOLO tracker reports: every 64-byte HID report is XXTEA-encrypted from
 * byte 1 to byte 60 (fifteen little-endian words), with one round more than
 * 52/n and a fixed key; the decrypted report carries controller and headset
 * marker records that start with the version bytes 2, 1.
 *
 * Words are naturals below 2^32 and all word arithmetic wraps explicitly.
 * The cipher is specified round by round on sequences; encryption, which
 * the driver never performs, is the reference definition decryption is
 * proved to invert.
 */
module NoloPacket {
  import opened Bytes
  import opened Arith
  import opened Bits

  type Word = x: int | 0 <= x < TWO_32

  const DELTA: Word := 0x9e37_79b9
  /** (64 - 4) / 4 words from byte 1 onwards are encrypted. */
  const CRYPT_WORDS: nat := 15
  const CRYPT_OFFSET: nat := 1
  const CRYPT_END: nat := 61
  const KEY: seq<Word> := [0x875b_cc51, 0xa763_7a66, 0x5096_0967, 0xf853_6c51]

  // ---------------------------------------------------------------------
  // 32-bit word arithmetic
  // ---------------------------------------------------------------------

  function Add32(a: Word, b: Word): Word
  {
    (a + b) % TWO_32
  }

  function Sub32(a: Word, b: Word): Word
  {
    (a - b) % TWO_32
  }

  /** Subtracting what was added gives the word back, wrap-around included. */
  lemma SubAdd(a: Word, b: Word)
    ensures Sub32(Add32(a, b), b) == a
  {
    if a + b < TWO_32 {
      DivModUnique(a + b, TWO_32, 0, a + b);
    } else {
      DivModUnique(a + b, TWO_32, 1, a + b - TWO_32);
      DivModUnique(a - TWO_32, TWO_32, -1, a);
    }
  }

  function XorW(a: Word, b: Word): Word
  {
    Pow2Values();
    XorBelow(a, b, 32);
    Xor(a, b)
  }

  // ---------------------------------------------------------------------
  // The XXTEA mix
  // ---------------------------------------------------------------------

  /** `e = (sum >> 2) & 3`. */
  function E(sum: Word): (r: nat)
    ensures r < 4
  {
    (sum / 4) % 4
  }

  /** `(p & 3) ^ e`, the key word a step uses. */
  function KeyIndex(p: nat, e: nat): (r: nat)
    requires e < 4
    ensures r < 4
  {
    Pow2Values();
    XorBelow(p % 4, e, 2);
    Xor(p % 4, e)
  }

  /** `MX`: `((z>>5 ^ y<<2) + (y>>3 ^ z<<4)) ^ ((sum^y) + (key[(p&3)^e] ^ z))` on 32-bit words. */
  function Mx(y: Word, z: Word, sum: Word, p: nat, e: nat, key: seq<Word>): Word
    requires |key| == 4 && e < 4
  {
    XorW(Add32(XorW(z / 32, (y * 4) % TWO_32), XorW(y / 8, (z * 16) % TWO_32)),
         Add32(XorW(sum, y), XorW(key[KeyIndex(p, e)], z)))
  }

  /** The word after `p`, cyclically. */
  function Right(n: nat, p: nat): (r: nat)
    requires p < n
    ensures r < n
  {
    if p + 1 == n then 0 else p + 1
  }

  /** The word before `p`, cyclically. */
  function Left(n: nat, p: nat): (r: nat)
    requires p < n
    ensures r < n
  {
    if p == 0 then n - 1 else p - 1
  }

  // ---------------------------------------------------------------------
  // Decryption, as btea_decrypt performs it
  // ---------------------------------------------------------------------

  /** One decryption step: word `p` loses the mix of its current neighbours. */
  function DecStep(w: seq<Word>, p: nat, sum: Word, key: seq<Word>): (r: seq<Word>)
    requires p < |w| && |key| == 4
    ensures |r| == |w|
  {
    var n := |w|;
    w[p := Sub32(w[p], Mx(w[Right(n, p)], w[Left(n, p)], sum, p, E(sum), key))]
  }

  /** Decryption steps `p`, `p - 1`, ..., `0`, in that order. */
  function DecFrom(w: seq<Word>, p: nat, sum: Word, key: seq<Word>): (r: seq<Word>)
    requires p < |w| && |key| == 4
    ensures |r| == |w|
    decreases p
  {
    var w' := DecStep(w, p, sum, key);
    if p == 0 then w' else DecFrom(w', p - 1, sum, key)
  }

  /** One decryption round runs from the last word down to the first. */
  function DecRound(w: seq<Word>, sum: Word, key: seq<Word>): (r: seq<Word>)
    requires |w| >= 1 && |key| == 4
    ensures |r| == |w|
  {
    DecFrom(w, |w| - 1, sum, key)
  }

  /** `rounds` decryption rounds, the first with `sum`, each next one with `DELTA` less. */
  function DecRounds(w: seq<Word>, sum: Word, rounds: nat, key: seq<Word>): (r: seq<Word>)
    requires |w| >= 1 && |key| == 4
    ensures |r| == |w|
    decreases rounds
  {
    if rounds == 0 then w
    else DecRounds(DecRound(w, sum, key), Sub32(sum, DELTA), rounds - 1, key)
  }

  /**
   * The number of rounds: `base_rounds + 52/n` as an unsigned 32-bit count;
   * the do-while loop decrements before testing, so a count of 0 runs 2^32 times.
   */
  function RoundCount(n: nat, baseRounds: nat): (r: nat)
    requires n >= 1
    ensures 1 <= r <= TWO_32 && r % TWO_32 == (baseRounds + 52 / n) % TWO_32
  {
    var c := (baseRounds + 52 / n) % TWO_32;
    if c == 0 then TWO_32 else c
  }

  /** XXTEA decryption of the words `v`. */
  function BteaDecrypt(v: seq<Word>, baseRounds: nat, key: seq<Word>): (r: seq<Word>)
    requires |v| >= 1 && |key| == 4
    ensures |r| == |v|
  {
    var rounds := RoundCount(|v|, baseRounds);
    DecRounds(v, (rounds * DELTA) % TWO_32, rounds, key)
  }

  // ---------------------------------------------------------------------
  // Encryption, the reference definition
  // ---------------------------------------------------------------------

  /** One encryption step: word `p` gains the mix of its current neighbours. */
  function EncStep(w: seq<Word>, p: nat, sum: Word, key: seq<Word>): (r: seq<Word>)
    requires p < |w| && |key| == 4
    ensures |r| == |w|
  {
    var n := |w|;
    w[p := Add32(w[p], Mx(w[Right(n, p)], w[Left(n, p)], sum, p, E(sum), key))]
  }

  /** Encryption steps `0`, ..., `k - 1`, in that order. */
  function EncUpTo(w: seq<Word>, k: nat, sum: Word, key: seq<Word>): (r: seq<Word>)
    requires k <= |w| && |key| == 4
    ensures |r| == |w|
    decreases k
  {
    if k == 0 then w else EncStep(EncUpTo(w, k - 1, sum, key), k - 1, sum, key)
  }

  /** Round `r` of encryption uses `sum = r * DELTA`. */
  function EncRounds(w: seq<Word>, rounds: nat, key: seq<Word>): (r: seq<Word>)
    requires |key| == 4
    ensures |r| == |w|
    decreases rounds
  {
    if rounds == 0 then w
    else EncUpTo(EncRounds(w, rounds - 1, key), |w|, (rounds * DELTA) % TWO_32, key)
  }

  function BteaEncrypt(v: seq<Word>, baseRounds: nat, key: seq<Word>): (r: seq<Word>)
    requires |v| >= 1 && |key| == 4
    ensures |r| == |v|
  {
    EncRounds(v, RoundCount(|v|, baseRounds), key)
  }

  // ---------------------------------------------------------------------
  // Decryption inverts encryption
  // ---------------------------------------------------------------------

  /** With two words or more, a step leaves both neighbours of `p` alone, so its mix can be recomputed. */
  lemma StepInverse(w: seq<Word>, p: nat, sum: Word, key: seq<Word>)
    requires 2 <= |w| && p < |w| && |key| == 4
    ensures DecStep(EncStep(w, p, sum, key), p, sum, key) == w
  {
    var n := |w|;
    var u := EncStep(w, p, sum, key);
    assert u[Right(n, p)] == w[Right(n, p)] && u[Left(n, p)] == w[Left(n, p)];
    SubAdd(w[p], Mx(w[Right(n, p)], w[Left(n, p)], sum, p, E(sum), key));
  }

  lemma {:induction false} RoundPrefixInverse(w: seq<Word>, k: nat, sum: Word, key: seq<Word>)
    requires 2 <= |w| && k < |w| && |key| == 4
    ensures DecFrom(EncUpTo(w, k + 1, sum, key), k, sum, key) == w
    decreases k
  {
    var u := EncUpTo(w, k, sum, key);
    StepInverse(u, k, sum, key);
    if k > 0 {
      RoundPrefixInverse(w, k - 1, sum, key);
    }
  }

  lemma RoundInverse(w: seq<Word>, sum: Word, key: seq<Word>)
    requires 2 <= |w| && |key| == 4
    ensures DecRound(EncUpTo(w, |w|, sum, key), sum, key) == w
  {
    RoundPrefixInverse(w, |w| - 1, sum, key);
  }

  /** Round `r` of decryption, counted from the last, uses the sum of round `r` of encryption. */
  lemma SumBefore(rounds: nat)
    requires rounds >= 1
    ensures Sub32((rounds * DELTA) % TWO_32, DELTA) == ((rounds - 1) * DELTA) % TWO_32
  {
    var d: int := DELTA;
    ModAdd(rounds * DELTA, -d, TWO_32);
    assert rounds * DELTA - DELTA == (rounds - 1) * DELTA;
  }

  lemma {:induction false} RoundsInverse(v: seq<Word>, rounds: nat, key: seq<Word>)
    requires 2 <= |v| && |key| == 4
    ensures DecRounds(EncRounds(v, rounds, key), (rounds * DELTA) % TWO_32, rounds, key) == v
    decreases rounds
  {
    if rounds > 0 {
      var s := (rounds * DELTA) % TWO_32;
      var u := EncRounds(v, rounds - 1, key);
      RoundInverse(u, s, key);
      SumBefore(rounds);
      RoundsInverse(v, rounds - 1, key);
    }
  }

  /** For blocks of two words or more, btea_decrypt undoes XXTEA encryption with the same rounds and key. */
  lemma DecryptInvertsEncrypt(v: seq<Word>, baseRounds: nat, key: seq<Word>)
    requires |v| >= 2 && |key| == 4
    ensures BteaDecrypt(BteaEncrypt(v, baseRounds, key), baseRounds, key) == v
  {
    RoundsInverse(v, RoundCount(|v|, baseRounds), key);
  }

  // ---------------------------------------------------------------------
  // btea_decrypt
  // ---------------------------------------------------------------------

  /**
   * `btea_decrypt(v, n, base_rounds, key)` with `n` the length of `v`: the
   * nested loops carry `y` (the word just decrypted) and `z` (the word before
   * the current one) as the C code does.
   */
  method BteaDecryptWords(v: array<Word>, baseRounds: nat, key: seq<Word>)
    requires v.Length >= 1 && |key| == 4
    modifies v
    ensures v[..] == BteaDecrypt(old(v[..]), baseRounds, key)
  {
    var n := v.Length;
    var count := (baseRounds + 52 / n) % TWO_32;
    var sum: Word := (count * DELTA) % TWO_32;
    var rounds: nat := if count == 0 then TWO_32 else count;
    StartSum(count);
    assert rounds == RoundCount(n, baseRounds);
    DecryptRounds(v, sum, rounds, key);
  }

  /** The do-while loop: `rounds` rounds, `sum` dropping by `DELTA` after each, `y` carried across. */
  method DecryptRounds(v: array<Word>, sum0: Word, rounds0: nat, key: seq<Word>)
    requires v.Length >= 1 && |key| == 4
    modifies v
    ensures v[..] == DecRounds(old(v[..]), sum0, rounds0, key)
  {
    ghost var target := DecRounds(v[..], sum0, rounds0, key);
    var sum, rounds := sum0, rounds0;
    var y := v[0];
    while rounds > 0
      invariant Reaches(v[..], sum, rounds, key, target)
      invariant y == v[0]
      decreases rounds
    {
      ghost var before := v[..];
      y := DecryptRound(v, sum, y, key);
      RoundsStep(before, v[..], sum, rounds, key, target);
      sum, rounds := Sub32(sum, DELTA), rounds - 1;
    }
  }

  /** `rounds` more rounds from `w` end in `target`. */
  predicate Reaches(w: seq<Word>, sum: Word, rounds: nat, key: seq<Word>, target: seq<Word>)
  {
    |w| >= 1 && |key| == 4 && DecRounds(w, sum, rounds, key) == target
  }

  lemma RoundsStep(w: seq<Word>, u: seq<Word>, sum: Word, rounds: nat, key: seq<Word>, target: seq<Word>)
    requires Reaches(w, sum, rounds, key, target) && rounds >= 1 && u == DecRound(w, sum, key)
    ensures Reaches(u, Sub32(sum, DELTA), rounds - 1, key, target)
  {
  }

  /** `sum = rounds * DELTA` taken on the 32-bit count agrees with the number of rounds run. */
  lemma StartSum(count: nat)
    ensures (count * DELTA) % TWO_32 == ((if count == 0 then TWO_32 else count) * DELTA) % TWO_32
  {
    if count == 0 {
      MultipleMod(DELTA, TWO_32);
      assert TWO_32 * DELTA == DELTA * TWO_32;
    }
  }

  /** One pass of the do-while body: `p` runs from `n - 1` down to 1, then word 0 is done. */
  method DecryptRound(v: array<Word>, sum: Word, y0: Word, key: seq<Word>) returns (y: Word)
    requires v.Length >= 1 && |key| == 4 && y0 == v[0]
    modifies v
    ensures v[..] == DecRound(old(v[..]), sum, key) && y == v[0]
  {
    var n := v.Length;
    var e := (sum / 4) % 4;
    ghost var w := v[..];
    y := y0;
    var p: nat := n - 1;
    while p > 0
      invariant p < n
      invariant DecFrom(v[..], p, sum, key) == DecRound(w, sum, key)
      invariant y == v[Right(n, p)]
      decreases p
    {
      ghost var before := v[..];
      var z := v[p - 1];
      v[p] := Sub32(v[p], Mx(y, z, sum, p, e, key));
      assert v[..] == DecStep(before, p, sum, key);
      y := v[p];
      p := p - 1;
    }
    ghost var before := v[..];
    var z := v[n - 1];
    v[0] := Sub32(v[0], Mx(y, z, sum, 0, e, key));
    assert v[..] == DecStep(before, 0, sum, key);
    y := v[0];
  }

  // ---------------------------------------------------------------------
  // Packing bytes into words and back
  // ---------------------------------------------------------------------

  /** The little-endian words of `b`. */
  function Words(b: seq<Byte>): (r: seq<Word>)
    requires |b| % 4 == 0
    ensures |r| == |b| / 4
    ensures forall i :: 0 <= i < |r| ==> r[i] == U32(b, 4 * i)
    decreases |b|
  {
    if |b| == 0 then []
    else
      var r := [U32(b, 0)] + Words(b[4..]);
      assert forall i :: 1 <= i < |r| ==> U32(b[4..], 4 * (i - 1)) == U32(b, 4 * i);
      r
  }

  /** `w >> 0`, `w >> 8`, `w >> 16`, `w >> 24`, each truncated to a byte. */
  function WordBytes(w: Word): (r: seq<Byte>)
    ensures |r| == 4
  {
    [w % 256, (w / 256) % 256, (w / 65536) % 256, (w / 16777216) % 256]
  }

  lemma WordBytesRoundTrip(w: Word)
    ensures U32(WordBytes(w), 0) == w
  {
    var r := WordBytes(w);
    DivModUnique(w, 256, w / 256, w % 256);
    DivModUnique(w / 256, 256, w / 65536, r[1]);
    DivModUnique(w / 65536, 256, w / 16777216, r[2]);
  }

  lemma BytesWordRoundTrip(b: seq<Byte>, i: nat)
    requires i + 4 <= |b|
    ensures WordBytes(U32(b, i)) == b[i..i + 4]
  {
    var w := U32(b, i);
    var b0: nat, b1: nat, b2: nat, b3: nat := b[i], b[i + 1], b[i + 2], b[i + 3];
    assert w == b0 + 256 * (b1 + 256 * (b2 + 256 * b3));
    DivModUnique(w, 256, b1 + 256 * (b2 + 256 * b3), b0);
    DivModUnique(w / 256, 256, b2 + 256 * b3, b1);
    DivModUnique(w / 65536, 256, b3, b2);
    DivModUnique(w, 65536, b2 + 256 * b3, b0 + 256 * b1);
    DivModUnique(w, 16777216, b3, b0 + 256 * b1 + 65536 * b2);
    DivModUnique(b3, 256, 0, b3);
  }

  /** The bytes of the words, in order. */
  function Unpack(ws: seq<Word>): (r: seq<Byte>)
    ensures |r| == 4 * |ws|
    ensures forall i :: 0 <= i < |ws| ==> r[4 * i..4 * i + 4] == WordBytes(ws[i])
  {
    if |ws| == 0 then []
    else
      var r := WordBytes(ws[0]) + Unpack(ws[1..]);
      assert forall i :: 1 <= i < |ws| ==> r[4 * i..4 * i + 4] == Unpack(ws[1..])[4 * (i - 1)..4 * (i - 1) + 4];
      r
  }

  lemma {:induction false} UnpackWords(b: seq<Byte>)
    requires |b| % 4 == 0
    ensures Unpack(Words(b)) == b
    decreases |b|
  {
    if |b| > 0 {
      UnpackWords(b[4..]);
      BytesWordRoundTrip(b, 0);
      assert b == b[0..4] + b[4..];
    }
  }

  lemma {:induction false} WordsUnpack(ws: seq<Word>)
    ensures Words(Unpack(ws)) == ws
    decreases |ws|
  {
    if |ws| > 0 {
      var b := Unpack(ws);
      var rest := ws[1..];
      UnpackFirst(ws);
      WordsUnpack(rest);
      ConsEq(Words(b), ws[0], rest, ws);
    }
  }

  lemma ConsEq<T>(x: seq<T>, h: T, r: seq<T>, y: seq<T>)
    requires x == [h] + r && |y| > 0 && y[0] == h && y[1..] == r
    ensures x == y
  {
    assert y == [y[0]] + y[1..];
  }

  /** The first word of an unpacking reads back, and the rest is the unpacking of the rest. */
  lemma UnpackFirst(ws: seq<Word>)
    requires |ws| > 0
    ensures |Unpack(ws)| % 4 == 0 && Unpack(ws)[4..] == Unpack(ws[1..]) && U32(Unpack(ws), 0) == ws[0]
  {
    var b := Unpack(ws);
    var t := Unpack(ws[1..]);
    DivModUnique(|b|, 4, |ws|, 0);
    assert b == WordBytes(ws[0]) + t;
    assert b[4..] == t;
    WordBytesRoundTrip(ws[0]);
    U32OfSlice(b, 0, WordBytes(ws[0]));
  }

  lemma U32OfSlice(b: seq<Byte>, at: nat, q: seq<Byte>)
    requires at + 4 <= |b| && b[at..at + 4] == q
    ensures U32(b, at) == U32(q, 0)
  {
    assert b[at] == q[0] && b[at + 1] == q[1] && b[at + 2] == q[2] && b[at + 3] == q[3];
  }

  // ---------------------------------------------------------------------
  // nolo_decrypt_data
  // ---------------------------------------------------------------------

  /** The decrypted report: byte 0 and bytes 61.. are kept, the fifteen words between are decrypted. */
  function NoloDecrypt(buf: seq<Byte>): (r: seq<Byte>)
    requires |buf| >= CRYPT_END
    ensures |r| == |buf| && r[0] == buf[0] && r[CRYPT_END..] == buf[CRYPT_END..]
  {
    buf[..CRYPT_OFFSET] + Unpack(BteaDecrypt(Words(buf[CRYPT_OFFSET..CRYPT_END]), 1, KEY)) + buf[CRYPT_END..]
  }

  /** What the tracker sends: the same framing around the encrypted words. */
  function NoloEncrypt(buf: seq<Byte>): (r: seq<Byte>)
    requires |buf| >= CRYPT_END
    ensures |r| == |buf|
  {
    buf[..CRYPT_OFFSET] + Unpack(BteaEncrypt(Words(buf[CRYPT_OFFSET..CRYPT_END]), 1, KEY)) + buf[CRYPT_END..]
  }

  /** With the cipher taken out, unpacking and repacking give the report back. */
  lemma RepackIdentity(buf: seq<Byte>)
    requires |buf| >= CRYPT_END
    ensures buf[..CRYPT_OFFSET] + Unpack(Words(buf[CRYPT_OFFSET..CRYPT_END])) + buf[CRYPT_END..] == buf
  {
    UnpackWords(buf[CRYPT_OFFSET..CRYPT_END]);
  }

  /** Decrypting an encrypted report restores every byte. */
  lemma NoloRoundTrip(buf: seq<Byte>)
    requires |buf| >= CRYPT_END
    ensures NoloDecrypt(NoloEncrypt(buf)) == buf
  {
    var ws := Words(buf[CRYPT_OFFSET..CRYPT_END]);
    var cw := BteaEncrypt(ws, 1, KEY);
    var c := NoloEncrypt(buf);
    FrameParts(buf, Unpack(cw));
    WordsUnpack(cw);
    DecryptInvertsEncrypt(ws, 1, KEY);
    UnpackWords(buf[CRYPT_OFFSET..CRYPT_END]);
    FrameWhole(buf);
  }

  /** The three parts of a report framed around new middle bytes. */
  lemma FrameParts(buf: seq<Byte>, mid: seq<Byte>)
    requires |buf| >= CRYPT_END && |mid| == CRYPT_END - CRYPT_OFFSET
    ensures var f := buf[..CRYPT_OFFSET] + mid + buf[CRYPT_END..];
      f[..CRYPT_OFFSET] == buf[..CRYPT_OFFSET] && f[CRYPT_OFFSET..CRYPT_END] == mid && f[CRYPT_END..] == buf[CRYPT_END..]
  {
  }

  lemma FrameWhole(buf: seq<Byte>)
    requires |buf| >= CRYPT_END
    ensures buf[..CRYPT_OFFSET] + buf[CRYPT_OFFSET..CRYPT_END] + buf[CRYPT_END..] == buf
  {
  }

  /** `nolo_decrypt_data(buf)` on a report of at least 61 bytes. */
  method NoloDecryptData(buf: array<Byte>)
    requires buf.Length >= CRYPT_END
    modifies buf
    ensures buf[..] == NoloDecrypt(old(buf[..]))
  {
    var cryptpart := ReadWords(buf);
    BteaDecryptWords(cryptpart, 1, KEY);
    WriteWords(buf, cryptpart[..]);
  }

  /** The first loop: fifteen little-endian words from byte 1. */
  method ReadWords(buf: array<Byte>) returns (cryptpart: array<Word>)
    requires buf.Length >= CRYPT_END
    ensures fresh(cryptpart) && cryptpart[..] == Words(buf[CRYPT_OFFSET..CRYPT_END])
  {
    cryptpart := new Word[CRYPT_WORDS](_ => 0);
    for i := 0 to CRYPT_WORDS
      invariant forall j :: 0 <= j < i ==> cryptpart[j] == U32(buf[..], CRYPT_OFFSET + 4 * j)
    {
      var b0: nat, b1: nat, b2: nat, b3: nat := buf[CRYPT_OFFSET + 4 * i], buf[CRYPT_OFFSET + 4 * i + 1],
        buf[CRYPT_OFFSET + 4 * i + 2], buf[CRYPT_OFFSET + 4 * i + 3];
      cryptpart[i] := b0 + 256 * b1 + 65536 * b2 + 16777216 * b3;
    }
    ghost var b := buf[..];
    forall j | 0 <= j < CRYPT_WORDS
      ensures U32(b, CRYPT_OFFSET + 4 * j) == U32(b[CRYPT_OFFSET..CRYPT_END], 4 * j)
    {
    }
  }

  /** The second loop: each word back into its four bytes from byte 1. */
  method WriteWords(buf: array<Byte>, ws: seq<Word>)
    requires buf.Length >= CRYPT_END && |ws| == CRYPT_WORDS
    modifies buf
    ensures buf[..] == old(buf[..CRYPT_OFFSET]) + Unpack(ws) + old(buf[CRYPT_END..])
  {
    ghost var plain := Unpack(ws);
    for i := 0 to CRYPT_WORDS
      invariant forall j :: 0 <= j < buf.Length && !(CRYPT_OFFSET <= j < CRYPT_OFFSET + 4 * i) ==> buf[j] == old(buf[j])
      invariant forall j :: 0 <= j < 4 * i ==> buf[CRYPT_OFFSET + j] == plain[j]
    {
      ghost var wb := plain[4 * i..4 * i + 4];
      assert wb == WordBytes(ws[i]);
      assert forall j :: 4 * i <= j < 4 * i + 4 ==> plain[j] == wb[j - 4 * i];
      PutWord(buf, CRYPT_OFFSET + 4 * i, ws[i]);
    }
  }

  /** Four little-endian bytes of `w` at `at`. */
  method PutWord(buf: array<Byte>, at: nat, w: Word)
    requires at + 4 <= buf.Length
    modifies buf
    ensures forall k :: 0 <= k < buf.Length && !(at <= k < at + 4) ==> buf[k] == old(buf[k])
    ensures forall k :: at <= k < at + 4 ==> buf[k] == WordBytes(w)[k - at]
  {
    buf[at] := w % 256;
    buf[at + 1] := (w / 256) % 256;
    buf[at + 2] := (w / 65536) % 256;
    buf[at + 3] := (w / 16777216) % 256;
  }

  // ---------------------------------------------------------------------
  // Decoders behind the version guard
  // ---------------------------------------------------------------------

  /** Raw fixed-point position: x and y signed, z unsigned, all big-endian (scale 0.0001). */
  datatype Position = Position(x: int, y: int, z: int)

  /** Raw fixed-point orientation after the reorder to OpenHMD axes (scale 1/16384). */
  datatype Orientation = Orientation(w: int, x: int, y: int, z: int)

  datatype ControllerSample = ControllerSample(position: Position, orientation: Orientation, buttons: Byte)

  /** Every record decoder starts with this test: version 2.1. */
  predicate VersionOk(data: seq<Byte>)
    requires |data| >= 2
  {
    data[0] == 2 && data[1] == 1
  }

  function I16Be(data: seq<Byte>, at: nat): (r: int)
    requires at + 2 <= |data|
    ensures -0x8000 <= r < 0x8000
  {
    ToInt16(U16Be(data, at))
  }

  /** `nolo_decode_position` on the six bytes at `at`: x and y as signed, z as unsigned big-endian words. */
  function DecodePosition(data: seq<Byte>, at: nat): (r: Position)
    requires at + 6 <= |data|
    ensures InPositionRange(r)
    ensures r.x == I16Be(data, at) && r.y == I16Be(data, at + 2) && r.z == U16Be(data, at + 4)
  {
    Position(I16Be(data, at), I16Be(data, at + 2), U16Be(data, at + 4))
  }

  /** `nolo_decode_orientation` on the eight bytes at `at`: (w, i, j, k) becomes (w, i, k, -j). */
  function DecodeOrientation(data: seq<Byte>, at: nat): (r: Orientation)
    requires at + 8 <= |data|
    ensures r.w == I16Be(data, at) && r.x == I16Be(data, at + 2)
    ensures r.y == I16Be(data, at + 6) && r.z == -I16Be(data, at + 4)
  {
    var w, i, j, k := I16Be(data, at), I16Be(data, at + 2), I16Be(data, at + 4), I16Be(data, at + 6);
    Orientation(w, i, k, -j)
  }

  /** The big-endian 16-bit encoding of a signed value, the inverse of `I16Be`. */
  function BeI16(v: int): (r: seq<Byte>)
    requires -0x8000 <= v < 0x8000
    ensures |r| == 2
  {
    Be16(if v < 0 then v + TWO_16 else v)
  }

  lemma BeI16RoundTrip(v: int)
    requires -0x8000 <= v < 0x8000
    ensures I16Be(BeI16(v), 0) == v
  {
  }

  predicate InPositionRange(p: Position)
  {
    -0x8000 <= p.x < 0x8000 && -0x8000 <= p.y < 0x8000 && 0 <= p.z < TWO_16
  }

  /** Position bytes the tracker would send for a given raw position. */
  function PositionBytes(p: Position): (r: seq<Byte>)
    requires InPositionRange(p)
    ensures |r| == 6
  {
    BeI16(p.x) + BeI16(p.y) + Be16(p.z)
  }

  /** Every position in range decodes from its bytes. */
  lemma PositionRoundTrip(p: Position)
    requires InPositionRange(p)
    ensures DecodePosition(PositionBytes(p), 0) == p
  {
    var r := PositionBytes(p);
    BeI16RoundTrip(p.x);
    BeI16RoundTrip(p.y);
    assert r[2..4] == BeI16(p.y) && r[4..6] == Be16(p.z);
    assert U16Be(r, 2) == U16Be(r[2..4], 0);
    assert U16Be(r, 4) == U16Be(r[4..6], 0);
  }

  /** Every six bytes are the encoding of the position they decode to. */
  lemma PositionLossless(data: seq<Byte>, at: nat)
    requires at + 6 <= |data|
    ensures PositionBytes(DecodePosition(data, at)) == data[at..at + 6]
  {
    var p := DecodePosition(data, at);
    BeI16Lossless(data, at);
    BeI16Lossless(data, at + 2);
    assert Be16(p.z) == data[at + 4..at + 6];
  }

  /** A signed big-endian word re-encodes to its two bytes. */
  lemma BeI16Lossless(data: seq<Byte>, at: nat)
    requires at + 2 <= |data|
    ensures BeI16(I16Be(data, at)) == data[at..at + 2]
  {
    var u := U16Be(data, at);
    var v := I16Be(data, at);
    assert (if v < 0 then v + TWO_16 else v) == u;
  }

  /** Orientation bytes the tracker would send for a given reordered orientation. */
  function OrientationBytes(o: Orientation): (r: seq<Byte>)
    requires -0x8000 <= o.w < 0x8000 && -0x8000 <= o.x < 0x8000
    requires -0x8000 <= o.y < 0x8000 && -0x8000 < o.z <= 0x8000
    ensures |r| == 8
  {
    BeI16(o.w) + BeI16(o.x) + BeI16(-o.z) + BeI16(o.y)
  }

  /** Decoding inverts the reorder and the big-endian packing. */
  lemma OrientationRoundTrip(o: Orientation)
    requires -0x8000 <= o.w < 0x8000 && -0x8000 <= o.x < 0x8000
    requires -0x8000 <= o.y < 0x8000 && -0x8000 < o.z <= 0x8000
    ensures DecodeOrientation(OrientationBytes(o), 0) == o
  {
    var r := OrientationBytes(o);
    BeI16RoundTrip(o.w);
    BeI16RoundTrip(o.x);
    BeI16RoundTrip(-o.z);
    BeI16RoundTrip(o.y);
    assert r[2..4] == BeI16(o.x) && r[4..6] == BeI16(-o.z) && r[6..8] == BeI16(o.y);
    assert U16Be(r, 2) == U16Be(r[2..4], 0);
    assert U16Be(r, 4) == U16Be(r[4..6], 0);
    assert U16Be(r, 6) == U16Be(r[6..8], 0);
  }

  /**
   * What `nolo_decode_controller` computes from a controller record: nothing
   * unless the version is 2.1; then position at 3, orientation at 9 and the
   * button byte at 17.
   */
  function DecodeController(data: seq<Byte>): (r: Option<ControllerSample>)
    requires |data| >= 18
    ensures r.Some? <==> VersionOk(data)
    ensures r.Some? ==> r.value.buttons == data[17] && r.value.position.z == U16Be(data, 7)
  {
    if !VersionOk(data) then None
    else Some(ControllerSample(DecodePosition(data, 3), DecodeOrientation(data, 9), data[17]))
  }

  /** The headset pose `nolo_decode_hmd_marker` writes into the device. */
  class Hmd {
    var position: Position
    var rotation: Orientation

    constructor ()
      ensures position == Position(0, 0, 0) && rotation == Orientation(0, 0, 0, 0)
    {
      position := Position(0, 0, 0);
      rotation := Orientation(0, 0, 0, 0);
    }

    /**
     * `nolo_decode_hmd_marker`: a record without version 2.1 changes nothing;
     * otherwise the marker position at 3 and the orientation at 16 (after the
     * home position at 9 and one unused byte) become the device pose.
     */
    method DecodeHmdMarker(data: seq<Byte>)
      requires |data| >= 24
      modifies this
      ensures !VersionOk(data) ==> position == old(position) && rotation == old(rotation)
      ensures VersionOk(data) ==> position == DecodePosition(data, 3) && rotation == DecodeOrientation(data, 16)
    {
      if data[0] != 2 || data[1] != 1 {
        return;
      }
      var pos := DecodePosition(data, 3);
      var home := DecodePosition(data, 9);
      var orientation := DecodeOrientation(data, 16);
      position := pos;
      rotation := orientation;
    }
  }
}
