/** Decoding a string literal in place, one byte at a time: the decoded bytes are written over the
    literal, never ahead of what has been read. */
module Unescape {
  import opened Options
  import opened Powers
  import opened BitwiseOr
  import opened Json
  import opened Lexer
  import opened Sentinel

  datatype Error = NoError | InvalidChar | UnEscaped | EscapedUnicode | EscapedFormat | Infinity

  /** Room for a whole vector load past the last byte a scan can look at. */
  const VEC_LEN := 32

  /** The scan of a literal from i never goes past `last` without failing. */
  predicate Contained(s: Bytes, i: nat, last: nat)
    decreases last - i
  {
    && i <= last < |s|
    && (s[i] == BACKSLASH ==>
          match ScanEscape(s, i) case None => true case Some(x) => Contained(s, x.end, last))
    && (s[i] != QUOTE && s[i] != BACKSLASH && s[i] >= 0x20 ==> Contained(s, i + 1, last))
  }

  /** The end mark contains every scan that starts in the text. */
  lemma {:induction false} SentinelContains(s: Bytes, n: nat, i: nat)
    requires Padded(s, n) && i <= n + 1
    ensures Contained(s, i, n + 1)
    decreases n + 1 - i
  {
    hide ScanEscape;
    if i <= n {
      if s[i] == BACKSLASH && ScanEscape(s, i).Some? {
        EscapeInside(s, n, i);
        SentinelContains(s, n, ScanEscape(s, i).value.end);
      } else if s[i] != BACKSLASH {
        SentinelContains(s, n, i + 1);
      }
    }
  }

  // ---- hex digits and UTF-8 ----

  const INVALID_HEX: nat := 0xFFFF_FFFF

  /** One of the four 210-entry columns of the conversion table: the digit at its place value. */
  function DigitToVal32(c: byte, place: nat): nat {
    match HexDigit(c) case None => INVALID_HEX case Some(d) => d * place
  }

  lemma OrInvalid(y: nat)
    requires y <= INVALID_HEX
    ensures OrBits(INVALID_HEX, y) == OrBits(y, INVALID_HEX) == INVALID_HEX
  {
    var n: nat := 32;
    ThirtyTwo(n);
    OrOnes(y, n);
    OrComm(y, INVALID_HEX);
  }

  lemma ThirtyTwo(n: nat)
    requires n == 32
    ensures Pow(2, n) == INVALID_HEX + 1
  {
    SmallPowers();
    hide Pow;
    PowSplit(2, 5, 5, 32, 32);
    PowSplit(2, 10, 1, 1024, 2);
    PowSplit(2, 20, 11, 1048576, 2048);
    PowSplit(2, n - 1, 1, 2147483648, 2);
  }

  /** Four table entries or-ed together. */
  function HexToU32(c1: byte, c2: byte, c3: byte, c4: byte): nat {
    var v1, v2 := DigitToVal32(c1, 0x1000), DigitToVal32(c2, 0x100);
    var v3, v4 := DigitToVal32(c3, 0x10), DigitToVal32(c4, 1);
    OrBits(OrBits(OrBits(v1, v2), v3), v4)
  }

  /** The digits of a valid escape have no bit in common. */
  lemma OrDigits(d1: nat, d2: nat, d3: nat, d4: nat)
    requires d1 < 16 && d2 < 16 && d3 < 16 && d4 < 16
    ensures OrBits(OrBits(OrBits(d1 * 0x1000, d2 * 0x100), d3 * 0x10), d4) ==
            d1 * 0x1000 + d2 * 0x100 + d3 * 0x10 + d4 < 0x1_0000
  {
    var k: nat := 4;
    Nibbles(k);
    hide Pow, OrBits;
    OrDisjoint(d1, d2 * 0x100, 3 * k);
    OrDisjoint(d1 * 16 + d2, d3 * 0x10, 2 * k);
    OrDisjoint(d1 * 256 + d2 * 16 + d3, d4, k);
  }

  lemma Nibbles(k: nat)
    requires k == 4
    ensures Pow(2, k) == 0x10 && Pow(2, 2 * k) == 0x100 && Pow(2, 3 * k) == 0x1000
  {
    assert Pow(2, 4) == 16;
    hide Pow;
    PowSplit(2, k, k, 16, 16);
    PowSplit(2, 2 * k, k, 256, 16);
  }

  lemma HexToU32Exact(s: Bytes, i: nat)
    requires i + 4 <= |s|
    ensures HexToU32(s[i], s[i + 1], s[i + 2], s[i + 3]) ==
            match HexAt(s, i) case None => INVALID_HEX case Some(h) => h
  {
    hide OrBits;
    var h := s[i..i + 4];
    assert h[0] == s[i] && h[1] == s[i + 1] && h[2] == s[i + 2] && h[3] == s[i + 3];
    var d1, d2, d3, d4 := HexDigit(s[i]), HexDigit(s[i + 1]), HexDigit(s[i + 2]), HexDigit(s[i + 3]);
    OrDigits(if d1.Some? then d1.value else 0, if d2.Some? then d2.value else 0, if d3.Some? then d3.value else 0,
      if d4.Some? then d4.value else 0);
    if d1.None? || d2.None? || d3.None? || d4.None? {
      OrEntries(DigitToVal32(s[i], 0x1000), DigitToVal32(s[i + 1], 0x100), DigitToVal32(s[i + 2], 0x10),
        DigitToVal32(s[i + 3], 1));
    }
  }

  /** An invalid entry sets every bit. */
  lemma OrEntries(v1: nat, v2: nat, v3: nat, v4: nat)
    requires v1 <= INVALID_HEX && v2 <= INVALID_HEX && v3 <= INVALID_HEX && v4 <= INVALID_HEX
    requires v1 == INVALID_HEX || v2 == INVALID_HEX || v3 == INVALID_HEX || v4 == INVALID_HEX
    ensures OrBits(OrBits(OrBits(v1, v2), v3), v4) == INVALID_HEX
  {
    hide OrBits, Pow;
    OrInvalid(v1);
    OrInvalid(v2);
    OrWord(v1, v2);
    var w := OrBits(v1, v2);
    OrInvalid(v3);
    OrInvalid(w);
    OrWord(w, v3);
    OrInvalid(OrBits(w, v3));
    OrInvalid(v4);
  }

  lemma OrWord(x: nat, y: nat)
    requires x <= INVALID_HEX && y <= INVALID_HEX
    ensures OrBits(x, y) <= INVALID_HEX
  {
    var n: nat := 32;
    ThirtyTwo(n);
    hide Pow;
    OrBelow(x, y, n);
  }

  /** Writes the UTF-8 bytes of a code point; none when it is too large. */
  method CodepointToUtf8(cp: nat, buf: array<byte>, dst: nat) returns (n: nat)
    requires dst + 4 <= buf.Length
    modifies buf
    ensures if cp < 0x110000 then n == |Utf8(cp)| && buf[dst..dst + n] == Utf8(cp) else n == 0
    ensures buf[..dst] == old(buf[..dst]) && buf[dst + n..] == old(buf[dst + n..])
  {
    if cp <= 0x7F {
      buf[dst] := cp;
      n := 1;
    } else if cp <= 0x7FF {
      buf[dst] := cp / 0x40 + 192;
      buf[dst + 1] := cp % 0x40 + 128;
      n := 2;
    } else if cp <= 0xFFFF {
      buf[dst] := cp / 0x1000 + 224;
      buf[dst + 1] := cp / 0x40 % 0x40 + 128;
      buf[dst + 2] := cp % 0x40 + 128;
      n := 3;
    } else if cp <= 0x10FFFF {
      buf[dst] := cp / 0x40000 + 240;
      buf[dst + 1] := cp / 0x1000 % 0x40 + 128;
      buf[dst + 2] := cp / 0x40 % 0x40 + 128;
      buf[dst + 3] := cp % 0x40 + 128;
      n := 4;
    } else {
      n := 0;
    }
  }

  /** Reads the \u escape at src (two of them for a surrogate pair) and appends its UTF-8 bytes. */
  method HandleUnicodeCodepoint(buf: array<byte>, src: nat, dst: nat, ghost s: Bytes)
    returns (ok: bool, srcNext: nat, dstNext: nat)
    requires dst <= src && src + VEC_LEN <= buf.Length == |s| && buf[src..] == s[src..]
    requires s[src + 1] == 0x75
    modifies buf
    ensures match ScanEscape(s, src)
            case None => !ok
            case Some(x) =>
              ok && srcNext == x.end && dstNext == dst + |x.bytes| <= srcNext && buf[dst..dstNext] == x.bytes
    ensures ok ==> buf[..dst] == old(buf[..dst]) && buf[srcNext..] == s[srcNext..]
    ensures buf[..dst] == old(buf[..dst])
  {
    hide Utf8, HexAt, HexToU32, Hex4, At;
    srcNext, dstNext := src, dst;
    assert forall k :: src <= k < |s| ==> buf[..][k] == s[k] by { SameBytes(buf[..], s, src); }
    var codePoint := HexToU32(buf[src + 2], buf[src + 3], buf[src + 4], buf[src + 5]);
    HexToU32Exact(s, src + 2);
    HexRange(s, src + 2);
    srcNext := src + 6;
    if IsLow(codePoint) {
      return false, srcNext, dstNext;
    }
    if IsHigh(codePoint) {
      TwoAt(s, src + 6, BACKSLASH, 0x75);
      if buf[srcNext] != BACKSLASH || buf[srcNext + 1] != 0x75 {
        return false, srcNext, dstNext;
      }
      var codePoint2 := HexToU32(buf[src + 8], buf[src + 9], buf[src + 10], buf[src + 11]);
      HexToU32Exact(s, src + 8);
      HexRange(s, src + 8);
      if codePoint2 >= 0x10000 {
        return false, srcNext, dstNext;
      }
      if codePoint2 < 0xDC00 || codePoint2 > 0xDFFF {
        return false, srcNext, dstNext;
      }
      codePoint := (codePoint - 0xD800) * 0x400 + (codePoint2 - 0xDC00) + 0x10000;
      srcNext := srcNext + 6;
    }
    Utf8Length(codePoint);
    var offset := CodepointToUtf8(codePoint, buf, dst);
    dstNext := dst + offset;
    ok := offset > 0;
    if ok {
      SameAhead(buf[..], old(buf[..]), s, dst + offset, src, srcNext);
    }
  }

  lemma HexRange(s: Bytes, i: nat)
    ensures HexAt(s, i).Some? ==> HexAt(s, i).value < 0x10000
  {}

  lemma TwoAt(s: Bytes, i: nat, b: byte, c: byte)
    requires i + 2 <= |s|
    ensures At(s, i, [b, c]) <==> s[i] == b && s[i + 1] == c
  {
    assert s[i..i + 2] == [s[i], s[i + 1]];
  }

  lemma Utf8Length(c: nat)
    ensures c < 0x10000 ==> |Utf8(c)| <= 3
  {}

  lemma SameBytes(d: Bytes, s: Bytes, i: nat)
    requires i <= |d| == |s| && d[i..] == s[i..]
    ensures forall k :: i <= k < |s| ==> d[k] == s[k]
  {
    forall k | i <= k < |s|
      ensures d[k] == s[k]
    {
      assert d[i..][k - i] == s[i..][k - i];
    }
  }

  lemma SameAhead(now: Bytes, before: Bytes, s: Bytes, i: nat, j: nat, k: nat)
    requires |now| == |before| == |s| && i <= k <= |s| && j <= k
    requires now[i..] == before[i..] && before[j..] == s[j..]
    ensures now[k..] == s[k..]
  {
    assert now[k..] == now[i..][k - i..] && before[k..] == before[i..][k - i..];
    assert before[k..] == before[j..][k - j..] && s[k..] == s[j..][k - j..];
  }

  // ---- whole literals ----

  /** What a finished scan of the literal at `start` leaves behind. */
  ghost predicate Decoded(now: Bytes, before: Bytes, s: Bytes, start: nat, err: Error, n: nat, end: nat)
    requires start <= |before| == |now| == |s|
  {
    && now[..start] == before[..start]
    && match ScanString(s, start)
       case None => err != NoError
       case Some(x) =>
         err == NoError && end == x.end <= |s| && n == |x.bytes| && start + n < end &&
         now[start..start + n] == x.bytes && now[end..] == s[end..]
  }

  /** Part of the literal has been decoded: [start, dst) holds `done`, reading goes on at src. */
  ghost predicate Decoding(now: Bytes, before: Bytes, s: Bytes, start: nat, dst: nat, src: nat, done: Bytes) {
    && |now| == |before| == |s| && start <= dst <= src <= |s|
    && now[..start] == before[..start] && now[start..dst] == done && now[src..] == s[src..]
    && ScanString(s, start) == Prepend(done, ScanString(s, src))
  }

  lemma StartDecoding(now: Bytes, s: Bytes, start: nat)
    requires |now| == |s| && start <= |s| && now[start..] == s[start..]
    ensures Decoding(now, now, s, start, start, start, [])
  {
    var r := ScanString(s, start);
    assert r.Some? ==> [] + r.value.bytes == r.value.bytes;
  }

  lemma FinishDecoding(now: Bytes, before: Bytes, s: Bytes, start: nat, dst: nat, src: nat, done: Bytes, last: Bytes)
    requires Decoding(now, before, s, start, dst, src, done) && src < |s| && s[src] == QUOTE
    requires |last| == |now| && last[..dst] == now[..dst] && last[src + 1..] == now[src + 1..]
    ensures Decoded(last, before, s, start, NoError, dst - start, src + 1)
  {
    assert done + [] == done;
    assert last[..start] == last[..dst][..start] && last[start..dst] == last[..dst][start..];
    assert now[..start] == now[..dst][..start] && now[start..dst] == now[..dst][start..];
    assert now[src + 1..] == now[src..][1..] && s[src + 1..] == s[src..][1..];
  }

  lemma FailDecoding(now: Bytes, before: Bytes, s: Bytes, start: nat, dst: nat, src: nat, done: Bytes, last: Bytes,
      err: Error, end: nat)
    requires Decoding(now, before, s, start, dst, src, done) && ScanString(s, src) == None && err != NoError
    requires |last| == |now| && last[..dst] == now[..dst]
    ensures Decoded(last, before, s, start, err, 0, end)
  {
    assert last[..start] == last[..dst][..start] && now[..start] == now[..dst][..start];
  }

  /** The bytes x come from s[src..next] and have been appended. */
  lemma MoreDecoded(now: Bytes, before: Bytes, s: Bytes, start: nat, dst: nat, src: nat, done: Bytes, last: Bytes,
      x: Bytes, next: nat)
    requires Decoding(now, before, s, start, dst, src, done)
    requires ScanString(s, src) == Prepend(x, ScanString(s, next))
    requires |last| == |now| && dst + |x| <= next <= |s|
    requires last[..dst] == now[..dst] && last[dst..dst + |x|] == x && last[next..] == s[next..]
    ensures Decoding(last, before, s, start, dst + |x|, next, done + x)
  {
    PrependTwice(done, x, ScanString(s, next));
    assert last[..start] == last[..dst][..start] && now[..start] == now[..dst][..start];
    assert last[start..dst + |x|] == last[..dst][start..] + last[dst..dst + |x|];
    assert now[start..dst] == now[..dst][start..];
  }

  /** The byte-at-a-time decoder. */
  method ParseStringInplaceScalar(buf: array<byte>, start: nat, ghost s: Bytes, ghost last: nat)
    returns (err: Error, n: nat, src: nat)
    requires Contained(s, start, last) && last + VEC_LEN <= buf.Length == |s| && buf[start..] == s[start..]
    modifies buf
    ensures Decoded(buf[..], old(buf[..]), s, start, err, n, src)
  {
    hide ScanEscape, ScanString, Decoding, Decoded, Prepend;
    src := start;
    var dst: nat := start;
    ghost var done: Bytes := [];
    ghost var before := buf[..];
    StartDecoding(buf[..], s, start);
    while true
      invariant dst <= src <= last && Contained(s, src, last)
      invariant Decoding(buf[..], before, s, start, dst, src, done)
      decreases last - src
    {
      ghost var now := buf[..];
      DecodingAhead(now, before, s, start, dst, src, done);
      if buf[src] == QUOTE {
        buf[dst] := 0;
        FinishDecoding(now, before, s, start, dst, src, done, buf[..]);
        return NoError, dst - start, src + 1;
      }
      ghost var x: Bytes;
      var srcNext, dstNext;
      err, srcNext, dstNext, x := DecodeOne(buf, src, dst, s, last);
      if err != NoError {
        FailDecoding(now, before, s, start, dst, src, done, buf[..], err, srcNext);
        return err, 0, srcNext;
      }
      MoreDecoded(now, before, s, start, dst, src, done, buf[..], x, srcNext);
      done := done + x;
      src, dst := srcNext, dstNext;
    }
  }

  lemma DecodingAhead(now: Bytes, before: Bytes, s: Bytes, start: nat, dst: nat, src: nat, done: Bytes)
    requires Decoding(now, before, s, start, dst, src, done)
    ensures |now| == |s| && dst <= src <= |s| && now[src..] == s[src..]
    ensures src < |s| ==> now[src] == s[src]
  {
    SameBytes(now, s, src);
  }

  /** One byte or one escape that is not the closing quote; x is what it stands for. */
  method DecodeOne(buf: array<byte>, src: nat, dst: nat, ghost s: Bytes, ghost last: nat)
    returns (err: Error, srcNext: nat, dstNext: nat, ghost x: Bytes)
    requires Contained(s, src, last) && last + VEC_LEN <= buf.Length == |s| && s[src] != QUOTE
    requires dst <= src && buf[src..] == s[src..]
    modifies buf
    ensures buf[..dst] == old(buf[..dst])
    ensures err == NoError ==>
              ScanString(s, src) == Prepend(x, ScanString(s, srcNext)) && dstNext == dst + |x| <= srcNext <= |s| &&
              buf[dst..dstNext] == x && buf[srcNext..] == s[srcNext..] &&
              src < srcNext && Contained(s, srcNext, last)
    ensures err != NoError ==> ScanString(s, src) == None
  {
    hide ScanEscape, ScanString, Prepend;
    ghost var now := buf[..];
    SameBytes(now, s, src);
    ScanStringStep(s, src);
    var c := buf[src];
    srcNext, dstNext, x := src, dst, [];
    if c <= 0x1f {
      err := UnEscaped;
    } else if c != BACKSLASH {
      buf[dst] := c;
      SameAhead(buf[..], now, s, dst + 1, src, src + 1);
      err, srcNext, dstNext, x := NoError, src + 1, dst + 1, [c];
    } else {
      err, srcNext, dstNext := UnescapeOne(buf, src, dst, s);
      x := if err == NoError then ScanEscape(s, src).value.bytes else [];
    }
  }

  /** The escape at src, of either kind. */
  method UnescapeOne(buf: array<byte>, src: nat, dst: nat, ghost s: Bytes)
    returns (err: Error, srcNext: nat, dstNext: nat)
    requires dst <= src && src + VEC_LEN <= buf.Length == |s| && buf[src..] == s[src..] && s[src] == BACKSLASH
    modifies buf
    ensures match ScanEscape(s, src)
            case None => err != NoError
            case Some(x) =>
              err == NoError && srcNext == x.end && dstNext == dst + |x.bytes| <= srcNext &&
              buf[dst..dstNext] == x.bytes && buf[srcNext..] == s[srcNext..]
    ensures buf[..dst] == old(buf[..dst])
  {
    ghost var now := buf[..];
    SameBytes(now, s, src);
    var escapeChar := buf[src + 1];
    srcNext, dstNext := src, dst;
    if escapeChar == 0x75 {
      hide ScanEscape;
      var ok;
      ok, srcNext, dstNext := HandleUnicodeCodepoint(buf, src, dst, s);
      err := if ok then NoError else EscapedUnicode;
    } else {
      buf[dst] := EscapedMap(escapeChar);
      if buf[dst] == 0 {
        return EscapedFormat, src, dst;
      }
      srcNext, dstNext := src + 2, dst + 1;
      err := NoError;
      SameAhead(buf[..], now, s, dst + 1, src, src + 2);
    }
  }

  /** The escape table: 0 for a byte that starts no escape. */
  function EscapedMap(e: byte): (b: byte)
    ensures e != 0x75 ==> Unescape(e) == if b == 0 then None else Some(b)
  {
    if e == 0x22 then 0x22
    else if e == 0x2f then 0x2f
    else if e == 0x5c then 0x5c
    else if e == 0x62 then 0x08
    else if e == 0x66 then 0x0c
    else if e == 0x6e then 0x0a
    else if e == 0x72 then 0x0d
    else if e == 0x74 then 0x09
    else 0
  }

  lemma ScanStringStep(s: Bytes, i: nat)
    requires i < |s|
    ensures s[i] == QUOTE ==> ScanString(s, i) == Some(Scanned([], i + 1))
    ensures s[i] < 0x20 ==> ScanString(s, i) == None
    ensures s[i] >= 0x20 && s[i] != QUOTE && s[i] != BACKSLASH ==>
              ScanString(s, i) == Prepend([s[i]], ScanString(s, i + 1))
    ensures s[i] == BACKSLASH ==>
              ScanString(s, i) ==
              match ScanEscape(s, i) case None => None case Some(x) => Prepend(x.bytes, ScanString(s, x.end))
  {}
}
