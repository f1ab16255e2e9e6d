/** The writers of string literals: escaping runs, the byte-at-a-time writer and the block-wise one. */
module QuoteWriter {
  import opened Json
  import opened Lexer
  import opened Memory
  import opened Bits
  import opened StringMask
  import opened Unescape
  import opened Quote

  predicate Special(c: byte, style: Style) { NeedEscaped(c) || IsEmoji(c, style) }

  /** The literal of s without its quotes. */
  function Body(s: Bytes, style: Style): (r: Bytes)
    ensures |r| <= 6 * |s|
  {
    PiecesValid(s, style);
    PiecesText(Pieces(s, style))
  }

  lemma BodyStep(s: Bytes, style: Style)
    requires s != []
    ensures Body(s, style) == PieceText(FirstPiece(s, style)) + Body(s[Taken(s, style)..], style)
  {
    hide FirstPiece, Taken, PieceText;
    PiecesCons(s, style);
    assert Pieces(s, style)[1..] == Pieces(s[Taken(s, style)..], style);
  }

  /** Bytes that need no escape stand for themselves. */
  lemma {:induction false} BodyRun(s: Bytes, k: nat, style: Style)
    requires k <= |s| && forall i :: 0 <= i < k ==> !Special(s[i], style)
    ensures Body(s, style) == s[..k] + Body(s[k..], style)
    decreases k
  {
    hide Body;
    if k == 0 {
      assert s[0..] == s;
    } else {
      BodyStep(s, style);
      BodyRun(s[1..], k - 1, style);
      assert s[1..][k - 1..] == s[k..] && s[..k] == [s[0]] + s[1..][..k - 1];
    }
  }

  // ---- writing into the buffer ----

  /** [at, j) holds what has been written for the first i bytes of src. */
  ghost predicate Writing(now: Bytes, before: Bytes, at: nat, j: nat, src: Bytes, i: nat, style: Style) {
    && i <= |src| && at <= j <= |now| == |before| && now[..at] == before[..at]
    && Body(src, style) == now[at..j] + Body(src[i..], style) && j - at <= 6 * i
  }

  lemma WritingBounds(now: Bytes, before: Bytes, at: nat, j: nat, src: Bytes, i: nat, style: Style)
    requires Writing(now, before, at, j, src, i, style)
    ensures i <= |src| && at <= j <= |now| && j - at <= 6 * i
  {
    hide Body;
  }

  lemma WritingStart(now: Bytes, at: nat, src: Bytes, style: Style)
    requires at <= |now|
    ensures Writing(now, now, at, at, src, 0, style)
  {
    assert src[0..] == src;
    assert now[at..at] + Body(src, style) == Body(src, style);
  }

  /** The bytes x written at j stand for src[i..k]. */
  lemma WritingMore(now: Bytes, before: Bytes, at: nat, j: nat, src: Bytes, i: nat, style: Style, last: Bytes, x: Bytes,
      k: nat)
    requires Writing(now, before, at, j, src, i, style) && i <= k <= |src| && |last| == |now| && j + |x| <= |now|
    requires last[..j] == now[..j] && last[j..j + |x|] == x && |x| <= 6 * (k - i)
    requires Body(src[i..], style) == x + Body(src[k..], style)
    ensures Writing(last, before, at, j + |x|, src, k, style)
  {
    assert last[at..j + |x|] == last[..j][at..] + last[j..j + |x|];
    assert now[at..j] == now[..j][at..];
    assert last[..at] == last[..j][..at] && now[..at] == now[..j][..at];
    Associate(now[at..j], x, Body(src[k..], style));
  }

  /** Six bytes of the escape table; only the first `n` of them count. */
  function EscapeEntry(c: byte, style: Style): (e: Bytes)
    requires NeedEscaped(c)
    ensures |e| == 6
  {
    match ShortEscape(c)
    case Some(x) => [BACKSLASH, x, 0, 0, 0, 0]
    case None => [BACKSLASH, 0x75] + Hex(c, style.upper)
  }

  lemma EntryIsPiece(c: byte, style: Style)
    requires NeedEscaped(c)
    ensures var t := PieceText(EscapePiece(c, style)); |t| <= 6 && t == EscapeEntry(c, style)[..|t|]
  {
    hide Hex;
    assert [BACKSLASH, 0x75] + Hex(c, style.upper) == ([BACKSLASH, 0x75] + Hex(c, style.upper))[..6];
  }

  lemma PrefixOf(d: Bytes, j: nat, x: Bytes, n: nat)
    requires j + |x| <= |d| && d[j..j + |x|] == x && n <= |x|
    ensures d[j..j + n] == x[..n]
  {
    assert d[j..j + n] == d[j..j + |x|][..n];
  }

  method WriteHex(dst: array<byte>, j: nat, value: nat, style: Style) returns (next: nat)
    requires value < 0x10000 && j + 6 <= dst.Length
    modifies dst
    ensures next == j + 6 && dst[..j] == old(dst[..j]) && dst[j..next] == [BACKSLASH, 0x75] + Hex(value, style.upper)
  {
    hide Hex;
    assert |[BACKSLASH, 0x75] + Hex(value, style.upper)| == 6;
    Store(dst, j, [BACKSLASH, 0x75] + Hex(value, style.upper));
    next := j + 6;
  }

  /** The escape of the byte at i, or of the four bytes there. */
  method EscapeOne(dst: array<byte>, j: nat, src: Bytes, i: nat, style: Style, ghost at: nat, ghost before: Bytes)
    returns (iNext: nat, jNext: nat)
    requires i < |src| && Special(src[i], style) && j + 12 <= dst.Length
    requires Writing(dst[..], before, at, j, src, i, style)
    modifies dst
    ensures i < iNext && Writing(dst[..], before, at, jNext, src, iNext, style)
  {
    hide Body, Writing, NeedEscaped, Hex, EmojiBits, HighHalf, LowHalf;
    ghost var now := dst[..];
    ghost var x: Bytes;
    if NeedEscaped(src[i]) {
      jNext, x := PutEscape(dst, j, src[i], style);
      iNext := i + 1;
    } else if |src| - i < 4 {
      Store(dst, j, [src[i]]);
      iNext, jNext, x := i + 1, j + 1, [src[i]];
    } else {
      jNext, x := PutPair(dst, j, EmojiBits(src[i], src[i + 1], src[i + 2], src[i + 3]), style);
      iNext := i + 4;
    }
    PieceAt(src, i, style);
    WritingMore(now, before, at, j, src, i, style, dst[..], x, iNext);
  }

  method PutEscape(dst: array<byte>, j: nat, c: byte, style: Style) returns (next: nat, ghost x: Bytes)
    requires NeedEscaped(c) && j + 6 <= dst.Length
    modifies dst
    ensures x == PieceText(EscapePiece(c, style)) && |x| <= 6 && next == j + |x|
    ensures dst[..j] == old(dst[..j]) && dst[j..next] == x
  {
    hide Hex, EscapePiece, EscapeEntry, PieceText;
    EntryIsPiece(c, style);
    EntrySize(c, style);
    var entry := EscapeEntry(c, style);
    var n := if ShortEscape(c).Some? then 2 else 6;
    Store(dst, j, entry);
    PrefixOf(dst[..], j, entry, n);
    x := PieceText(EscapePiece(c, style));
    next := j + n;
  }

  method PutPair(dst: array<byte>, j: nat, u: nat, style: Style) returns (next: nat, ghost x: Bytes)
    requires j + 12 <= dst.Length
    modifies dst
    ensures x == PieceText(Surrogates(Hex(HighHalf(u), style.upper), Hex(LowHalf(u), style.upper)))
    ensures |x| == 12 && next == j + 12 && dst[..j] == old(dst[..j]) && dst[j..next] == x
  {
    hide Hex, HighHalf, LowHalf, PieceText;
    PairValid(u, style);
    x := PieceText(Surrogates(Hex(HighHalf(u), style.upper), Hex(LowHalf(u), style.upper)));
    var h := WriteHex(dst, j, HighHalf(u), style);
    ghost var mid := dst[..];
    next := WriteHex(dst, h, LowHalf(u), style);
    PairText(mid, dst[..], j, u, style);
  }

  /** The piece that starts at i. */
  lemma PieceAt(src: Bytes, i: nat, style: Style)
    requires i < |src| && Special(src[i], style)
    ensures var c := src[i];
            if NeedEscaped(c) then
              Body(src[i..], style) == PieceText(EscapePiece(c, style)) + Body(src[i + 1..], style)
            else if |src| - i < 4 then Body(src[i..], style) == [c] + Body(src[i + 1..], style)
            else
              var u := EmojiBits(src[i], src[i + 1], src[i + 2], src[i + 3]);
              Body(src[i..], style) ==
              PieceText(Surrogates(Hex(HighHalf(u), style.upper), Hex(LowHalf(u), style.upper))) +
              Body(src[i + 4..], style)
  {
    hide Body, Hex, EmojiBits, HighHalf, LowHalf, PieceText, EscapePiece;
    var rest := src[i..];
    BodyStep(rest, style);
    PlainText(src[i]);
    assert rest[1..] == src[i + 1..];
    assert |rest| >= 4 ==> rest[4..] == src[i + 4..];
  }

  lemma PlainText(c: byte)
    ensures PieceText(Plain(c)) == [c]
  {}

  lemma EntrySize(c: byte, style: Style)
    requires NeedEscaped(c)
    ensures |PieceText(EscapePiece(c, style))| == if ShortEscape(c).Some? then 2 else 6
  {
    hide Hex;
  }

  lemma PairText(mid: Bytes, now: Bytes, j: nat, u: nat, style: Style)
    requires j + 12 <= |mid| == |now| && now[..j + 6] == mid[..j + 6]
    requires mid[j..j + 6] == [BACKSLASH, 0x75] + Hex(HighHalf(u), style.upper)
    requires now[j + 6..j + 12] == [BACKSLASH, 0x75] + Hex(LowHalf(u), style.upper)
    ensures now[j..j + 12] == PieceText(Surrogates(Hex(HighHalf(u), style.upper), Hex(LowHalf(u), style.upper)))
    ensures now[..j] == mid[..j]
  {
    hide Hex;
    var x := [BACKSLASH, 0x75];
    assert now[j..j + 6] == now[..j + 6][j..] == mid[..j + 6][j..] == mid[j..j + 6];
    assert now[..j] == now[..j + 6][..j] == mid[..j + 6][..j] == mid[..j];
    assert now[j..j + 12] == now[j..j + 6] + now[j + 6..j + 12];
    Associate(x + Hex(HighHalf(u), style.upper), x, Hex(LowHalf(u), style.upper));
  }

  /** Escapes from i on, until the next byte needs none. */
  method DoEscape(dst: array<byte>, j: nat, src: Bytes, i: nat, style: Style, ghost at: nat, ghost before: Bytes)
    returns (iNext: nat, jNext: nat)
    requires i < |src| && Special(src[i], style) && at + 6 * |src| + 12 <= dst.Length
    requires Writing(dst[..], before, at, j, src, i, style)
    modifies dst
    ensures i < iNext && Writing(dst[..], before, at, jNext, src, iNext, style)
  {
    hide Body;
    iNext, jNext := i, j;
    while true
      invariant i <= iNext < |src| && Special(src[iNext], style)
      invariant Writing(dst[..], before, at, jNext, src, iNext, style)
      decreases |src| - iNext
    {
      iNext, jNext := EscapeOne(dst, jNext, src, iNext, style, at, before);
      if iNext == |src| {
        return;
      }
      if style.emoji && src[iNext] >= 0xF0 {
        continue;
      }
      if !NeedEscaped(src[iNext]) {
        return;
      }
    }
  }

  /** Starts a literal: the quote, and nothing written yet. */
  lemma Opened(before: Bytes, now: Bytes, at: nat, src: Bytes, style: Style)
    requires at < |before| == |now| && now[..at] == before[..at] && now[at] == QUOTE
    ensures Writing(now, now, at + 1, at + 1, src, 0, style)
  {
    WritingStart(now, at + 1, src, style);
  }

  /** Ends a literal: the closing quote at j. */
  lemma Ended(before: Bytes, begun: Bytes, now: Bytes, last: Bytes, at: nat, j: nat, src: Bytes, style: Style)
    requires |begun| == |before| && at < |before| && begun[..at] == before[..at] && begun[at] == QUOTE
    requires Writing(now, begun, at + 1, j, src, |src|, style)
    requires |last| == |now| && j < |now| && last[..j] == now[..j] && last[j] == QUOTE
    ensures last[at..j + 1] == StringText(Pieces(src, style)) && last[..at] == before[..at]
    ensures j + 1 <= at + 6 * |src| + 2
  {
    hide Pieces;
    assert src[|src|..] == [];
    EmptyBody(style);
    assert Body(src, style) == now[at + 1..j];
    QuotedSlice(begun, now, last, at, j);
  }

  /** What the first and the last byte enclose. */
  lemma QuotedSlice(begun: Bytes, now: Bytes, last: Bytes, at: nat, j: nat)
    requires at < j < |now| == |last| == |begun| && begun[at] == QUOTE && last[j] == QUOTE
    requires now[..at + 1] == begun[..at + 1] && last[..j] == now[..j]
    ensures last[at..j + 1] == [QUOTE] + now[at + 1..j] + [QUOTE] && last[..at] == begun[..at]
  {
    assert forall k :: 0 <= k < j ==> last[..j][k] == last[k] && now[..j][k] == now[k];
    assert forall k :: 0 <= k < at + 1 ==> now[..at + 1][k] == now[k] && begun[..at + 1][k] == begun[k];
  }

  lemma EmptyBody(style: Style)
    ensures Body([], style) == []
  {}

  /** The byte-at-a-time writer. */
  method QuoteScalar(src: Bytes, dst: array<byte>, at: nat, style: Style) returns (end: nat)
    requires at + 6 * |src| + 32 + 3 <= dst.Length
    modifies dst
    ensures at + 2 <= end <= at + 6 * |src| + 2
    ensures dst[at..end] == StringText(Pieces(src, style)) && dst[..at] == old(dst[..at])
  {
    hide Body, Pieces;
    ghost var before := dst[..];
    dst[at] := QUOTE;
    ghost var begun := dst[..];
    Opened(before, begun, at, src, style);
    var i, j: nat := 0, at + 1;
    while i < |src|
      invariant Writing(dst[..], begun, at + 1, j, src, i, style)
      decreases |src| - i
    {
      if !Special(src[i], style) {
        ghost var now := dst[..];
        dst[j] := src[i];
        OneByte(src, i, style);
        WritingMore(now, begun, at + 1, j, src, i, style, dst[..], [src[i]], i + 1);
        i, j := i + 1, j + 1;
      } else {
        i, j := DoEscape(dst, j, src, i, style, at + 1, begun);
      }
    }
    ghost var now := dst[..];
    dst[j] := QUOTE;
    end := j + 1;
    Ended(before, begun, now, dst[..], at, j, src, style);
  }

  lemma OneByte(src: Bytes, i: nat, style: Style)
    requires i < |src| && !Special(src[i], style)
    ensures Body(src[i..], style) == [src[i]] + Body(src[i + 1..], style)
  {
    hide Body;
    BodyRun(src[i..], 1, style);
    assert src[i..][..1] == [src[i]] && src[i..][1..] == src[i + 1..];
  }

  // ---- block-wise ----

  function EscapeMask(v: Bytes, style: Style): word { Mask(v, (c: byte) => Special(c, style)) }

  lemma EscapeMaskBit(v: Bytes, style: Style, k: nat)
    requires k < 64
    ensures Bit(EscapeMask(v, style), k) <==> k < |v| && Special(v[k], style)
  {
    hide Bit, Mask;
    MaskBit(v, (c: byte) => Special(c, style), k);
  }

  /** The first special byte of the vector, or its length. */
  method FirstSpecial(v: Bytes, style: Style) returns (cn: nat)
    requires |v| == VEC_LEN
    ensures cn <= VEC_LEN && (forall k :: 0 <= k < cn ==> !Special(v[k], style))
    ensures cn < VEC_LEN ==> Special(v[cn], style)
  {
    hide Bit, TrailingZeroes, EscapeMask;
    var mm := EscapeMask(v, style);
    forall k: nat | k < 64
      ensures Bit(mm, k) <==> k < |v| && Special(v[k], style)
    {
      EscapeMaskBit(v, style, k);
    }
    if mm == 0 {
      forall k: nat | k < VEC_LEN
        ensures !Special(v[k], style)
      {
        ZeroBit(k);
        assert !Bit(mm, k);
      }
      cn := VEC_LEN;
    } else {
      LowestBit(mm);
      cn := TrailingZeroes(mm);
    }
  }

  /** A run of n plain bytes of src, found at the front of a stored vector v that starts like src[i..]. */
  lemma RunWritten(now: Bytes, before: Bytes, at: nat, j: nat, src: Bytes, i: nat, style: Style, last: Bytes, v: Bytes,
      n: nat)
    requires Writing(now, before, at, j, src, i, style) && n <= |v| && i + n <= |src| && j + |v| <= |now| == |last|
    requires last[..j] == now[..j] && last[j..j + |v|] == v && v[..n] == src[i..i + n]
    requires forall k :: 0 <= k < n ==> !Special(v[k], style)
    ensures Writing(last, before, at, j + n, src, i + n, style)
  {
    hide Body, Special;
    PrefixOf(last, j, v, n);
    forall k | 0 <= k < n
      ensures !Special(src[i..][k], style)
    {
      assert v[k] == v[..n][k] == src[i..i + n][k] == src[i..][k];
    }
    BodyRun(src[i..], n, style);
    assert src[i..][..n] == src[i..i + n] && src[i..][n..] == src[i + n..];
    WritingMore(now, before, at, j, src, i, style, last, v[..n], i + n);
  }

  /** Whole vectors while there are any. */
  method QuoteVectors(src: Bytes, dst: array<byte>, at: nat, style: Style, ghost before: Bytes)
    returns (i: nat, j: nat)
    requires at + 6 * |src| + 32 + 2 <= dst.Length && Writing(dst[..], before, at, at, src, 0, style)
    modifies dst
    ensures |src| - VEC_LEN < i && Writing(dst[..], before, at, j, src, i, style)
  {
    hide Body;
    i, j := 0, at;
    while |src| - i >= VEC_LEN
      invariant Writing(dst[..], before, at, j, src, i, style)
      decreases |src| - i
    {
      ghost var now := dst[..];
      var v := src[i..i + VEC_LEN];
      Store(dst, j, v);
      var cn := FirstSpecial(v, style);
      assert v[..cn] == src[i..i + cn];
      RunWritten(now, before, at, j, src, i, style, dst[..], v, cn);
      i, j := i + cn, j + cn;
      if cn < VEC_LEN {
        i, j := DoEscape(dst, j, src, i, style, at, before);
      }
    }
  }

  /** The last bytes, read together with whatever lies behind them in memory. */
  method QuoteTail(src: Bytes, dst: array<byte>, i0: nat, j0: nat, at: nat, style: Style, beyond: Bytes,
      ghost before: Bytes) returns (j: nat)
    requires |src| - VEC_LEN < i0 && |beyond| == VEC_LEN
    requires at + 6 * |src| + 32 + 2 <= dst.Length && Writing(dst[..], before, at, j0, src, i0, style)
    modifies dst
    ensures Writing(dst[..], before, at, j, src, |src|, style)
  {
    hide Body, Writing, Special;
    var i := i0;
    j := j0;
    var tail := src + beyond;
    while i < |src|
      invariant Writing(dst[..], before, at, j, src, i, style) && i0 <= i
      decreases |src| - i
    {
      ghost var now := dst[..];
      WritingBounds(now, before, at, j, src, i, style);
      var nb := |src| - i;
      var v := tail[i..i + VEC_LEN];
      Store(dst, j, v);
      var cn := FirstSpecial(v, style);
      TailRun(src, beyond, i, if cn < nb then cn else nb);
      if cn < nb {
        RunWritten(now, before, at, j, src, i, style, dst[..], v, cn);
        i, j := i + cn, j + cn;
        i, j := DoEscape(dst, j, src, i, style, at, before);
      } else {
        RunWritten(now, before, at, j, src, i, style, dst[..], v, nb);
        i, j := |src|, j + nb;
      }
    }
    WritingBounds(dst[..], before, at, j, src, i, style);
  }

  /** The vector loaded at i starts like the source there. */
  lemma TailRun(src: Bytes, beyond: Bytes, i: nat, n: nat)
    requires i + n <= |src| && n <= VEC_LEN && i + VEC_LEN <= |src + beyond|
    ensures var v := (src + beyond)[i..i + VEC_LEN];
            v[..n] == src[i..i + n] && (i + n < |src| && n < VEC_LEN ==> v[n] == src[i + n])
  {}

  /** The block-wise writer: the same literal, and no write past the room the serializer reserves. */
  method QuoteBlocks(src: Bytes, dst: array<byte>, at: nat, style: Style, beyond: Bytes) returns (end: nat)
    requires at + 6 * |src| + 32 + 3 <= dst.Length && |beyond| == VEC_LEN
    modifies dst
    ensures at + 2 <= end <= at + 6 * |src| + 2
    ensures dst[at..end] == StringText(Pieces(src, style)) && dst[..at] == old(dst[..at])
  {
    hide Body, Pieces;
    ghost var before := dst[..];
    dst[at] := QUOTE;
    ghost var begun := dst[..];
    Opened(before, begun, at, src, style);
    var i, j := QuoteVectors(src, dst, at + 1, style, begun);
    j := QuoteTail(src, dst, i, j, at + 1, style, beyond, begun);
    ghost var now := dst[..];
    dst[j] := QUOTE;
    end := j + 1;
    Ended(before, begun, now, dst[..], at, j, src, style);
  }
}
