/** The parser: a goto machine over the text buffer, a vector of element counts and the node stack.  No
    length is checked while it runs; the end mark behind the text stops it. */
module Parser {
  import opened Options
  import opened Digits
  import opened Json
  import opened Lexer
  import opened Reference
  import opened Sentinel
  import opened SkipSpace
  import Bits
  import opened Unescape
  import opened UnescapeBlocks
  import opened NumberScan
  import opened FloatingFast
  import opened NumberDouble
  import opened DecimalText
  import opened Handler
  import opened Continuation
  import opened ParserSteps

  /** Where the machine goes on. */
  datatype Label = ObjKey | ArrVal | Cont | ScopeEnd | DocEnd | Fail

  /** The literal's node means what the grammar says. */
  lemma LiteralMeaning(x: Literal, n: Number, kept: nat, conv: Conversion)
    requires Describes(x, n, kept)
    ensures NumberMeaning(n, conv) ==
            match x
            case Unsigned(u) => Some(Uint(u))
            case Negative(i) => Some(Int(i))
            case _ => (match conv(NumberText(n)) case None => None case Some(b) => Some(Double(b)))
  {
    hide NatOf, NumberText, SignedExponent;
  }

  class Parser {
    const buf: array<byte>
    const len: TextSize
    const scan: SkipScanner
    const sax: SAXHandler
    /** The machine's rounding, and the outcome of the conversions nothing is claimed of. */
    const round: Rounding
    const odd: Conversion
    ghost const conv: Conversion := Ieee(odd)
    var pos: nat
    var err: Error

    constructor (buf: array<byte>, len: TextSize, scan: SkipScanner, sax: SAXHandler, round: Rounding,
        odd: Conversion)
      ensures this.buf == buf && this.len == len && this.scan == scan && this.sax == sax && this.odd == odd
      ensures pos == 0 && err == NoError
    {
      this.buf, this.len, this.scan, this.sax, this.round, this.odd := buf, len, scan, sax, round, odd;
      pos, err := 0, NoError;
    }

    /** Between two tokens: the buffer from pos on is still the text. */
    ghost predicate Between(s: Bytes)
      reads this, buf, scan, sax
    {
      && Padded(s, len) && buf.Length == |s| && (pos <= len || pos == len + 2)
      && buf[pos..] == s[pos..] && scan.Valid(s, pos) && |sax.st| > 0
    }

    /** Just behind the first byte c of a token. */
    ghost predicate Token(s: Bytes, c: byte)
      reads this, buf, scan, sax
    {
      && Padded(s, len) && buf.Length == |s| && 1 <= pos && (pos - 1 <= len || pos - 1 == len + 2)
      && pos <= |s| && c == s[pos - 1] && buf[pos - 1..] == s[pos - 1..] && scan.Valid(s, pos) && |sax.st| > 0
    }

    /** The open containers. */
    ghost predicate Stack(fs: seq<Frame>)
      reads this, buf, sax
    {
      pos <= buf.Length && Stacked(buf[..pos], sax.st, sax.np, sax.parent, fs)
    }

    /** A finished value on top of them. */
    ghost predicate HasValue(fs: seq<Frame>, t: Tree)
      reads this, buf, sax
    {
      pos <= buf.Length && Completed(buf[..pos], sax.st, sax.np, sax.parent, fs, t)
    }

    lemma BehindToken(s: Bytes, c: byte)
      requires Token(s, c) && c != 0x78
      ensures Between(s) && pos <= len
    {
      hide Cached;
      TokenInText(s, len, pos, c);
      BytesAhead(buf[..], s, pos - 1, pos);
      CachedAhead(s, pos, pos, scan.bitsEnd, scan.bits);
    }

    lemma TokenIs(s: Bytes, c: byte)
      requires Token(s, c)
      ensures 1 <= pos <= len + 3 && Peek(s, pos - 1) == c && (c != 0x78 ==> pos <= len)
    {
      hide Cached;
      TokenPeek(s, len, pos, c);
    }

    /** Reading one token. */
    method SkipSpace(ghost s: Bytes, ghost fs: seq<Frame>, ghost t: Tree) returns (c: byte)
      requires Between(s)
      modifies this`pos, scan
      ensures Token(s, c) && pos == Skip(s, old(pos)) + 1 && old(pos) < pos
      ensures old(Stack(fs)) ==> Stack(fs)
      ensures old(HasValue(fs, t)) ==> HasValue(fs, t)
    {
      hide Skip, Stacked, Completed, Cached;
      ghost var b := buf[..pos];
      SkipInside(s, len, pos);
      BytesAhead(buf[..], s, pos, Skip(s, pos));
      c, pos := scan.SkipSpace(buf, pos, s, len);
      assert b <= buf[..pos];
      MorePrefix(b, buf[..pos], sax.st, sax.np, sax.parent, fs, t);
    }

    // ---- scalars ----

    /** The string literal whose first byte is at pos, decoded in place. */
    method ParseString(ghost s: Bytes, ghost fs: seq<Frame>) returns (n: nat)
      requires Between(s) && pos <= len && err == NoError && Stack(fs)
      modifies this, buf
      ensures match ScanString(s, old(pos))
              case None => err != NoError
              case Some(x) =>
                && err == NoError && pos == x.end && old(pos) < pos && Between(s) && Stack(fs)
                && n == |x.bytes| && old(pos) + n <= pos && buf[old(pos)..old(pos) + n] == x.bytes
    {
      hide ScanString, Stacked, Cached, Contained;
      ghost var start, b := pos, buf[..pos];
      SentinelContains(s, len, pos);
      var src;
      err, n, src := ParseStringInplace(buf, pos, s, len + 1);
      if err == NoError {
        pos := src;
        StringEnd(s, len, start);
        CachedAhead(s, start, pos, scan.bitsEnd, scan.bits);
        assert buf[..pos][..start] == b;
        MorePrefix(b, buf[..pos], sax.st, sax.np, sax.parent, fs, Null);
      }
    }

    /** The literal word at pos - 1. */
    method ParseWord(word: Bytes, x: Node, ghost s: Bytes, c: byte, ghost fs: seq<Frame>, ghost t: Tree)
      requires Token(s, c) && pos <= len && err == NoError && Stack(fs) && 0 < |word| <= 5
      requires 0x78 !in word && Denotes([], x, t)
      modifies this, sax
      ensures if At(s, old(pos) - 1, word)
              then err == NoError && pos == old(pos) - 1 + |word| <= len && Between(s) && HasValue(fs, t)
              else err != NoError
    {
      hide Stacked, Cached, Denotes;
      BytesAhead(buf[..], s, pos - 1, pos);
      HeadByte(buf[..], s, pos - 1);
      WordMatches(buf[..], s, pos, word);
      if buf[pos..pos + |word| - 1] == word[1..] && buf[pos - 1] == word[0] {
        WordInside(s, len, pos - 1, word);
        ghost var b, start := buf[..pos], pos;
        pos := pos - 1 + |word|;
        BytesAhead(buf[..], s, start, pos);
        CachedAhead(s, start, pos, scan.bitsEnd, scan.bits);
        MorePrefix(b, buf[..pos], sax.st, sax.np, sax.parent, fs, Null);
        DenotesMore([], buf[..pos], x, t);
        sax.Scalar(x, buf[..pos], fs, t);
      } else {
        err := InvalidChar;
      }
    }

    /** A value has been taken that no text has: the next byte is a point, and the machine will stop there. */
    ghost predicate Doomed(s: Bytes, fs: seq<Frame>, t: Tree)
      reads this, buf, scan, sax
    {
      Between(s) && pos <= len && HasValue(fs, t) && Peek(s, pos) == DOT
    }

    /** The number literal at pos - 1. */
    method ParseNumberValue(ghost s: Bytes, c: byte, ghost fs: seq<Frame>) returns (ghost t: Tree)
      requires Token(s, c) && pos <= len && err == NoError && Stack(fs)
      modifies this, sax
      ensures match ScanNumber(s, old(pos) - 1)
              case None => err != NoError
              case Some(x) =>
                if !Ended(s, x.end) then err != NoError || (old(pos) <= pos && Doomed(s, fs, t))
                else
                  match NumberMeaning(x.n, conv)
                  case None => err != NoError
                  case Some(u) =>
                    err == NoError && t == u && old(pos) <= pos == x.end <= len && Between(s) && HasValue(fs, t)
    {
      hide ScanNumber, NumberMeaning, Stacked, Cached, Reads, Describes, NumberText, Completed, Fresh, Ieee;
      ghost var start := pos - 1;
      FreshText(buf[..], s, len, start);
      var end, x;
      ghost var kept;
      err, end, x, kept := ParseNumber(buf, pos - 1, s, len);
      t := Null;
      ReadsWhat(s, start, err, end, x, kept, len);
      if err == NoError {
        ghost var n := ScanNumber(s, start).value.n;
        LiteralMeaning(x, n, kept, conv);
        NumberSound(s, start);
        BytesAhead(buf[..], s, start, start);
        SameSlice(buf[..], s, start, start, end);
        var node := NullNode;
        match x {
          case Unsigned(u) => node, t := UintNode(u), Uint(u);
          case Negative(i) => node, t := IntNode(i), Int(i);
          case _ =>
            var bits := DoubleValue(round, odd, x, buf, pos - 1, end, len, s, n, kept);
            match bits {
              case None =>
                err := Infinity;
                return;
              case Some(b) => node, t := DoubleNode(b), Double(b);
            }
        }
        TakeNumber(s, c, end, node, fs, t);
      }
    }

    /** The literal has been read up to `end`: its node goes on the stack. */
    method TakeNumber(ghost s: Bytes, ghost c: byte, end: nat, node: Node, ghost fs: seq<Frame>, ghost t: Tree)
      requires Token(s, c) && pos <= len && err == NoError && Stack(fs) && pos <= end <= len
      requires match node
               case UintNode(u) => t == Uint(u)
               case IntNode(i) => t == Int(i)
               case DoubleNode(b) => t == Double(b)
               case _ => false
      modifies this`pos, sax
      ensures pos == end && Between(s) && HasValue(fs, t)
    {
      hide Stacked, Cached, Completed;
      ghost var b, start := buf[..pos], pos - 1;
      pos := end;
      BytesAhead(buf[..], s, start, pos);
      CachedAhead(s, start + 1, pos, scan.bitsEnd, scan.bits);
      MorePrefix(b, buf[..pos], sax.st, sax.np, sax.parent, fs, Null);
      NumberDenotes(buf[..pos], node, t);
      sax.Scalar(node, buf[..pos], fs, t);
    }

    /** A string value whose opening quote has been read. */
    method ParseStrInPlace(ghost s: Bytes, ghost fs: seq<Frame>) returns (ghost t: Tree)
      requires Between(s) && pos <= len && err == NoError && Stack(fs)
      modifies this, buf, sax
      ensures match ScanString(s, old(pos))
              case None => err != NoError
              case Some(x) =>
                && err == NoError && t == String(x.bytes) && pos == x.end && old(pos) < pos
                && Between(s) && HasValue(fs, t)
    {
      hide ScanString, Stacked, Cached, Completed, Denotes;
      t := Null;
      var start := pos;
      var n := ParseString(s, fs);
      if err == NoError {
        ghost var b := buf[..pos];
        assert b[start..start + n] == buf[start..start + n];
        t := String(b[start..start + n]);
        StringDenotes(b, start, n);
        sax.Scalar(StringNode(start, n), b, fs, t);
      }
    }

    /** A value that is not a container; its first byte c is at pos - 1. */
    method ParsePrimitives(c: byte, ghost s: Bytes, ghost fs: seq<Frame>) returns (ghost t: Tree)
      requires Token(s, c) && err == NoError && Stack(fs)
      modifies this, buf, sax
      ensures match ParsePrimitive(s, old(pos) - 1, conv)
              case None => err != NoError || (old(pos) <= pos && Doomed(s, fs, t))
              case Some(x) =>
                && err == NoError && t == x.tree && pos == x.end && old(pos) <= pos
                && Between(s) && HasValue(fs, t)
    {
      hide ScanNumber, ScanString, NumberMeaning, Stacked, Cached, Completed, Denotes;
      t := Null;
      ghost var i := pos - 1;
      if c == 0x78 {
        err := InvalidChar;
        return;
      }
      TokenInText(s, len, pos, c);
      if IsDigit(c) || c == MINUS {
        t := ParseNumberValue(s, c, fs);
      } else if c == QUOTE {
        BytesAhead(buf[..], s, pos - 1, pos);
        t := ParseStrInPlace(s, fs);
      } else if c == 0x66 {
        t := Bool(false);
        WordDenotes();
        ParseWord(FALSE_WORD, BoolNode(false), s, c, fs, t);
      } else if c == 0x74 {
        t := Bool(true);
        WordDenotes();
        ParseWord(TRUE_WORD, BoolNode(true), s, c, fs, t);
      } else if c == 0x6e {
        WordDenotes();
        ParseWord(NULL_WORD, NullNode, s, c, fs, t);
      } else {
        err := InvalidChar;
      }
    }

    // ---- the machine ----

    /** What each label stands for; c is the last byte read. */
    ghost predicate State(l: Label, s: Bytes, r: Option<Parsed>, c: byte, depth: seq<nat>, fs: seq<Frame>, t: Tree)
      reads this, buf, scan, sax
    {
      match l
      case ObjKey =>
        Token(s, c) && err == NoError && Stack(fs) && KeyIsDue(s, r, pos - 1, depth, fs, conv)
      case ArrVal =>
        Token(s, c) && err == NoError && Stack(fs) && fs != [] && ValueDue(s, r, pos - 1, depth, fs, conv)
      case Cont =>
        Token(s, c) && err == NoError && HasValue(fs, t) && Behind(s, r, pos - 1, depth, fs, t, conv)
      case ScopeEnd =>
        Between(s) && pos <= len && err == NoError && HasValue(fs, t) && Closed(s, r, pos, depth, fs, t, conv)
      case DocEnd =>
        Between(s) && pos <= len && err == NoError && HasValue([], t) && r == Some(Parsed(t, pos))
      case Fail => err != NoError && r == None
    }

    /** Each turn of the machine reads on, or closes a container and then reads on. */
    function Turns(l: Label): int
      reads this
    {
      2 * (len + 4 - pos) + if l == Cont then 1 else 0
    }

    /** The bracket c, pushed; and the byte behind it. */
    method OpenBracket(c: byte, ghost s: Bytes, ghost fs: seq<Frame>) returns (cNext: byte)
      requires Token(s, c) && (c == OPEN_ARRAY || c == OPEN_OBJECT) && Stack(fs)
      modifies this`pos, scan, sax
      ensures Token(s, cNext) && pos == Skip(s, old(pos)) + 1 && old(pos) < pos && Stack(fs + [Empty(c)])
    {
      hide Stacked, Completed, Cached;
      TokenInText(s, len, pos, c);
      BytesAhead(buf[..], s, pos - 1, pos);
      sax.Start(buf[..pos], fs, Empty(c));
      cNext := SkipSpace(s, fs + [Empty(c)], Null);
    }

    /** The bracket that closes the innermost container; `count` is what the vector says. */
    method CloseBracket(c: byte, count: nat, ghost s: Bytes, ghost fs: seq<Frame>)
      requires Token(s, c) && Stack(fs) && fs != [] && !Top(fs).AtValue? && count == Count(Top(fs))
      requires c == CloseOf(Top(fs))
      modifies sax
      ensures HasValue(Below(fs), Whole(Top(fs))) && Between(s) && pos <= len
    {
      hide Stacked, Completed, Cached;
      TokenInText(s, len, pos, c);
      BytesAhead(buf[..], s, pos - 1, pos);
      if c == CLOSE_ARRAY {
        sax.EndArray(count, buf[..pos], fs);
      } else {
        sax.EndObject(count, buf[..pos], fs);
      }
    }

    /** The bracket c opens a container inside fs. */
    method Open(c: byte, depth: seq<nat>, ghost s: Bytes, ghost r: Option<Parsed>, ghost fs: seq<Frame>)
      returns (l: Label, cNext: byte, depthNext: seq<nat>, ghost gs: seq<Frame>, ghost t: Tree)
      requires Token(s, c) && err == NoError && Stack(fs) && ValueDue(s, r, pos - 1, depth, fs, conv)
      requires c == OPEN_ARRAY || c == OPEN_OBJECT
      modifies this`pos, scan, sax
      ensures old(pos) < pos && (l == ObjKey || l == ArrVal || l == ScopeEnd)
      ensures State(l, s, r, cNext, depthNext, gs, t)
    {
      hide ValueDue, KeyIsDue, Closed, Skip, Stack, HasValue, Between, Token;
      gs, t := fs + [Empty(c)], Whole(Empty(c));
      TokenIs(s, c);
      OpenStep(s, r, pos - 1, c, depth, fs, conv);
      depthNext := depth + [if c == OPEN_ARRAY then ARR_MASK else 0];
      cNext := OpenBracket(c, s, fs);
      TokenIs(s, cNext);
      if cNext == if c == OPEN_ARRAY then CLOSE_ARRAY else CLOSE_OBJECT {
        CloseBracket(cNext, 0, s, gs);
        l, gs := ScopeEnd, fs;
      } else {
        l := if c == OPEN_ARRAY then ArrVal else ObjKey;
      }
    }

    /** A value inside fs, whose first byte is c. */
    method Element(c: byte, depth: seq<nat>, ghost s: Bytes, ghost r: Option<Parsed>, ghost fs: seq<Frame>)
      returns (l: Label, cNext: byte, depthNext: seq<nat>, ghost gs: seq<Frame>, ghost t: Tree)
      requires Token(s, c) && err == NoError && Stack(fs) && fs != [] && ValueDue(s, r, pos - 1, depth, fs, conv)
      modifies this, buf, scan, sax
      ensures l != Fail ==> old(pos) < pos
      ensures l != DocEnd && State(l, s, r, cNext, depthNext, gs, t)
    {
      hide ValueDue, KeyIsDue, Behind, Closed, Skip, Stack, HasValue, Between, ParsePrimitive, Token;
      TokenIs(s, c);
      if c == OPEN_ARRAY || c == OPEN_OBJECT {
        l, cNext, depthNext, gs, t := Open(c, depth, s, r, fs);
      } else {
        ScalarStep(s, r, pos - 1, c, depth, fs, conv);
        cNext, depthNext, gs := c, depth, fs;
        t := ParsePrimitives(c, s, fs);
        if err != NoError {
          l := Fail;
        } else {
          ghost var j := pos;
          StopsAtPoint(s, j);
          cNext := SkipSpace(s, fs, t);
          l := Cont;
          if ParsePrimitive(s, old(pos) - 1, conv) == None {
            DoomedStep(s, r, old(pos) - 1, j, depth, fs, t, conv);
          }
        }
      }
    }

    /** A key, its colon and the first byte of its value. */
    method KeyAndColon(c: byte, ghost s: Bytes, ghost fs: seq<Frame>) returns (cNext: byte, ghost key: Bytes)
      requires Token(s, c) && err == NoError && Stack(fs) && fs != [] && Top(fs).InObject?
      modifies this, buf, scan, sax
      ensures match ParseKey(s, old(pos) - 1)
              case None => err != NoError
              case Some(k) =>
                err == NoError && key == k.key && pos == k.value + 1 && old(pos) < pos &&
                Token(s, cNext) && Stack(PushKey(fs, key))
    {
      hide Stack, HasValue, Between, ScanString, Skip, PushKey, Token;
      TokenIs(s, c);
      cNext, key := c, [];
      if c != QUOTE {
        err := InvalidChar;
        return;
      }
      BehindToken(s, c);
      key := ParseKeyInPlace(s, fs);
      if err == NoError {
        cNext := Colon(s, PushKey(fs, key));
      }
    }

    /** The colon behind a key and the first byte behind it. */
    method Colon(ghost s: Bytes, ghost fs: seq<Frame>) returns (cNext: byte)
      requires Between(s) && err == NoError && Stack(fs)
      modifies this, scan
      ensures if Peek(s, Skip(s, old(pos))) != COLON then err != NoError
              else err == NoError && pos == Skip(s, Skip(s, old(pos)) + 1) + 1 && Token(s, cNext) && Stack(fs)
    {
      hide Stack, HasValue, Between, Skip, Token;
      cNext := SkipSpace(s, fs, Null);
      TokenIs(s, cNext);
      if cNext != COLON {
        err := InvalidChar;
        return;
      }
      BehindToken(s, cNext);
      cNext := SkipSpace(s, fs, Null);
    }

    /** A key whose opening quote has been read. */
    method ParseKeyInPlace(ghost s: Bytes, ghost fs: seq<Frame>) returns (ghost key: Bytes)
      requires Between(s) && pos <= len && err == NoError && Stack(fs) && fs != [] && Top(fs).InObject?
      modifies this, buf, sax
      ensures match ScanString(s, old(pos))
              case None => err != NoError
              case Some(x) =>
                && err == NoError && key == x.bytes && pos == x.end && old(pos) < pos
                && Between(s) && Stack(PushKey(fs, key))
    {
      hide ScanString, Stacked, Cached, Completed;
      key := [];
      var start := pos;
      var n := ParseString(s, fs);
      if err == NoError {
        ghost var b := buf[..pos];
        assert b[start..start + n] == buf[start..start + n];
        key := b[start..start + n];
        sax.Key(start, n, b, fs, key);
      }
    }

    /** obj_key: a member. */
    method MemberStep(c: byte, depth: seq<nat>, ghost s: Bytes, ghost r: Option<Parsed>, ghost fs: seq<Frame>)
      returns (l: Label, cNext: byte, depthNext: seq<nat>, ghost gs: seq<Frame>, ghost t: Tree)
      requires Token(s, c) && err == NoError && Stack(fs) && KeyIsDue(s, r, pos - 1, depth, fs, conv)
      modifies this, buf, scan, sax
      ensures l != Fail ==> old(pos) < pos
      ensures l != DocEnd && State(l, s, r, cNext, depthNext, gs, t)
    {
      hide ValueDue, Behind, Closed, Skip, Stack, HasValue, Between, ParseKey, KeyIsDue, Token;
      TokenIs(s, c);
      KeyFrame(s, r, pos - 1, depth, fs, conv);
      KeyStep(s, r, pos - 1, depth, fs, conv);
      depthNext, gs, t := depth, fs, Null;
      ghost var key;
      cNext, key := KeyAndColon(c, s, fs);
      if err != NoError {
        l := Fail;
        return;
      }
      l, cNext, depthNext, gs, t := Element(cNext, depth, s, r, PushKey(fs, key));
    }

    /** arr_cont and obj_cont: the byte behind a value. */
    method ContStep(c: byte, depth: seq<nat>, ghost s: Bytes, ghost r: Option<Parsed>, ghost fs: seq<Frame>,
        ghost t: Tree) returns (l: Label, cNext: byte, depthNext: seq<nat>, ghost gs: seq<Frame>, ghost u: Tree)
      requires State(Cont, s, r, c, depth, fs, t)
      modifies this, scan, sax
      ensures Turns(l) < old(Turns(Cont)) || l == Fail
      ensures l != DocEnd && State(l, s, r, cNext, depthNext, gs, u)
    {
      hide ValueDue, KeyIsDue, Closed, Behind, Skip, Between, Stack, HasValue, Push, Token;
      TokenIs(s, c);
      PunctuationStep(s, r, pos - 1, c, depth, fs, t, conv);
      Kinds(s, r, pos - 1, depth, fs, t, conv);
      PushValue(fs, t);
      depthNext := Bumped(depth);
      gs, u, cNext := Push(fs, t), t, c;
      var isArr := depth[|depth| - 1] >= ARR_MASK;
      if c == COMMA {
        BehindToken(s, c);
        cNext := SkipSpace(s, gs, Null);
        l := if isArr then ArrVal else ObjKey;
      } else if c == if isArr then CLOSE_ARRAY else CLOSE_OBJECT {
        CloseBracket(c, depthNext[|depthNext| - 1] % ARR_MASK, s, gs);
        u := Whole(Top(gs));
        gs := Below(gs);
        l := ScopeEnd;
      } else {
        err := InvalidChar;
        l := Fail;
      }
    }

    /** The value on top of the stack, taken into its container. */
    lemma PushValue(fs: seq<Frame>, t: Tree)
      requires HasValue(fs, t) && fs != [] && !Top(fs).InObject?
      ensures Stack(Push(fs, t))
    {
      hide Stacked, Completed, Push;
      CompletedPush(buf[..pos], sax.st, sax.np, sax.parent, fs, t);
    }

    /** scope_end: a container has been closed. */
    method ScopeStepOn(depth: seq<nat>, ghost s: Bytes, ghost r: Option<Parsed>, ghost fs: seq<Frame>, ghost t: Tree)
      returns (l: Label, c: byte, depthNext: seq<nat>)
      requires Between(s) && pos <= len && err == NoError && HasValue(fs, t) && Closed(s, r, pos, depth, fs, t, conv)
      modifies this`pos, scan
      ensures l == Cont || l == DocEnd
      ensures l == Cont ==> old(pos) < pos
      ensures State(l, s, r, c, depthNext, fs, t)
    {
      hide Closed, Behind, Skip, Between, HasValue, Token;
      ScopeStep(s, r, pos, depth, fs, t, conv);
      c := 0;
      depthNext := depth[..|depth| - 1];
      if depthNext == [] {
        l := DocEnd;
      } else {
        c := SkipSpace(s, fs, t);
        l := Cont;
      }
    }

    predicate Running(l: Label) { l != DocEnd && l != Fail }

    lemma TurnsLeft(l: Label, s: Bytes, r: Option<Parsed>, c: byte, depth: seq<nat>, fs: seq<Frame>, t: Tree)
      requires State(l, s, r, c, depth, fs, t) && Running(l)
      ensures Turns(l) > 0
    {
      hide ValueDue, KeyIsDue, Behind, Closed, Stack, HasValue, Cached;
    }

    /** The labels of the source, from the opening bracket of the document to its end. */
    method Machine(first: byte, ghost s: Bytes, ghost r: Option<Parsed>) returns (ghost t: Tree)
      requires Token(s, first) && err == NoError && Stack([]) && ValueDue(s, r, pos - 1, [], [], conv)
      requires (first == OPEN_ARRAY || first == OPEN_OBJECT)
      modifies this, buf, scan, sax
      ensures if err == NoError then r == Some(Parsed(t, pos)) && pos <= len && Between(s) && HasValue([], t)
              else r == None
    {
      hide ValueDue, KeyIsDue, Behind, Closed, Stack, HasValue, Token, Between;
      var l, c, depth;
      ghost var fs;
      l, c, depth, fs, t := Open(first, [], s, r, []);
      while Running(l)
        invariant State(l, s, r, c, depth, fs, t)
        decreases if Running(l) then Turns(l) else 0
      {
        TurnsLeft(l, s, r, c, depth, fs, t);
        match l {
          case ObjKey => l, c, depth, fs, t := MemberStep(c, depth, s, r, fs);
          case ArrVal => l, c, depth, fs, t := Element(c, depth, s, r, fs);
          case Cont => l, c, depth, fs, t := ContStep(c, depth, s, r, fs, t);
          case ScopeEnd => l, c, depth := ScopeStepOn(depth, s, r, fs, t);
        }
        if Running(l) {
          TurnsLeft(l, s, r, c, depth, fs, t);
        }
      }
    }

    /** The whole text up to the end of its value. */
    method ParseImpl(ghost s: Bytes) returns (ghost r: Option<Parsed>, ghost t: Tree)
      requires Between(s) && pos == 0 && err == NoError && Stack([])
      modifies this, buf, scan, sax
      ensures r == ParseValue(s, Skip(s, 0), conv)
      ensures if err != NoError then r == None || r.value.end > len
              else if r == None then Doomed(s, [], t)
              else r == Some(Parsed(t, pos)) && pos <= len && Between(s) && HasValue([], t)
    {
      hide ValueDue, KeyIsDue, Behind, Closed, Skip, Between, Stack, HasValue, ParseValue, ParsePrimitive, Token;
      PaddedText(s);
      SkipInside(s, len, 0);
      var c := SkipSpace(s, [], Null);
      r, t := ParseValue(s, Skip(s, 0), conv), Null;
      TokenIs(s, c);
      RootDue(s, pos - 1, conv);
      if c == OPEN_ARRAY || c == OPEN_OBJECT {
        t := Machine(c, s, r);
      } else {
        ScalarStep(s, r, pos - 1, c, [], [], conv);
        t := ParsePrimitives(c, s, []);
        if err == NoError && c == QUOTE && pos > len {
          err := InvalidChar;
        } else if err == NoError && c != QUOTE {
          ScalarEnds(s, len, c, Skip(s, 0), conv);
        }
      }
    }

    /** Anything but white space before the end of the text. */
    method HasTrailingChars(ghost s: Bytes) returns (found: bool)
      requires Between(s) && pos <= len
      modifies this`pos
      ensures found <==> Skip(s, old(pos)) < len
      ensures old(pos) <= pos <= len
    {
      hide Skip, Cached, IsSpace;
      ghost var start := pos;
      SkipInside(s, len, pos);
      while pos < len
        invariant start <= pos <= len && Skip(s, pos) == Skip(s, start)
      {
        BytesAhead(buf[..], s, start, pos);
        HeadByte(buf[..], s, pos);
        if !IsSpace(buf[pos]) {
          NoSkip(s, pos);
          return true;
        }
        SkipOne(s, pos);
        pos := pos + 1;
      }
      AtLeast(s, len);
      return false;
    }

    /** The parser as its callers see it: the text is accepted exactly when it is a JSON text whose numbers
        are in range, and then slot 0 of the stack holds its tree, the strings as stretches of the buffer. */
    method Parse(ghost s: Bytes)
      requires Between(s) && pos == 0 && err == NoError && Stack([])
      modifies this, buf, scan, sax
      ensures match ParseDocument(s, len, conv)
              case None => err != NoError
              case Some(t) =>
                err == NoError && sax.np == 1 && sax.parent == 0 && |sax.st| > 0 && Denotes(buf[..], sax.st[0], t)
    {
      hide Skip, Between, ParseValue, Stack, HasValue;
      PaddedText(s);
      ghost var r, t := ParseImpl(s);
      ghost var end := pos;
      if err == NoError {
        StopsAtPoint(s, pos);
        RootNode(t);
        var trailing := HasTrailingChars(s);
        SkipInside(s, len, end);
        if trailing {
          err := InvalidChar;
        }
      }
    }

    lemma PaddedText(s: Bytes)
      requires Between(s)
      ensures Padded(s, len)
    {}

    lemma RootNode(t: Tree)
      requires HasValue([], t)
      ensures sax.np == 1 && sax.parent == 0 && |sax.st| > 0 && Denotes(buf[..], sax.st[0], t)
    {
      hide Denotes;
      assert buf[..pos] <= buf[..];
      DenotesMore(buf[..pos], buf[..], sax.st[0], t);
    }
  }

  lemma NumberDenotes(b: Bytes, node: Node, t: Tree)
    requires match node
             case UintNode(u) => t == Uint(u)
             case IntNode(i) => t == Int(i)
             case DoubleNode(bits) => t == Double(bits)
             case _ => false
    ensures Denotes(b, node, t)
  {}

  lemma StopsAtPoint(s: Bytes, j: nat)
    ensures Peek(s, j) == DOT ==> Skip(s, j) == j
  {}

  lemma BytesAhead(d: Bytes, s: Bytes, i: nat, j: nat)
    requires i <= j <= |d| == |s| && d[i..] == s[i..]
    ensures d[j..] == s[j..]
  {
    assert d[j..] == d[i..][j - i..] && s[j..] == s[i..][j - i..];
  }

  lemma MorePrefix(b: Bytes, c: Bytes, st: seq<Node>, np: nat, parent: nat, fs: seq<Frame>, t: Tree)
    requires b <= c
    ensures Stacked(b, st, np, parent, fs) ==> Stacked(c, st, np, parent, fs)
    ensures Completed(b, st, np, parent, fs, t) ==> Completed(c, st, np, parent, fs, t)
  {
    hide Stacked, Denotes;
    if Stacked(b, st, np, parent, fs) {
      StackedMore(b, c, st, np, parent, fs);
    }
    if Completed(b, st, np, parent, fs, t) {
      StackedMore(b, c, st, np - 1, parent, fs);
      DenotesMore(b, c, st[np - 1], t);
    }
  }

  lemma StringEnd(s: Bytes, n: nat, i: nat)
    requires Padded(s, n) && i <= n
    ensures ScanString(s, i).Some? ==>
              i < ScanString(s, i).value.end && (ScanString(s, i).value.end <= n || ScanString(s, i).value.end == n + 2)
  {
    if ScanString(s, i).Some? {
      StringInside(s, n, i);
    }
  }

  lemma CachedAhead(s: Bytes, i: nat, j: nat, end: nat, bits: Bits.word)
    requires Cached(s, i, end, bits) && i <= j
    ensures Cached(s, j, end, bits)
  {
    hide Bits.Bit;
  }

  lemma HeadByte(d: Bytes, s: Bytes, i: nat)
    requires i < |d| == |s| && d[i..] == s[i..]
    ensures d[i] == s[i]
  {
    assert d[i..][0] == s[i..][0];
  }

  /** The bytes before pos may have been rewritten, but not the first byte of this token. */
  lemma WordMatches(d: Bytes, s: Bytes, i: nat, word: Bytes)
    requires 1 <= i && 0 < |word| && i + |word| <= |d| == |s| && d[i..] == s[i..] && d[i - 1] == s[i - 1]
    ensures At(s, i - 1, word) <==> d[i..i + |word| - 1] == word[1..] && d[i - 1] == word[0]
  {
    var a := s[i - 1..i - 1 + |word|];
    assert d[i..i + |word| - 1] == d[i..][..|word| - 1] == s[i..][..|word| - 1] == a[1..];
    assert a == [a[0]] + a[1..] && word == [word[0]] + word[1..];
  }

  lemma FreshText(d: Bytes, s: Bytes, n: nat, i: nat)
    requires Padded(s, n) && i <= n && |d| == |s| && d[i..] == s[i..]
    ensures Fresh(d, s, n, i)
  {
    SameBytes(d, s, i);
  }

  lemma ReadsWhat(s: Bytes, i: nat, err: Error, end: nat, x: Literal, kept: nat, n: nat)
    requires Reads(ScanNumber(s, i), err, end, x, kept, n)
    ensures match ScanNumber(s, i)
            case None => err != NoError
            case Some(r) => err == NoError && end == r.end <= n && Describes(x, r.n, kept)
  {}

  /** A token that is not the end mark's x starts inside the text. */
  lemma TokenInText(s: Bytes, n: nat, pos: nat, c: byte)
    requires Padded(s, n) && 1 <= pos <= |s| && (pos - 1 <= n || pos - 1 == n + 2) && c == s[pos - 1] && c != 0x78
    ensures pos <= n
  {}

  lemma StringDenotes(b: Bytes, off: nat, n: nat)
    requires off + n <= |b|
    ensures Denotes(b, StringNode(off, n), String(b[off..off + n]))
  {}

  lemma WordDenotes()
    ensures Denotes([], NullNode, Null) && Denotes([], BoolNode(true), Bool(true)) &&
            Denotes([], BoolNode(false), Bool(false))
  {}

  lemma TokenPeek(s: Bytes, n: nat, pos: nat, c: byte)
    requires Padded(s, n) && 1 <= pos <= |s| && (pos - 1 <= n || pos - 1 == n + 2) && c == s[pos - 1]
    ensures Peek(s, pos - 1) == c && (c != 0x78 ==> pos <= n)
  {}

  lemma KeyFrame(s: Bytes, r: Option<Parsed>, i: nat, depth: seq<nat>, fs: seq<Frame>, conv: Conversion)
    requires KeyIsDue(s, r, i, depth, fs, conv)
    ensures fs != [] && Top(fs).InObject?
  {}

  /** What the vector says of the innermost container, before and after counting the value. */
  lemma Kinds(s: Bytes, r: Option<Parsed>, j: nat, depth: seq<nat>, fs: seq<Frame>, t: Tree, conv: Conversion)
    requires Behind(s, r, j, depth, fs, t, conv) && j + 2 < 2 * ARR_MASK
    ensures fs != [] && !Top(fs).InObject? && depth != []
    ensures depth[|depth| - 1] >= ARR_MASK <==> Top(fs).InArray?
    ensures Bumped(depth)[|depth| - 1] % ARR_MASK == Count(Top(Push(fs, t)))
  {
    hide Counted, Small, Punctuated, Bumped;
    PushCounts(depth, fs, t, j);
    EntryKind(depth, fs, j);
    EntryKind(Bumped(depth), Push(fs, t), j + 2);
    BumpedSize(depth);
  }

  lemma BumpedSize(depth: seq<nat>)
    requires depth != []
    ensures |Bumped(depth)| == |depth|
  {}

  lemma RootDue(s: Bytes, i: nat, conv: Conversion)
    ensures ValueDue(s, ParseValue(s, i, conv), i, [], [], conv)
  {
    hide ParseValue, Finished, Due;
    DueIs(s, i, [], conv);
    var x := ParseValue(s, i, conv);
    if x.Some? {
      FinishedAlone(s, x.value.tree, x.value.end, [], conv);
    }
  }

  lemma ScalarEnds(s: Bytes, n: nat, c: byte, i: nat, conv: Conversion)
    requires Padded(s, n) && i <= n && Peek(s, i) == c && c != QUOTE && c != OPEN_ARRAY && c != OPEN_OBJECT
    ensures ParseValue(s, i, conv).Some? ==> ParseValue(s, i, conv).value.end <= n
  {
    hide ParsePrimitive;
    ScalarIs(s, i, conv);
    if ParsePrimitive(s, i, conv).Some? {
      PrimitiveInside(s, n, i, conv);
    }
  }

  lemma SkipOne(s: Bytes, i: nat)
    requires i < |s| && IsSpace(s[i])
    ensures Skip(s, i) == Skip(s, i + 1)
  {}

  lemma AtLeast(s: Bytes, i: nat)
    ensures Skip(s, i) >= i
  {}
}
