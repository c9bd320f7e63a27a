/** Escaped text, and tokens stacked in one buffer with escaped delimiters. */
module Escapes {
  import opened Basics

  type Bytes = seq<Byte>

  const BACKSLASH: Byte := 0x5c
  const DOT: Byte := 0x2e

  // ----- the predicates

  function EscapeCharPred(c: int): int {
    match c
    case 8 => 'b' as int
    case 12 => 'f' as int
    case 10 => 'n' as int
    case 13 => 'r' as int
    case 9 => 't' as int
    case 11 => 'v' as int
    case 39 => 39
    case 92 => 92
    case _ => if c < 0x20 || c == 127 then 'x' as int else 0
  }

  function UnescapeCharPred(c: int): int {
    if c == 'b' as int then 8
    else if c == 'f' as int then 12
    else if c == 'n' as int then 10
    else if c == 'r' as int then 13
    else if c == 't' as int then 9
    else if c == 'v' as int then 11
    else if c == 39 then 39
    else if c == 92 then 92
    else 0
  }

  function IsDotChar(c: int): int { if c == DOT then 1 else 0 }

  function EscapeCharLetter(b: Byte): int {
    match b
    case 0 => '0' as int
    case 7 => 'a' as int
    case 8 => 'b' as int
    case 9 => 't' as int
    case 10 => 'n' as int
    case 11 => 'v' as int
    case 12 => 'f' as int
    case 13 => 'r' as int
    case 92 => 92
    case 39 => 39
    case _ => 0
  }

  // ----- dbuf_put_escaped_pred

  function HexDigit(n: nat): Byte
    requires n < 16
  {
    if n < 10 then 0x30 + n else 0x61 + n - 10
  }

  /** printf's %x of a char: a negative one is an int with all upper bits set. */
  function Hex(b: Byte, zeros: nat): Bytes {
    (if b < 128 then seq(zeros, _ => 0x30 as Byte) else seq(6, _ => 0x66 as Byte))
    + [HexDigit(b / 16), HexDigit(b % 16)]
  }

  /** What one character is written as. */
  function Code(b: Byte, pred: int -> int): (e: Bytes)
    ensures |e| >= 1
  {
    var r := pred(SignedChar(b));
    if r == 0 then [b]
    else if b == 0x1b then [BACKSLASH, 0x78, 0x31, 0x62]
    else
      var letter: Byte := if 1 < r <= 127 then r else if EscapeCharLetter(b) != 0 then EscapeCharLetter(b) else b;
      [BACKSLASH, letter]
      + if r == 'u' as int then Hex(b, 2) else if r == 'x' as int then Hex(b, 0) else []
  }

  function Escaped(s: Bytes, pred: int -> int): Bytes {
    if s == [] then [] else Code(s[0], pred) + Escaped(s[1..], pred)
  }

  lemma {:induction false} EscapedConcat(s: Bytes, t: Bytes, pred: int -> int)
    ensures Escaped(s + t, pred) == Escaped(s, pred) + Escaped(t, pred)
  {
    hide Code;
    if s == [] {
      assert s + t == t;
    } else {
      EscapedConcat(s[1..], t, pred);
      assert (s + t)[1..] == s[1..] + t;
      Regroup(Code(s[0], pred), Escaped(s[1..], pred), Escaped(t, pred));
    }
  }

  lemma {:induction false} EscapedPlain(s: Bytes, pred: int -> int)
    requires forall i :: 0 <= i < |s| ==> pred(SignedChar(s[i])) == 0
    ensures Escaped(s, pred) == s
  {
    if s != [] {
      EscapedPlain(s[1..], pred);
    }
  }

  lemma Passed(str: Bytes, i: nat, j: nat, pred: int -> int)
    requires i <= j <= |str| && forall k :: i <= k < j ==> pred(SignedChar(str[k])) == 0
    ensures Escaped(str[..j], pred) == Escaped(str[..i], pred) + str[i..j]
  {
    hide Code, Escaped;
    EscapedConcat(str[..i], str[i..j], pred);
    EscapedPlain(str[i..j], pred);
    assert str[..j] == str[..i] + str[i..j];
  }

  lemma EscapedNone(str: Bytes, pred: int -> int)
    ensures Escaped(str[..0], pred) == [] && str[..|str|] == str
  {
  }

  lemma EscapedSingle(b: Byte, pred: int -> int)
    ensures Escaped([b], pred) == Code(b, pred)
  {
    assert Escaped([b], pred) == Code(b, pred) + Escaped([], pred);
  }

  lemma OneMore(str: Bytes, i: nat, pred: int -> int)
    requires i < |str|
    ensures Escaped(str[..i + 1], pred) == Escaped(str[..i], pred) + Code(str[i], pred)
  {
    hide Code, Escaped;
    EscapedConcat(str[..i], [str[i]], pred);
    EscapedSingle(str[i], pred);
    assert str[..i + 1] == str[..i] + [str[i]];
  }

  /** No character's code begins another's. */
  lemma CodesDiffer(b: Byte, c: Byte, u: Bytes, v: Bytes)
    requires Code(b, EscapeCharPred) + u == Code(c, EscapeCharPred) + v
    ensures b == c && u == v
  {
    var s, d, e := Code(b, EscapeCharPred) + u, Code(b, EscapeCharPred), Code(c, EscapeCharPred);
    assert s[..|d|] == d && s[..|e|] == e;
    SameCode(b, c, s);
    assert s[|d|..] == u && s[|d|..] == v;
  }

  lemma SameCode(b: Byte, c: Byte, s: Bytes)
    requires Code(b, EscapeCharPred) <= s && Code(c, EscapeCharPred) <= s
    ensures b == c
  {
    var d, e := Code(b, EscapeCharPred), Code(c, EscapeCharPred);
    assert s[0] == d[0] == e[0];
    if EscapeCharPred(SignedChar(b)) != 0 && EscapeCharPred(SignedChar(c)) != 0 {
      assert s[1] == d[1] == e[1];
      if d[1] == 0x78 {
        SameHex(b, c, s);
      }
    }
  }

  lemma SameHex(b: Byte, c: Byte, s: Bytes)
    requires EscapeCharPred(SignedChar(b)) != 0 && EscapeCharPred(SignedChar(c)) != 0
    requires Code(b, EscapeCharPred)[1] == 0x78 && Code(c, EscapeCharPred)[1] == 0x78
    requires Code(b, EscapeCharPred) <= s && Code(c, EscapeCharPred) <= s
    ensures b == c
  {
    var d, e := Code(b, EscapeCharPred), Code(c, EscapeCharPred);
    SpelledInHex(b);
    SpelledInHex(c);
    hide Code, EscapeCharPred;
    assert s[2] == d[2..][0] == e[2..][0] && s[3] == d[2..][1] == e[2..][1];
    if d[2] == 0x66 {
      assert s[8] == d[2..][6] == e[2..][6] && s[9] == d[2..][7] == e[2..][7];
    }
  }

  /** A character written with x is two hexadecimal digits below 0x80, or ffffff and two more from there on. */
  lemma SpelledInHex(b: Byte)
    requires EscapeCharPred(SignedChar(b)) != 0 && Code(b, EscapeCharPred)[1] == 0x78
    ensures b < 128 ==> Code(b, EscapeCharPred)[2..] == [HexDigit(b / 16), HexDigit(b % 16)] && HexDigit(b / 16) != 0x66
    ensures b >= 128 ==>
              Code(b, EscapeCharPred)[2..]
              == [0x66, 0x66, 0x66, 0x66, 0x66, 0x66, HexDigit(b / 16), HexDigit(b % 16)]
  {
  }

  /** Whether a character is written as x and digits, which is never read back. */
  predicate InHex(b: Byte) { EscapeCharPred(SignedChar(b)) == 'x' as int }

  /** The value of a hexadecimal digit, -1 for any other character. */
  function HexValue(c: Byte): int {
    if '0' as int <= c <= '9' as int then c - '0' as int
    else if 'a' as int <= c <= 'f' as int then c - 'a' as int + 10
    else -1
  }

  /** The digits read as a number, or -1. */
  function ReadHex(s: Bytes): int {
    if s == [] then 0
    else if ReadHex(s[..|s|-1]) < 0 || HexValue(s[|s|-1]) < 0 then -1
    else 16 * ReadHex(s[..|s|-1]) + HexValue(s[|s|-1])
  }

  /** What the characters are written as: a letter for those that have one, hexadecimal digits for other
      control characters and from 127 on, and what is left as it is. */
  lemma CodesAre(b: Byte)
    ensures var e := Code(b, EscapeCharPred);
            match b
            case 8 => e == [92, 'b' as int]
            case 9 => e == [92, 't' as int]
            case 10 => e == [92, 'n' as int]
            case 11 => e == [92, 'v' as int]
            case 12 => e == [92, 'f' as int]
            case 13 => e == [92, 'r' as int]
            case 39 => e == [92, 39]
            case 92 => e == [92, 92]
            case _ => if 32 <= b < 127 then e == [b]
                      else |e| == (if b < 128 then 4 else 10) && e[..2] == [92, 'x' as int]
                           && ReadHex(e[2..]) == if b < 128 then b else 0xffff_ff00 + b
  {
    if InHex(b) {
      SpelledInHex(b);
      if b < 128 {
        ReadTwo(HexDigit(b / 16), HexDigit(b % 16));
      } else {
        ReadEight(HexDigit(b / 16), HexDigit(b % 16));
      }
    }
  }

  lemma ReadTwo(c: Byte, d: Byte)
    requires HexValue(c) >= 0 && HexValue(d) >= 0
    ensures ReadHex([c, d]) == 16 * HexValue(c) + HexValue(d)
  {
    ReadMore([], c);
    ReadMore([c], d);
    assert [] + [c] == [c] && [c] + [d] == [c, d];
  }

  lemma ReadEight(c: Byte, d: Byte)
    requires HexValue(c) >= 0 && HexValue(d) >= 0
    ensures ReadHex([0x66, 0x66, 0x66, 0x66, 0x66, 0x66, c, d]) == 0xffff_ff00 + 16 * HexValue(c) + HexValue(d)
  {
    hide ReadHex;
    var f: Byte := 0x66;
    ReadTwo(f, f);
    var three, four, five, six := [f, f] + [f], [f, f, f] + [f], [f, f, f, f] + [f], [f, f, f, f, f] + [f];
    assert three == [f, f, f] && four == [f, f, f, f] && five == [f, f, f, f, f];
    ReadMore([f, f], f);
    ReadMore(three, f);
    ReadMore(four, f);
    ReadMore(five, f);
    ReadMore(six, c);
    ReadMore(six + [c], d);
    assert six + [c] + [d] == [f, f, f, f, f, f, c, d];
  }

  lemma ReadMore(s: Bytes, c: Byte)
    requires ReadHex(s) >= 0 && HexValue(c) >= 0
    ensures ReadHex(s + [c]) == 16 * ReadHex(s) + HexValue(c)
  {
    assert (s + [c])[..|s|] == s;
  }

  /** Different texts are escaped differently. */
  lemma {:induction false} EscapedInjective(s: Bytes, t: Bytes)
    requires Escaped(s, EscapeCharPred) == Escaped(t, EscapeCharPred)
    ensures s == t
  {
    if s != [] && t != [] {
      CodesDiffer(s[0], t[0], Escaped(s[1..], EscapeCharPred), Escaped(t[1..], EscapeCharPred));
      EscapedInjective(s[1..], t[1..]);
      assert s == [s[0]] + s[1..] && t == [t[0]] + t[1..];
    }
  }

  // ----- dbuf_put_unescaped_pred

  /** What a backslash and the character after it become. */
  function Decoded(b: Byte, pred: int -> int): Bytes {
    var r := pred(SignedChar(b));
    (if r == 0 then [BACKSLASH] else []) + [if 1 < r < 256 then r as Byte else b]
  }

  /** beyond is the byte that follows the text: a backslash at its end reads that one. */
  function Unescaped(s: Bytes, beyond: Byte, pred: int -> int): Bytes
    decreases |s|
  {
    if s == [] then []
    else if s[0] != BACKSLASH then [s[0]] + Unescaped(s[1..], beyond, pred)
    else if |s| == 1 then Decoded(beyond, pred)
    else Decoded(s[1], pred) + Unescaped(s[2..], beyond, pred)
  }

  /** What unescaping leaves of an escaped text: hexadecimal escapes stay as they are. */
  function Left(s: Bytes): Bytes {
    if s == [] then []
    else (if InHex(s[0]) then Code(s[0], EscapeCharPred) else [s[0]]) + Left(s[1..])
  }

  lemma {:induction false} UnescapedRun(s: Bytes, t: Bytes, beyond: Byte, pred: int -> int)
    requires BACKSLASH !in s
    ensures Unescaped(s + t, beyond, pred) == s + Unescaped(t, beyond, pred)
  {
    if s == [] {
      assert s + t == t;
    } else {
      assert (s + t)[1..] == s[1..] + t;
      UnescapedRun(s[1..], t, beyond, pred);
    }
  }

  /** What is still to come at position i; past the end, nothing. */
  function UnescapedFrom(str: Bytes, i: nat, beyond: Byte, pred: int -> int): Bytes {
    if i <= |str| then Unescaped(str[i..], beyond, pred) else []
  }

  lemma AtEnds(str: Bytes, beyond: Byte, pred: int -> int)
    ensures UnescapedFrom(str, 0, beyond, pred) == Unescaped(str, beyond, pred)
    ensures forall i :: i >= |str| ==> UnescapedFrom(str, i, beyond, pred) == []
  {
    assert str[0..] == str;
  }

  lemma PastRun(str: Bytes, i: nat, j: nat, beyond: Byte, pred: int -> int)
    requires i + j <= |str| && BACKSLASH !in str[i..][..j]
    ensures UnescapedFrom(str, i, beyond, pred) == str[i..i + j] + UnescapedFrom(str, i + j, beyond, pred)
  {
    assert str[i..][..j] == str[i..i + j];
    assert str[i..] == str[i..i + j] + str[i + j..];
    UnescapedRun(str[i..i + j], str[i + j..], beyond, pred);
  }

  lemma PastPair(str: Bytes, i: nat, beyond: Byte, pred: int -> int)
    requires i < |str| && str[i] == BACKSLASH
    ensures UnescapedFrom(str, i, beyond, pred)
         == Decoded(if i + 1 < |str| then str[i + 1] else beyond, pred) + UnescapedFrom(str, i + 2, beyond, pred)
  {
    if i + 1 < |str| {
      assert str[i..][2..] == str[i + 2..];
    }
  }

  lemma UnescapedCode(b: Byte, t: Bytes, beyond: Byte)
    ensures Unescaped(Code(b, EscapeCharPred) + t, beyond, UnescapeCharPred)
         == (if InHex(b) then Code(b, EscapeCharPred) else [b]) + Unescaped(t, beyond, UnescapeCharPred)
  {
    var e := Code(b, EscapeCharPred);
    if EscapeCharPred(SignedChar(b)) == 0 {
      assert (e + t)[1..] == t;
    } else {
      EscapeShape(b);
      UnescapedPair(e, t, beyond);
      UnescapedRun(e[2..], t, beyond, UnescapeCharPred);
      Regroup(Decoded(e[1], UnescapeCharPred), e[2..], Unescaped(t, beyond, UnescapeCharPred));
    }
  }

  /** What follows a backslash is read as the character it stands for, or stays as it is with the backslash. */
  lemma PairsAre(b: Byte, t: Bytes, beyond: Byte)
    ensures var e := if b == 'b' as int then [8] else if b == 't' as int then [9] else if b == 'n' as int then [10]
                     else if b == 'v' as int then [11] else if b == 'f' as int then [12]
                     else if b == 'r' as int then [13] else if b == 39 || b == 92 then [b] else [92, b];
            Unescaped([92, b] + t, beyond, UnescapeCharPred) == e + Unescaped(t, beyond, UnescapeCharPred)
  {
    assert ([92, b] + t)[2..] == t;
  }

  lemma EscapeShape(b: Byte)
    requires EscapeCharPred(SignedChar(b)) != 0
    ensures var e := Code(b, EscapeCharPred);
            |e| >= 2 && e[0] == BACKSLASH && BACKSLASH !in e[2..]
            && Decoded(e[1], UnescapeCharPred) + e[2..] == if InHex(b) then e else [b]
  {
    if InHex(b) {
      SpelledInHex(b);
    }
  }

  lemma UnescapedPair(e: Bytes, t: Bytes, beyond: Byte)
    requires |e| >= 2 && e[0] == BACKSLASH
    ensures Unescaped(e + t, beyond, UnescapeCharPred)
         == Decoded(e[1], UnescapeCharPred) + Unescaped(e[2..] + t, beyond, UnescapeCharPred)
  {
    assert (e + t)[2..] == e[2..] + t;
  }

  lemma {:induction false} UnescapeLeaves(s: Bytes, beyond: Byte)
    ensures Unescaped(Escaped(s, EscapeCharPred), beyond, UnescapeCharPred) == Left(s)
    ensures |Left(s)| >= |s|
    ensures Left(s) == s <==> forall i :: 0 <= i < |s| ==> !InHex(s[i])
    ensures |Left(s)| == |s| ==> Left(s) == s
  {
    if s != [] {
      UnescapedCode(s[0], Escaped(s[1..], EscapeCharPred), beyond);
      UnescapeLeaves(s[1..], beyond);
      assert s == [s[0]] + s[1..];
      if InHex(s[0]) {
        assert |Left(s)| > |s|;
      } else {
        assert forall i :: 0 < i < |s| ==> s[i] == s[1..][i - 1];
        assert Left(s)[1..] == Left(s[1..]);
      }
    }
  }

  /** Unescaping undoes escaping exactly on texts that need no hexadecimal escape. */
  lemma {:induction false} UnescapeUndoes(s: Bytes, beyond: Byte)
    ensures Unescaped(Escaped(s, EscapeCharPred), beyond, UnescapeCharPred) == s
            <==> forall i :: 0 <= i < |s| ==> !InHex(s[i])
    ensures forall b: Byte :: InHex(b) <==> b >= 127 || (b < 32 && b !in {8, 9, 10, 11, 12, 13})
  {
    UnescapeLeaves(s, beyond);
  }

  /** An escape character does not come back. */
  lemma EscapeStays(beyond: Byte)
    ensures Unescaped(Escaped([0x1b], EscapeCharPred), beyond, UnescapeCharPred) != [0x1b]
  {
    UnescapeUndoes([0x1b], beyond);
    assert InHex([0x1b][0]);
  }

  // ----- dbuf_token_push and dbuf_token_pop, with dots

  /** A token in the buffer: only its dots are escaped. */
  function Token(t: Bytes): Bytes { Escaped(t, IsDotChar) }

  function Pushed(stack: Bytes, t: Bytes): Bytes {
    (if stack == [] then [] else stack + [DOT]) + Token(t)
  }

  /** A dot with no backslash right before it. */
  predicate BareAt(s: Bytes, p: int) { 0 <= p < |s| && s[p] == DOT && !(p > 0 && s[p - 1] == BACKSLASH) }

  /** What token_pop leaves: the buffer up to its last bare dot, with one exception when there is none. */
  ghost predicate IsPopped(s: Bytes, rest: Bytes) {
    if exists p :: BareAt(s, p) then
      |rest| < |s| && rest == s[..|rest|] && BareAt(s, |rest|) && forall p :: |rest| < p < |s| ==> !BareAt(s, p)
    else rest == if |s| >= 2 && s[0] == BACKSLASH && s[1] == DOT then s else []
  }

  lemma PoppedUnique(s: Bytes, a: Bytes, b: Bytes)
    requires IsPopped(s, a) && IsPopped(s, b)
    ensures a == b
  {
  }

  lemma {:induction false} TokenHasNoBareDot(t: Bytes, p: int)
    ensures !BareAt(Token(t), p)
    ensures t == [] <==> Token(t) == []
    ensures t != [] ==> Token(t)[0] == if t[0] == DOT then BACKSLASH else t[0]
    ensures |Token(t)| >= 2 && Token(t)[0] == BACKSLASH && Token(t)[1] == DOT <==> t != [] && t[0] == DOT
  {
    if t != [] {
      var e := Code(t[0], IsDotChar);
      assert e == if t[0] == DOT then [BACKSLASH, DOT] else [t[0]];
      assert Token(t) == e + Token(t[1..]);
      TokenHasNoBareDot(t[1..], p - |e|);
    }
  }

  /**
   * Popping undoes pushing, unless the buffer ends in a backslash, or the buffer is empty and the
   * token begins with a dot: then the pop removes too much, or nothing.
   */
  lemma PopUndoesPush(stack: Bytes, t: Bytes)
    ensures IsPopped(Pushed(stack, t), stack)
            <==> if stack == [] then t == [] || t[0] != DOT else stack[|stack| - 1] != BACKSLASH
  {
    var s, e := Pushed(stack, t), Token(t);
    forall p ensures !BareAt(e, p) {
      TokenHasNoBareDot(t, p);
    }
    if stack == [] {
      assert s == e;
      TokenHasNoBareDot(t, 0);
    } else {
      var n := |stack|;
      assert s == stack + [DOT] + e && s[n] == DOT;
      forall p | n < p < |s| ensures !BareAt(s, p) {
        NoneFrom(stack, e, p);
      }
      assert BareAt(s, n) <==> stack[n - 1] != BACKSLASH;
      assert s[..n] == stack;
    }
  }

  /** A backslash before the delimiter, and a token that begins with a dot in an empty buffer. */
  lemma PopDoesNotUndo()
    ensures !IsPopped(Pushed([BACKSLASH], [0x61]), [BACKSLASH])
    ensures !IsPopped(Pushed([], [DOT]), [])
  {
    PopUndoesPush([BACKSLASH], [0x61]);
    PopUndoesPush([], [DOT]);
  }

  lemma NoneFrom(stack: Bytes, e: Bytes, p: int)
    requires |stack| < p < |stack| + 1 + |e| && !BareAt(e, p - |stack| - 1)
    ensures !BareAt(stack + [DOT] + e, p)
  {
    var s := stack + [DOT] + e;
    assert s[p] == e[p - |stack| - 1];
    if p > |stack| + 1 {
      assert s[p - 1] == e[p - |stack| - 2];
    }
  }

  function PushAll(ts: seq<Bytes>): Bytes {
    if ts == [] then [] else Pushed(PushAll(ts[..|ts| - 1]), ts[|ts| - 1])
  }

  /** Tokens that can be stacked: the first is not empty and begins with no dot, none but the last ends
      in a backslash. */
  ghost predicate Stackable(ts: seq<Bytes>) {
    ts == [] || (ts[0] != [] && ts[0][0] != DOT
                 && forall i :: 0 <= i < |ts| - 1 && ts[i] != [] ==> ts[i][|ts[i]| - 1] != BACKSLASH)
  }

  lemma {:induction false} TokenEnd(t: Bytes)
    requires t != []
    ensures Token(t) != [] && Token(t)[|Token(t)| - 1] == t[|t| - 1]
  {
    if |t| == 1 {
      assert Token(t) == Code(t[0], IsDotChar) + Token(t[1..]);
      assert Token(t[1..]) == [];
    } else {
      TokenEnd(t[1..]);
    }
  }

  lemma {:induction false} PushAllEnd(ts: seq<Bytes>)
    requires ts != [] && Stackable(ts)
    ensures PushAll(ts) != []
    ensures PushAll(ts)[|PushAll(ts)| - 1] == if ts[|ts| - 1] == [] then DOT else ts[|ts| - 1][|ts[|ts| - 1]| - 1]
  {
    hide Token;
    var below, t := ts[..|ts| - 1], ts[|ts| - 1];
    TokenHasNoBareDot(t, 0);
    if below != [] {
      PushAllEnd(below);
    }
    if t != [] {
      TokenEnd(t);
    }
  }

  /** On such a stack every pop takes off exactly the token pushed last. */
  lemma {:induction false} PopsTheLast(ts: seq<Bytes>)
    requires ts != [] && Stackable(ts)
    ensures IsPopped(PushAll(ts), PushAll(ts[..|ts| - 1]))
    ensures Stackable(ts[..|ts| - 1])
  {
    hide IsPopped, Token;
    var below := ts[..|ts| - 1];
    if below != [] {
      PushAllEnd(below);
    }
    PopUndoesPush(PushAll(below), ts[|ts| - 1]);
  }

  lemma {:induction false} TokenInjective(t: Bytes, u: Bytes)
    requires Token(t) == Token(u)
    ensures t == u
  {
    TokenHasNoBareDot(t, 0);
    TokenHasNoBareDot(u, 0);
    if t != [] && u != [] {
      var d, e := Code(t[0], IsDotChar), Code(u[0], IsDotChar);
      assert Token(t) == d + Token(t[1..]) && Token(u) == e + Token(u[1..]);
      assert Token(t)[|d|..] == Token(t[1..]) && Token(u)[|e|..] == Token(u[1..]);
      TokenInjective(t[1..], u[1..]);
      assert t == [t[0]] + t[1..] && u == [u[0]] + u[1..];
    }
  }

  lemma SamePush(stack: Bytes, t: Bytes, u: Bytes)
    requires Pushed(stack, t) == Pushed(stack, u)
    ensures t == u
  {
    var n := if stack == [] then 0 else |stack| + 1;
    assert Pushed(stack, t)[n..] == Token(t) && Pushed(stack, u)[n..] == Token(u);
    TokenInjective(t, u);
  }

  /** The buffer determines the tokens. */
  lemma {:induction false} StackInjective(ts: seq<Bytes>, us: seq<Bytes>)
    requires Stackable(ts) && Stackable(us) && PushAll(ts) == PushAll(us)
    ensures ts == us
  {
    hide IsPopped, Pushed, Stackable;
    if ts != [] { PushAllEnd(ts); }
    if us != [] { PushAllEnd(us); }
    if ts != [] && us != [] {
      var ts', us' := ts[..|ts| - 1], us[..|us| - 1];
      PopsTheLast(ts);
      PopsTheLast(us);
      PoppedUnique(PushAll(ts), PushAll(ts'), PushAll(us'));
      StackInjective(ts', us');
      SamePush(PushAll(ts'), ts[|ts| - 1], us[|us| - 1]);
      assert ts == ts' + [ts[|ts| - 1]] && us == us' + [us[|us| - 1]];
    }
  }

  // ----- the buffer

  /** byte_chr: the first place of c, or the length. */
  method ByteChr(str: Bytes, c: Byte) returns (n: nat)
    ensures n <= |str| && c !in str[..n]
    ensures n < |str| ==> str[n] == c
  {
    n := 0;
    while n < |str| && str[n] != c
      invariant n <= |str| && c !in str[..n]
    {
      n := n + 1;
    }
  }

  /** byte_rchr: the last place of c, or the length. */
  method ByteRchr(str: Bytes, c: Byte) returns (n: nat)
    ensures n <= |str|
    ensures n < |str| ==> str[n] == c && forall k :: n < k < |str| ==> str[k] != c
    ensures n == |str| ==> c !in str
  {
    var t: int := |str|;
    while true
      decreases t
      invariant 0 <= t <= |str| && forall k :: t <= k < |str| ==> str[k] != c
    {
      t := t - 1;
      if t < 0 {
        return |str|;
      }
      if str[t] == c {
        return t;
      }
    }
  }

  /** predicate_find: the first character that the predicate picks, or the length. */
  method PredicateFind(str: Bytes, pred: int -> int) returns (pos: nat)
    ensures pos <= |str| && forall k :: 0 <= k < pos ==> pred(SignedChar(str[k])) == 0
    ensures pos < |str| ==> pred(SignedChar(str[pos])) != 0
  {
    pos := 0;
    while pos < |str|
      invariant pos <= |str| && forall k :: 0 <= k < pos ==> pred(SignedChar(str[k])) == 0
    {
      if pred(SignedChar(str[pos])) != 0 {
        break;
      }
      pos := pos + 1;
    }
  }

  class DynBuf {
    var buf: Bytes

    constructor ()
      ensures buf == []
    {
      buf := [];
    }

    /** dbuf_put_escaped_pred. */
    method PutEscaped(str: Bytes, pred: int -> int)
      modifies this
      ensures buf == old(buf) + Escaped(str, pred)
    {
      hide Code, Escaped;
      var i := 0;
      EscapedNone(str, pred);
      while i < |str|
        invariant i <= |str| && buf == old(buf) + Escaped(str[..i], pred)
      {
        var j := PredicateFind(str[i..], pred);
        if j > 0 {
          Passed(str, i, i + j, pred);
          Regroup(old(buf), Escaped(str[..i], pred), str[i..i + j]);
          buf := buf + str[i..i + j];
          i := i + j;
        }
        if i == |str| {
          break;
        }
        OneMore(str, i, pred);
        Regroup(old(buf), Escaped(str[..i], pred), Code(str[i], pred));
        PutCode(str[i], pred);
        i := i + 1;
      }
    }

    /** One character that the predicate picks. */
    method PutCode(b: Byte, pred: int -> int)
      requires pred(SignedChar(b)) != 0
      modifies this
      ensures buf == old(buf) + Code(b, pred)
    {
      buf := buf + [BACKSLASH];
      if b == 0x1b {
        buf := buf + [0x78, 0x31, 0x62];
      } else {
        var r := pred(SignedChar(b));
        var c := EscapeCharLetter(b);
        buf := buf + [if 1 < r <= 127 then r else if c != 0 then c else b];
        if r == 'u' as int || r == 'x' as int {
          buf := buf + if r == 'u' as int then Hex(b, 2) else Hex(b, 0);
        }
      }
    }

    /** dbuf_put_unescaped_pred. */
    method PutUnescaped(str: Bytes, beyond: Byte, pred: int -> int)
      modifies this
      ensures buf == old(buf) + Unescaped(str, beyond, pred)
    {
      hide Unescaped, UnescapedFrom;
      var i := 0;
      AtEnds(str, beyond, pred);
      while i < |str|
        invariant i <= |str| + 1
        invariant buf + UnescapedFrom(str, i, beyond, pred) == old(buf) + UnescapedFrom(str, 0, beyond, pred)
      {
        var j := ByteChr(str[i..], BACKSLASH);
        if j > 0 {
          PastRun(str, i, j, beyond, pred);
          Regroup(buf, str[i..i + j], UnescapedFrom(str, i + j, beyond, pred));
          buf := buf + str[i..i + j];
          i := i + j;
        }
        if i == |str| {
          break;
        }
        PastPair(str, i, beyond, pred);
        i := i + 1;
        var b := if i < |str| then str[i] else beyond;
        Regroup(buf, Decoded(b, pred), UnescapedFrom(str, i + 1, beyond, pred));
        ghost var was := buf;
        var r := pred(SignedChar(b));
        if r == 0 {
          buf := buf + [BACKSLASH];
        }
        buf := buf + [if 1 < r < 256 then r as Byte else b];
        assert buf == was + Decoded(b, pred);
        i := i + 1;
      }
    }

    /** dbuf_token_push: the length of the token as it is in the buffer. */
    method TokenPush(str: Bytes) returns (len: nat)
      modifies this
      ensures buf == Pushed(old(buf), str) && len == |Token(str)|
    {
      if |buf| != 0 {
        buf := buf + [DOT];
      }
      var pos := |buf|;
      PutEscaped(str, IsDotChar);
      len := |buf| - pos;
    }

    /** dbuf_token_pop: how many bytes were taken off. */
    method TokenPop() returns (len: nat)
      modifies this
      ensures IsPopped(old(buf), buf) && len == |old(buf)| - |buf|
    {
      var size, n := |buf|, |buf|;
      while n > 0
        invariant 0 <= n <= |buf| && buf == old(buf)
        invariant forall p :: n <= p < |buf| ==> !BareAt(buf, p)
        invariant n < |buf| ==> (n + 1 < |buf| && buf[n] == BACKSLASH && buf[n + 1] == DOT)
      {
        var p := ByteRchr(buf[..n], DOT);
        if p == n {
          assert forall q :: 0 <= q < n ==> buf[q] == buf[..n][q];
          buf := [];
          break;
        }
        assert forall q :: p < q < n ==> buf[q] == buf[..n][q];
        if p > 0 && buf[p - 1] == BACKSLASH {
          n := p - 1;
          continue;
        }
        assert BareAt(buf, p);
        buf := buf[..p];
        break;
      }
      len := size - |buf|;
    }
  }
}
