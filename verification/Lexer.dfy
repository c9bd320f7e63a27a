/** The lexer engine: choice of a rule, the position bookkeeping, and the token stream. */
module LexerEngine {

  import opened Basics

  const NEWLINE: int := 10
  const WRAP: int := 0x1_0000_0000

  // ----- UTF-8

  predicate IsCont(b: Byte) {
    0x80 <= b < 0xC0
  }

  /** The length of the character a lead byte announces; 0 for a byte that is none. */
  function CharLen(b: Byte): nat {
    if b < 0x80 then 1
    else if b < 0xC0 then 0
    else if b < 0xE0 then 2
    else if b < 0xF0 then 3
    else if b < 0xF8 then 4
    else 0
  }

  /** A complete character stands at i. */
  ghost predicate CharAt(data: seq<Byte>, i: nat) {
    && i < |data| && CharLen(data[i]) > 0 && i + CharLen(data[i]) <= |data|
    && forall k :: i < k < i + CharLen(data[i]) ==> IsCont(data[k])
  }

  /** From i on the text is a sequence of complete characters. */
  ghost predicate Utf8(data: seq<Byte>, i: nat)
    decreases |data| - i
  {
    i < |data| ==> CharAt(data, i) && Utf8(data, i + CharLen(data[i]))
  }

  predicate Boundary(data: seq<Byte>, i: nat) {
    i == |data| || (i < |data| && !IsCont(data[i]))
  }

  /** The first character boundary from i on. */
  function Ceil(data: seq<Byte>, i: nat): (j: nat)
    requires i <= |data|
    ensures i <= j <= |data| && Boundary(data, j) && forall k :: i <= k < j ==> IsCont(data[k])
    decreases |data| - i
  {
    if Boundary(data, i) then i else Ceil(data, i + 1)
  }

  lemma {:induction false} Utf8FromBoundary(data: seq<Byte>, i: nat, j: nat)
    requires Utf8(data, i) && i <= j <= |data| && Boundary(data, j)
    ensures Utf8(data, j)
    decreases |data| - i
  {
    if i < j {
      assert i + CharLen(data[i]) <= j;
      Utf8FromBoundary(data, i + CharLen(data[i]), j);
    }
  }

  // ----- locations

  /** line and column are 32 bits wide. */
  datatype Location = Location(line: nat, column: nat, pos: nat)

  function Lines(data: seq<Byte>, i: nat): nat
    requires i <= |data|
  {
    if i == 0 then 0 else Lines(data, i - 1) + (if data[i-1] == NEWLINE then 1 else 0)
  }

  /** Characters are counted by the bytes that are not continuation bytes. */
  function Points(data: seq<Byte>, i: nat): nat
    requires i <= |data|
  {
    if i == 0 then 0 else Points(data, i - 1) + (if IsCont(data[i-1]) then 0 else 1)
  }

  /** The characters since the last newline. */
  function Column(data: seq<Byte>, i: nat): nat
    requires i <= |data|
  {
    if i == 0 || data[i-1] == NEWLINE then 0 else Column(data, i - 1) + (if IsCont(data[i-1]) then 0 else 1)
  }

  /** The location of position i, recomputed from the text before it. */
  function LocAt(data: seq<Byte>, i: nat): Location
    requires i <= |data|
  {
    Location(Lines(data, i) % WRAP, Column(data, i) % WRAP, Points(data, i))
  }

  lemma {:induction false} ContBytes(data: seq<Byte>, i: nat, j: nat)
    requires i <= j <= |data| && forall k :: i <= k < j ==> IsCont(data[k])
    ensures Lines(data, j) == Lines(data, i) && Points(data, j) == Points(data, i) && Column(data, j) == Column(data, i)
    decreases j - i
  {
    if i < j { ContBytes(data, i, j - 1); }
  }

  lemma CharStep(data: seq<Byte>, i: nat)
    requires CharAt(data, i)
    ensures var j := i + CharLen(data[i]);
            && Points(data, j) == Points(data, i) + 1
            && (if data[i] == NEWLINE then Lines(data, j) == Lines(data, i) + 1 && Column(data, j) == 0
                else Lines(data, j) == Lines(data, i) && Column(data, j) == Column(data, i) + 1)
  {
    ContBytes(data, i + 1, i + CharLen(data[i]));
  }

  /** Moving over one character, with 32-bit counters. */
  lemma LocStep(data: seq<Byte>, i: nat)
    requires CharAt(data, i)
    ensures var j, at := i + CharLen(data[i]), LocAt(data, i);
            && Points(data, j) == Points(data, i) + 1
            && LocAt(data, j) == if data[i] == NEWLINE then Location((at.line + 1) % WRAP, 0, at.pos + 1)
                                 else Location(at.line, (at.column + 1) % WRAP, at.pos + 1)
  {
    CharStep(data, i);
    WrapStep(Lines(data, i));
    WrapStep(Column(data, i));
  }

  lemma WrapStep(x: nat)
    ensures (x + 1) % WRAP == (x % WRAP + 1) % WRAP
  {
  }

  /** The places from i up to j where a character begins, and those of the newlines. */
  ghost function Starts(data: seq<Byte>, i: nat, j: nat): set<nat>
    requires i <= j <= |data|
  {
    set k: nat | i <= k < j && !IsCont(data[k])
  }

  ghost function Newlines(data: seq<Byte>, i: nat): set<nat>
    requires i <= |data|
  {
    set k: nat | k < i && data[k] == 10
  }

  lemma {:induction false} PointsAre(data: seq<Byte>, i: nat, j: nat)
    requires i <= j <= |data|
    ensures Points(data, j) == Points(data, i) + |Starts(data, i, j)|
    decreases j - i
  {
    if i < j {
      PointsAre(data, i, j - 1);
      var last: set<nat> := if IsCont(data[j-1]) then {} else {j - 1};
      assert Starts(data, i, j) == Starts(data, i, j - 1) + last;
    } else {
      assert Starts(data, i, j) == {};
    }
  }

  lemma {:induction false} LinesAre(data: seq<Byte>, i: nat)
    requires i <= |data|
    ensures Lines(data, i) == |Newlines(data, i)|
  {
    if i > 0 {
      LinesAre(data, i - 1);
      var last: set<nat> := if data[i-1] == 10 then {i - 1} else {};
      assert Newlines(data, i) == Newlines(data, i - 1) + last;
    } else {
      assert Newlines(data, i) == {};
    }
  }

  lemma {:induction false} ColumnIs(data: seq<Byte>, b: nat, i: nat)
    requires b <= i <= |data| && (b == 0 || data[b-1] == 10) && forall k :: b <= k < i ==> data[k] != 10
    ensures Column(data, i) == |Starts(data, b, i)|
    decreases i
  {
    if b < i {
      ColumnIs(data, b, i - 1);
      var last: set<nat> := if IsCont(data[i-1]) then {} else {i - 1};
      assert Starts(data, b, i) == Starts(data, b, i - 1) + last;
    } else {
      assert Starts(data, b, i) == {};
    }
  }

  /** A location counts the newlines before it, the characters since the last of them and the characters
      before it. */
  lemma LocationCounts(data: seq<Byte>, b: nat, i: nat)
    requires b <= i <= |data| && (b == 0 || data[b-1] == 10) && forall k :: b <= k < i ==> data[k] != 10
    ensures LocAt(data, i) == Location(|Newlines(data, i)| % 0x1_0000_0000, |Starts(data, b, i)| % 0x1_0000_0000,
                                       |Starts(data, 0, i)|)
  {
    LinesAre(data, i);
    ColumnIs(data, b, i);
    PointsAre(data, 0, i);
  }

  // ----- rules

  const LEXER_EOF: int := -1
  const NOMATCH: int := -2
  const COMPILE: int := -3
  const EXEC: int := -4

  datatype Rule = Rule(state: int, mask: bv64, skip: bool)

  /** What the regular expression engine says about one rule at one position. */
  datatype Match = NoMatch | Found(len: nat) | CompileError | ExecError

  type Engine = (nat, nat) -> Match

  predicate Longest(mode: nat) {
    mode / 2 % 2 == 1
  }

  predicate Hit(rules: seq<Rule>, m: Engine, state: int, pos: nat, i: nat) {
    i < |rules| && rules[i].state == state && m(i, pos).Found? && m(i, pos).len > 0
  }

  predicate Err(rules: seq<Rule>, m: Engine, state: int, pos: nat, i: nat) {
    i < |rules| && rules[i].state == state && (m(i, pos).CompileError? || m(i, pos).ExecError?)
  }

  /** The loop of lexer_peek from rule i on, with ret and len as found so far. */
  function Choose(rules: seq<Rule>, m: Engine, state: int, mode: nat, pos: nat, i: nat, ret: int, len: nat): (int, nat)
    requires i <= |rules|
    decreases |rules| - i
  {
    if i == |rules| then (ret, len)
    else if rules[i].state != state then Choose(rules, m, state, mode, pos, i + 1, ret, len)
    else match m(i, pos)
         case CompileError => (COMPILE, len)
         case ExecError => (EXEC, len)
         case NoMatch => Choose(rules, m, state, mode, pos, i + 1, ret, len)
         case Found(n) =>
           if n > 0 && (!Longest(mode) || ret < 0 || n >= len) then
             if mode == 0 then (i, n) else Choose(rules, m, state, mode, pos, i + 1, i, n)
           else Choose(rules, m, state, mode, pos, i + 1, ret, len)
  }

  /** The rule chosen at pos, or the error code, and the length of the match. */
  function Choice(rules: seq<Rule>, m: Engine, state: int, mode: nat, pos: nat): (int, nat) {
    Choose(rules, m, state, mode, pos, 0, NOMATCH, 0)
  }

  /** r is the best hit among the rules below n: the first, the last, or the last of the longest. */
  ghost predicate Best(rules: seq<Rule>, m: Engine, state: int, mode: nat, pos: nat, n: nat, r: int, len: nat) {
    && 0 <= r < n && Hit(rules, m, state, pos, r) && m(r, pos).len == len
    && forall j :: 0 <= j < n && j != r && Hit(rules, m, state, pos, j) ==>
         if mode == 0 then j > r
         else if Longest(mode) then m(j, pos).len < len || (m(j, pos).len == len && j < r)
         else j < r
  }

  /** Rule e is the first that fails, and in FIRST mode nothing has matched before it. */
  ghost predicate FailsAt(rules: seq<Rule>, m: Engine, state: int, mode: nat, pos: nat, e: nat) {
    && Err(rules, m, state, pos, e)
    && (forall j :: 0 <= j < e ==> !Err(rules, m, state, pos, j))
    && (mode == 0 ==> forall j :: 0 <= j < e ==> !Hit(rules, m, state, pos, j))
  }

  ghost predicate NothingBelow(rules: seq<Rule>, m: Engine, state: int, pos: nat, n: nat) {
    forall j :: 0 <= j < n ==> !Hit(rules, m, state, pos, j)
  }

  /** What lexer_peek promises about its result. */
  ghost predicate Chosen(rules: seq<Rule>, m: Engine, state: int, mode: nat, pos: nat, ret: int, len: nat) {
    if ret >= 0 then
      && Best(rules, m, state, mode, pos, |rules|, ret, len)
      && forall j :: 0 <= j < |rules| && Err(rules, m, state, pos, j) ==> mode == 0 && j > ret
    else if ret == NOMATCH then
      NothingBelow(rules, m, state, pos, |rules|) && forall j :: 0 <= j < |rules| ==> !Err(rules, m, state, pos, j)
    else
      exists e: nat :: FailsAt(rules, m, state, mode, pos, e)
                    && ret == if m(e, pos).CompileError? then COMPILE else EXEC
  }

  lemma {:induction false} ChooseIsChosen(rules: seq<Rule>, m: Engine, state: int, mode: nat, pos: nat,
                                          i: nat, ret: int, len: nat)
    requires i <= |rules| && forall j :: 0 <= j < i ==> !Err(rules, m, state, pos, j)
    requires (ret == NOMATCH && NothingBelow(rules, m, state, pos, i))
          || (mode != 0 && Best(rules, m, state, mode, pos, i, ret, len))
    ensures var r := Choose(rules, m, state, mode, pos, i, ret, len);
            Chosen(rules, m, state, mode, pos, r.0, r.1)
    decreases |rules| - i
  {
    if i < |rules| {
      if Err(rules, m, state, pos, i) {
        assert mode == 0 ==> NothingBelow(rules, m, state, pos, i);
        assert FailsAt(rules, m, state, mode, pos, i);
      } else if Hit(rules, m, state, pos, i) && (!Longest(mode) || ret < 0 || m(i, pos).len >= len) {
        assert Best(rules, m, state, mode, pos, i + 1, i, m(i, pos).len);
        if mode != 0 {
          ChooseIsChosen(rules, m, state, mode, pos, i + 1, i, m(i, pos).len);
        }
      } else {
        ChooseIsChosen(rules, m, state, mode, pos, i + 1, ret, len);
      }
    }
  }

  /** The choice keeps the promise, whatever the engine answers. */
  lemma ChoiceIsChosen(rules: seq<Rule>, m: Engine, state: int, mode: nat, pos: nat)
    ensures var r := Choice(rules, m, state, mode, pos);
            Chosen(rules, m, state, mode, pos, r.0, r.1)
  {
    ChooseIsChosen(rules, m, state, mode, pos, 0, NOMATCH, 0);
  }

  /** The modes are 0 for the first rule that matches, 1 for the last and 2 for the longest match. */
  lemma ModesChoose(rules: seq<Rule>, m: Engine, state: int, mode: nat, pos: nat, j: nat)
    requires Hit(rules, m, state, pos, j)
    ensures var r := Choice(rules, m, state, mode, pos);
            r.0 >= 0 ==>
              && r.0 < |rules| && rules[r.0].state == state && m(r.0, pos) == Found(r.1) && r.1 > 0
              && (mode == 0 ==> r.0 <= j) && (mode == 1 ==> j <= r.0)
              && (mode == 2 ==> m(j, pos).len < r.1 || (m(j, pos).len == r.1 && j <= r.0))
  {
    hide Choice;
    ChoiceIsChosen(rules, m, state, mode, pos);
  }

  /** And the promise leaves no choice. */
  lemma ChosenIsUnique(rules: seq<Rule>, m: Engine, state: int, mode: nat, pos: nat, r: int, n: nat, r': int, n': nat)
    requires Chosen(rules, m, state, mode, pos, r, n) && Chosen(rules, m, state, mode, pos, r', n')
    ensures r == r' && (r >= 0 ==> n == n')
  {
    if r >= 0 { assert Hit(rules, m, state, pos, r); }
    if r' >= 0 { assert Hit(rules, m, state, pos, r'); }
    if r < 0 && r != NOMATCH {
      var e: nat :| FailsAt(rules, m, state, mode, pos, e);
      assert Err(rules, m, state, pos, e);
    }
    if r' < 0 && r' != NOMATCH {
      var e: nat :| FailsAt(rules, m, state, mode, pos, e);
      assert Err(rules, m, state, pos, e);
    }
  }

  // ----- the spans of a text

  /** Every match, at a character boundary, ends inside the text and at a character boundary. */
  ghost predicate EndsOnBoundary(data: seq<Byte>, m: Engine) {
    forall i: nat, pos: nat :: Boundary(data, pos) && m(i, pos).Found? ==>
      pos + m(i, pos).len <= |data| && Boundary(data, pos + m(i, pos).len)
  }

  /** Masks that have a bit in common. */
  predicate Meet(m: bv64, n: bv64) {
    m & n != 0
  }

  /** The fixed part of a lexer while no rule action runs: text, rules, engine, state, mode and the
      mask of rules to skip. */
  datatype Setup = Setup(data: seq<Byte>, rules: seq<Rule>, m: Engine, state: int, mode: nat, skip: bv64)
  {
    ghost predicate Valid() {
      Utf8(data, 0) && EndsOnBoundary(data, m)
    }

    predicate Skips(rule: int) {
      0 <= rule < |rules| && (Meet(rules[rule].mask, skip) || rules[rule].skip)
    }
  }

  /** A piece of the text, from start to end, and the rule that matched it. */
  datatype Span = Span(rule: int, start: nat, end: nat)

  lemma ChoiceAdvances(s: Setup, i: nat)
    requires s.Valid() && i < |s.data| && Boundary(s.data, i)
    ensures var r := Choice(s.rules, s.m, s.state, s.mode, i);
            r.0 >= 0 ==> r.0 < |s.rules| && r.1 > 0 && i + r.1 <= |s.data| && Boundary(s.data, i + r.1)
  {
    ChoiceIsChosen(s.rules, s.m, s.state, s.mode, i);
  }

  /** The spans the text is cut into from i on, as far as rules match. */
  ghost function Spans(s: Setup, i: nat): seq<Span>
    requires s.Valid() && Boundary(s.data, i)
    decreases |s.data| - i
  {
    if i == |s.data| then []
    else
      var r := Choice(s.rules, s.m, s.state, s.mode, i);
      ChoiceAdvances(s, i);
      if r.0 < 0 then [] else [Span(r.0, i, i + r.1)] + Spans(s, i + r.1)
  }

  lemma SpansUnfold(s: Setup, i: nat)
    requires s.Valid() && Boundary(s.data, i) && i < |s.data|
    ensures var r := Choice(s.rules, s.m, s.state, s.mode, i);
            if r.0 < 0 then Spans(s, i) == []
            else && r.1 > 0 && i + r.1 <= |s.data| && Boundary(s.data, i + r.1)
                 && Spans(s, i) == [Span(r.0, i, i + r.1)] + Spans(s, i + r.1)
                 && Spans(s, i)[1..] == Spans(s, i + r.1)
  {
    ChoiceAdvances(s, i);
  }

  /** Where the lexing that starts at i comes to an end. */
  ghost function Stop(s: Setup, i: nat): nat
    requires s.Valid() && Boundary(s.data, i)
  {
    var spans := Spans(s, i);
    if spans == [] then i else spans[|spans|-1].end
  }

  /** Each span is nonempty, starts where the one before ends, and is the choice at its start. */
  ghost predicate Tiles(s: Setup, i: nat, spans: seq<Span>) {
    && (spans != [] ==> spans[0].start == i)
    && (forall k :: 0 <= k < |spans| ==>
          && spans[k].start < spans[k].end <= |s.data| && Boundary(s.data, spans[k].end)
          && Choice(s.rules, s.m, s.state, s.mode, spans[k].start) == (spans[k].rule, spans[k].end - spans[k].start))
    && (forall k, l :: 0 <= k < l < |spans| && l == k + 1 ==> spans[l].start == spans[k].end)
  }

  lemma {:induction false} SpansTile(s: Setup, i: nat)
    requires s.Valid() && Boundary(s.data, i)
    ensures Tiles(s, i, Spans(s, i))
    decreases |s.data| - i
  {
    hide Choice;
    if i < |s.data| {
      var r := Choice(s.rules, s.m, s.state, s.mode, i);
      SpansUnfold(s, i);
      if r.0 >= 0 {
        hide Spans, EndsOnBoundary, Utf8;
        var rest := Spans(s, i + r.1);
        SpansTile(s, i + r.1);
        TilesCons(s, Span(r.0, i, i + r.1), rest);
      }
    }
  }

  lemma TilesCons(s: Setup, x: Span, rest: seq<Span>)
    requires x.start < x.end <= |s.data| && Boundary(s.data, x.end) && Tiles(s, x.end, rest)
    requires Choice(s.rules, s.m, s.state, s.mode, x.start) == (x.rule, x.end - x.start)
    ensures Tiles(s, x.start, [x] + rest)
  {
    hide Choice;
    var spans := [x] + rest;
    assert forall k :: 0 < k < |spans| ==> spans[k] == rest[k-1];
  }

  /** The spans reach up to the stop, there are no more of them than bytes, and the stop is the end of
      the text or a place where no rule is chosen. */
  lemma {:induction false} SpansStop(s: Setup, i: nat)
    requires s.Valid() && Boundary(s.data, i)
    ensures i + |Spans(s, i)| <= Stop(s, i) <= |s.data| && Boundary(s.data, Stop(s, i))
    ensures Stop(s, i) == |s.data| || Choice(s.rules, s.m, s.state, s.mode, Stop(s, i)).0 < 0
    decreases |s.data| - i
  {
    hide Choice;
    if i < |s.data| {
      var r := Choice(s.rules, s.m, s.state, s.mode, i);
      SpansUnfold(s, i);
      if r.0 >= 0 {
        SpansStop(s, i + r.1);
      }
    }
  }

  /** The text up to the stop is the concatenation of the spans. */
  function Covered(data: seq<Byte>, spans: seq<Span>): seq<Byte> {
    if spans == [] then []
    else (if spans[0].start <= spans[0].end <= |data| then data[spans[0].start..spans[0].end] else [])
         + Covered(data, spans[1..])
  }

  lemma {:induction false} SpansCover(s: Setup, i: nat)
    requires s.Valid() && Boundary(s.data, i)
    ensures i <= Stop(s, i) <= |s.data| && Covered(s.data, Spans(s, i)) == s.data[i..Stop(s, i)]
    decreases |s.data| - i
  {
    hide Choice;
    SpansStop(s, i);
    if i < |s.data| {
      var r := Choice(s.rules, s.m, s.state, s.mode, i);
      SpansUnfold(s, i);
      if r.0 >= 0 {
        var j, k := i + r.1, Stop(s, i);
        SpansCover(s, j);
        assert k == Stop(s, j);
        hide Spans, EndsOnBoundary, Utf8;
        Joined(s.data, i, j, k);
      }
    }
  }

  // ----- tokens

  lemma {:induction false} PointsGrow(data: seq<Byte>, i: nat, j: nat)
    requires i <= j <= |data|
    ensures Points(data, i) <= Points(data, j)
    decreases j - i
  {
    if i < j { PointsGrow(data, i, j - 1); }
  }

  datatype Token = Token(id: int, lexeme: seq<Byte>, byteOffset: nat, charLength: nat, loc: Location)

  /** The token made from n bytes at i: that slice of the text, the characters that begin in it, and
      the location of its start. */
  function TokenAt(data: seq<Byte>, id: int, i: nat, n: nat): Token
    requires i + n <= |data|
  {
    PointsGrow(data, i, Ceil(data, i + n));
    Token(id, data[i..i+n], i, Points(data, Ceil(data, i + n)) - Points(data, i), LocAt(data, i))
  }

  /** The token for a span, if it is not skipped. */
  ghost function TokensFor(s: Setup, x: Span): seq<Token> {
    if !s.Skips(x.rule) && x.start <= x.end <= |s.data| then [TokenAt(s.data, x.rule, x.start, x.end - x.start)] else []
  }

  /** A token has the bytes and the location of the place it is made from, and its length in characters is
      the number of its bytes at which one begins. */
  lemma TokenTells(data: seq<Byte>, id: int, i: nat, n: nat)
    requires i + n <= |data|
    ensures var t := TokenAt(data, id, i, n);
            && t.id == id && t.byteOffset == i && t.loc == LocAt(data, i)
            && |t.lexeme| == n && (forall k :: 0 <= k < n ==> t.lexeme[k] == data[i+k])
            && t.charLength == |Starts(t.lexeme, 0, n)|
  {
    var j, u := Ceil(data, i + n), data[i..i+n];
    ContBytes(data, i + n, j);
    PointsShift(data, i, u, n);
    PointsAre(u, 0, n);
  }

  lemma {:induction false} PointsShift(data: seq<Byte>, i: nat, u: seq<Byte>, n: nat)
    requires i + |u| <= |data| && n <= |u| && forall k :: 0 <= k < |u| ==> u[k] == data[i+k]
    ensures Points(data, i + n) == Points(data, i) + Points(u, n)
  {
    if n > 0 {
      PointsShift(data, i, u, n - 1);
      assert u[n-1] == data[i+n-1];
    }
  }

  /** A bit that two masks share. */
  predicate SharedBit(m: bv64, n: bv64, b: bv64) {
    b != 0 && b & (b - 1) == 0 && m & b != 0 && n & b != 0
  }

  /** Whether a match gives a token is a matter of its rule's flag, and of the bits that the masks share. */
  lemma SkippedByBits(s: Setup, x: Span)
    requires 0 <= x.rule < |s.rules| && x.start <= x.end <= |s.data|
    ensures TokensFor(s, x) == []
       <==> s.rules[x.rule].skip || exists b :: SharedBit(s.rules[x.rule].mask, s.skip, b)
    ensures TokensFor(s, x) != [] ==> TokensFor(s, x) == [TokenAt(s.data, x.rule, x.start, x.end - x.start)]
  {
    hide SharedBit, TokenAt, Setup.Skips;
    SkipsExactly(s, x.rule);
  }

  lemma SkipsExactly(s: Setup, rule: nat)
    requires rule < |s.rules|
    ensures s.Skips(rule) <==> s.rules[rule].skip || exists b :: SharedBit(s.rules[rule].mask, s.skip, b)
  {
    hide SharedBit, Meet;
    SomeSharedBit(s.rules[rule].mask, s.skip);
  }

  lemma SomeSharedBit(m: bv64, n: bv64)
    ensures Meet(m, n) <==> exists b :: SharedBit(m, n, b)
  {
    hide SharedBit;
    if m & n != 0 {
      LowestBit(m, n);
    }
    forall b | SharedBit(m, n, b) ensures m & n != 0 {
      OneBitShared(m, n, b);
    }
  }

  lemma LowestBit(m: bv64, n: bv64)
    requires m & n != 0
    ensures SharedBit(m, n, (m & n) & (0 - (m & n)))
  {
  }

  lemma OneBitShared(m: bv64, n: bv64, b: bv64)
    requires SharedBit(m, n, b)
    ensures m & n != 0
  {
  }

  /** The tokens for the spans that are not skipped. */
  ghost function TokensOf(s: Setup, spans: seq<Span>): seq<Token> {
    if spans == [] then []
    else TokensFor(s, spans[0]) + TokensOf(s, spans[1..])
  }

  /** Every span gives its token. */
  ghost predicate TokenEach(s: Setup, spans: seq<Span>, ts: seq<Token>) {
    && |ts| == |spans|
    && forall k :: 0 <= k < |spans| ==>
         && spans[k].start <= spans[k].end <= |s.data|
         && ts[k] == TokenAt(s.data, spans[k].rule, spans[k].start, spans[k].end - spans[k].start)
  }

  /** So they do with no mask of rules to skip and no rule flagged. */
  lemma {:induction false} AllTokens(s: Setup, i: nat)
    requires s.Valid() && Boundary(s.data, i) && s.skip == 0 && forall k :: 0 <= k < |s.rules| ==> !s.rules[k].skip
    ensures TokenEach(s, Spans(s, i), TokensOf(s, Spans(s, i)))
    decreases |s.data| - i
  {
    hide Choice, TokenEach, TokensFor, TokenAt, EndsOnBoundary, Utf8;
    if i < |s.data| && Choice(s.rules, s.m, s.state, s.mode, i).0 >= 0 {
      var r := Choice(s.rules, s.m, s.state, s.mode, i);
      SpansUnfold(s, i);
      ChoiceAdvances(s, i);
      SpansStep(s, i);
      AllTokens(s, i + r.1);
      NotSkipped(s, r.0, i, i + r.1);
      EachCons(s, Span(r.0, i, i + r.1), Spans(s, i + r.1), TokensOf(s, Spans(s, i + r.1)));
    } else {
      NoSpans(s, i);
      EachNone(s);
    }
  }

  lemma EachNone(s: Setup)
    ensures TokenEach(s, [], [])
  {
  }

  lemma EachCons(s: Setup, x: Span, spans: seq<Span>, ts: seq<Token>)
    requires x.start <= x.end <= |s.data| && TokenEach(s, spans, ts)
    ensures TokenEach(s, [x] + spans, [TokenAt(s.data, x.rule, x.start, x.end - x.start)] + ts)
  {
    hide TokenAt;
  }

  lemma NotSkipped(s: Setup, rule: nat, i: nat, j: nat)
    requires rule < |s.rules| && !s.rules[rule].skip && s.skip == 0 && i <= j <= |s.data|
    ensures TokensFor(s, Span(rule, i, j)) == [TokenAt(s.data, rule, i, j - i)]
  {
    hide TokenAt;
    NoBits(s.rules[rule].mask);
  }

  lemma NoBits(m: bv64)
    ensures m & 0 == 0
  {
  }

  /** What js_lexer_next returns: a token, null at the end, the exception for text without a match; or
      nothing that can be said, once the code has moved past the end of the text. */
  datatype Next = Tok(t: Token) | Done | Unmatched | Overrun

  datatype Outcome = Outcome(r: Next, pos: nat, bytelen: nat)

  /** js_lexer_next at position i, n being the length of the last match: when a rule fails, its error
      code is taken for a rule and that length for its match. */
  ghost function NextOf(s: Setup, i: nat, n: nat): (o: Outcome)
    requires s.Valid() && Boundary(s.data, i)
    ensures Boundary(s.data, o.pos)
    decreases |s.data| - i
  {
    if i == |s.data| then Outcome(Done, i, n)
    else
      var c := Choice(s.rules, s.m, s.state, s.mode, i);
      ChoiceAdvances(s, i);
      if c.0 >= 0 then
        if s.Skips(c.0) then NextOf(s, i + c.1, c.1)
        else Outcome(Tok(TokenAt(s.data, c.0, i, c.1)), i + c.1, c.1)
      else if c.0 == NOMATCH then Outcome(Unmatched, i, n)
      else if i + n > |s.data| then Outcome(Overrun, i, n)
      else Outcome(Tok(TokenAt(s.data, c.0, i, n)), Ceil(s.data, i + n), n)
  }

  /** The results of k calls, or of fewer if one of them leaves the text. */
  ghost function Calls(s: Setup, i: nat, n: nat, k: nat): (rs: seq<Next>)
    requires s.Valid() && Boundary(s.data, i)
    ensures |rs| <= k
    decreases k
  {
    if k == 0 then []
    else
      var o := NextOf(s, i, n);
      [o.r] + if o.r.Overrun? then [] else Calls(s, o.pos, o.bytelen, k - 1)
  }

  function Toks(ts: seq<Token>): (rs: seq<Next>)
    ensures |rs| == |ts|
  {
    seq(|ts|, i requires 0 <= i < |ts| => Tok(ts[i]))
  }

  /** What calling next from i on should give: a token for each span that is not skipped, and then the
      end or the exception. */
  ghost function Promised(s: Setup, i: nat): (rs: seq<Next>)
    requires s.Valid() && Boundary(s.data, i)
    ensures |rs| > 0
  {
    Toks(TokensOf(s, Spans(s, i))) + [if Stop(s, i) == |s.data| then Done else Unmatched]
  }

  /** A rule that is tried at i fails. */
  ghost predicate Fails(s: Setup, i: nat) {
    i < |s.data| && exists e: nat :: FailsAt(s.rules, s.m, s.state, s.mode, i, e)
  }

  lemma FailsIsChoice(s: Setup, i: nat)
    ensures Fails(s, i) <==> i < |s.data| && Choice(s.rules, s.m, s.state, s.mode, i).0 in {COMPILE, EXEC}
    ensures var c := Choice(s.rules, s.m, s.state, s.mode, i).0;
            c >= 0 || c in {NOMATCH, COMPILE, EXEC}
  {
    hide Choice;
    var c := Choice(s.rules, s.m, s.state, s.mode, i);
    ChoiceIsChosen(s.rules, s.m, s.state, s.mode, i);
    if e: nat :| FailsAt(s.rules, s.m, s.state, s.mode, i, e) {
      assert Err(s.rules, s.m, s.state, i, e);
      assert Chosen(s.rules, s.m, s.state, s.mode, i, if s.m(e, i).CompileError? then COMPILE else EXEC, 0);
      ChosenIsUnique(s.rules, s.m, s.state, s.mode, i, c.0, c.1, if s.m(e, i).CompileError? then COMPILE else EXEC, 0);
    }
  }

  /** What is had of a stream that stops at j is what is wanted if and only if no rule that is tried
      there fails. All but the last are right in any case; the last is, if a rule fails, a token with its
      error code, or the code leaves the text. */
  ghost predicate Exact(s: Setup, j: nat, have: seq<Next>, want: seq<Next>) {
    && (have == want <==> !Fails(s, j))
    && |have| == |want| > 0 && have[..|want|-1] == want[..|want|-1]
    && (Fails(s, j) ==>
          var r := have[|want|-1];
          r.Overrun? || (r.Tok? && r.t.id in {COMPILE, EXEC} && r.t.byteOffset == j))
  }

  /** The stream keeps its promise exactly so. */
  lemma {:induction false} StreamExact(s: Setup, i: nat, n: nat)
    requires s.Valid() && Boundary(s.data, i)
    ensures Exact(s, Stop(s, i), Calls(s, i, n, |Promised(s, i)|), Promised(s, i))
    decreases |s.data| - i
  {
    hide Choice, Exact, Spans, Stop, NextOf, Calls, Promised, TokenAt, EndsOnBoundary, Utf8;
    var c := Choice(s.rules, s.m, s.state, s.mode, i);
    if i < |s.data| && c.0 >= 0 {
      PromisedStep(s, i);
      StreamExact(s, i + c.1, c.1);
      CallsStep(s, i, n, |Promised(s, i)|);
      var p := if s.Skips(c.0) then [] else [Tok(TokenAt(s.data, c.0, i, c.1))];
      var have, want := Calls(s, i + c.1, c.1, |Promised(s, i + c.1)|), Promised(s, i + c.1);
      ExactCons(s, Stop(s, i), p, have, want);
      assert [] + have == have && [] + want == want;
    } else {
      AtTheStop(s, i, n);
    }
  }

  lemma AtTheStop(s: Setup, i: nat, n: nat)
    requires s.Valid() && Boundary(s.data, i)
    requires i == |s.data| || Choice(s.rules, s.m, s.state, s.mode, i).0 < 0
    ensures Exact(s, Stop(s, i), Calls(s, i, n, |Promised(s, i)|), Promised(s, i))
  {
    hide Choice, NextOf, Fails, Spans, Stop, TokensOf, Ceil, Utf8, EndsOnBoundary, Exact, Calls, Promised, Points;
    FailsIsChoice(s, i);
    NoSpans(s, i);
    NextStep(s, i, n);
    OnlyTheEnd(s, i, n);
    OneEach(s, i, NextOf(s, i, n).r, if i == |s.data| then Done else Unmatched);
  }

  lemma OnlyTheEnd(s: Setup, i: nat, n: nat)
    requires s.Valid() && Boundary(s.data, i) && TokensOf(s, Spans(s, i)) == [] && Stop(s, i) == i
    ensures Promised(s, i) == [if i == |s.data| then Done else Unmatched]
    ensures Calls(s, i, n, 1) == [NextOf(s, i, n).r]
  {
    hide Spans, Stop, NextOf, TokensOf, Utf8, EndsOnBoundary;
    assert Calls(s, NextOf(s, i, n).pos, NextOf(s, i, n).bytelen, 0) == [];
  }

  lemma OneEach(s: Setup, j: nat, r: Next, w: Next)
    requires r == w <==> !Fails(s, j)
    requires Fails(s, j) ==> r.Overrun? || (r.Tok? && r.t.id in {COMPILE, EXEC} && r.t.byteOffset == j)
    ensures Exact(s, j, [r], [w])
  {
    hide Fails;
    assert r == w <==> [r] == [w];
  }

  lemma ExactCons(s: Setup, j: nat, p: seq<Next>, have: seq<Next>, want: seq<Next>)
    requires Exact(s, j, have, want)
    ensures Exact(s, j, p + have, p + want)
  {
    hide Fails;
    assert (p + have)[|p|..] == have && (p + want)[|p|..] == want;
    assert (p + have)[..|p + want|-1] == p + have[..|want|-1] && (p + want)[..|p + want|-1] == p + want[..|want|-1];
    assert (p + have)[|p + want|-1] == have[|want|-1];
  }

  lemma PromisedStep(s: Setup, i: nat)
    requires s.Valid() && Boundary(s.data, i) && i < |s.data|
    ensures var c := Choice(s.rules, s.m, s.state, s.mode, i);
            c.0 >= 0 ==>
              && c.1 > 0 && i + c.1 <= |s.data| && Boundary(s.data, i + c.1) && Stop(s, i) == Stop(s, i + c.1)
              && Promised(s, i) == (if s.Skips(c.0) then [] else [Tok(TokenAt(s.data, c.0, i, c.1))])
                                   + Promised(s, i + c.1)
  {
    hide Choice, Stop, Spans, TokenAt, TokensOf;
    SpansStep(s, i);
    var c := Choice(s.rules, s.m, s.state, s.mode, i);
    if c.0 >= 0 {
      ToksConcat(TokensFor(s, Span(c.0, i, i + c.1)), TokensOf(s, Spans(s, i + c.1)));
    }
  }

  lemma ToksConcat(ts: seq<Token>, us: seq<Token>)
    ensures Toks(ts + us) == Toks(ts) + Toks(us)
  {
  }

  lemma CallsStep(s: Setup, i: nat, n: nat, k: nat)
    requires s.Valid() && Boundary(s.data, i) && i < |s.data| && k > 0
    ensures var c := Choice(s.rules, s.m, s.state, s.mode, i);
            c.0 >= 0 ==>
              && c.1 > 0 && i + c.1 <= |s.data| && Boundary(s.data, i + c.1)
              && Calls(s, i, n, k)
                 == if s.Skips(c.0) then Calls(s, i + c.1, c.1, k)
                    else [Tok(TokenAt(s.data, c.0, i, c.1))] + Calls(s, i + c.1, c.1, k - 1)
  {
    hide Choice, NextOf, TokenAt, Ceil, EndsOnBoundary, Utf8;
    NextStep(s, i, n);
  }

  /** Where a rule fails and nothing has matched before, next hands out the same empty token for ever. */
  lemma FailsForEver(s: Setup, i: nat)
    requires s.Valid() && Boundary(s.data, i) && Fails(s, i)
    ensures var o := NextOf(s, i, 0);
            o.r.Tok? && o.r.t.lexeme == [] && o.r.t.id < 0 && o.pos == i && o.bytelen == 0
  {
    hide Choice;
    FailsIsChoice(s, i);
  }

  /** A text of two characters: a rule matches the first and fails on the second. */
  function FailingSetup(): Setup {
    Setup([0x61, 0x62], [Rule(0, 0, false)],
          (i: nat, pos: nat) =>
            if i == 0 && pos == 0 then Found(1) else if i == 0 && pos == 1 then ExecError else NoMatch,
          0, 0, 0)
  }

  /** The second character is handed out as a token of the kind -4, and then the stream ends as if
      nothing were wrong. */
  lemma {:induction false} FailingStream() returns (s: Setup, first: Token, second: Token)
    ensures s == FailingSetup() && s.Valid() && Boundary(s.data, 0)
    ensures first == Token(0, [0x61], 0, 1, Location(0, 0, 0))
    ensures second == Token(-4, [0x62], 1, 1, Location(0, 1, 1))
    ensures Calls(s, 0, 0, 3) == [Tok(first), Tok(second), Done] && Promised(s, 0) == [Tok(first), Unmatched]
  {
    s := FailingSetup();
    first, second := Token(0, [0x61], 0, 1, Location(0, 0, 0)), Token(EXEC, [0x62], 1, 1, Location(0, 1, 1));
    FailingChoices();
    FailingTokens(s.data);
    FailingCalls(s, first, second);
  }

  lemma {:induction false} FailingCalls(s: Setup, first: Token, second: Token)
    requires s.Valid() && |s.data| == 2 && Boundary(s.data, 0) && Boundary(s.data, 1) && !s.Skips(0)
    requires Choice(s.rules, s.m, s.state, s.mode, 0) == (0, 1)
    requires Choice(s.rules, s.m, s.state, s.mode, 1) == (EXEC, 0)
    requires first == TokenAt(s.data, 0, 0, 1) && second == TokenAt(s.data, EXEC, 1, 1) && Ceil(s.data, 2) == 2
    ensures Calls(s, 0, 0, 3) == [Tok(first), Tok(second), Done] && Promised(s, 0) == [Tok(first), Unmatched]
  {
    hide Choice, NextOf, TokenAt, EndsOnBoundary, Utf8, Ceil;
    NextStep(s, 0, 0);
    NextStep(s, 1, 1);
    NextStep(s, 2, 1);
    assert Calls(s, 2, 1, 1) == [Done];
    assert Calls(s, 1, 1, 2) == [Tok(second)] + Calls(s, 2, 1, 1);
    assert Calls(s, 0, 0, 3) == [Tok(first)] + Calls(s, 1, 1, 2);
    PromisedStep(s, 0);
    NoSpans(s, 1);
  }

  lemma FailingChoices()
    ensures var s := FailingSetup();
            && |s.data| == 2 && s.Valid() && Boundary(s.data, 0) && Boundary(s.data, 1)
            && Choice(s.rules, s.m, s.state, s.mode, 0) == (0, 1) && !s.Skips(0)
            && Choice(s.rules, s.m, s.state, s.mode, 1) == (EXEC, 0)
            && Ceil(s.data, 2) == 2
  {
    var s := FailingSetup();
    assert s.data[0] == 0x61 && s.data[1] == 0x62;
    assert Utf8(s.data, 2) && Utf8(s.data, 1) && Utf8(s.data, 0);
  }

  lemma {:induction false} FailingTokens(data: seq<Byte>)
    requires data == [0x61, 0x62]
    ensures TokenAt(data, 0, 0, 1) == Token(0, [0x61], 0, 1, LocAt(data, 0))
    ensures TokenAt(data, EXEC, 1, 1) == Token(EXEC, [0x62], 1, 1, LocAt(data, 1))
    ensures LocAt(data, 0) == Location(0, 0, 0) && LocAt(data, 1) == Location(0, 1, 1)
  {
    CharStep(data, 0);
    CharStep(data, 1);
    assert data[0..1] == [0x61] && data[1..2] == [0x62];
    assert Points(data, 0) == Lines(data, 0) == Column(data, 0) == 0;
    hide Points, Lines, Column;
  }

  class Lexer {
    const s: Setup
    var start: nat
    var bytelen: nat
    var tokid: int
    var pos: nat
    var loc: Location

    /** The location is the one recomputed from the text before the position. */
    ghost predicate Valid()
      reads this
    {
      s.Valid() && Boundary(s.data, pos) && loc == LocAt(s.data, pos)
    }

    constructor (setup: Setup)
      requires setup.Valid()
      ensures Valid() && s == setup && pos == 0
    {
      s := setup;
      start, bytelen, tokid, pos, loc := 0, 0, 0, 0, Location(0, 0, 0);
      new;
      assert Boundary(s.data, 0) by {
        if s.data != [] { assert CharAt(s.data, 0); }
      }
    }

    /** lexer_peek: nothing moves, start and bytelen describe the match; tokid is the rule only in FIRST
        mode. */
    method Peek() returns (ret: int)
      requires Valid()
      modifies this`start, this`bytelen, this`tokid
      ensures pos == |s.data| ==> ret == LEXER_EOF
      ensures pos < |s.data| ==> start == pos && ret == Choice(s.rules, s.m, s.state, s.mode, pos).0
      ensures pos < |s.data| && ret >= 0 ==>
                && bytelen == Choice(s.rules, s.m, s.state, s.mode, pos).1
                && tokid == if s.mode == 0 then ret else |s.rules|
      ensures pos == |s.data| || ret < 0 ==> bytelen == old(bytelen) && tokid == old(tokid)
    {
      hide LocAt, Utf8, EndsOnBoundary;
      if pos == |s.data| {
        return LEXER_EOF;
      }
      start := pos;
      var i, len := 0, 0;
      ret := NOMATCH;
      ghost var choice := Choice(s.rules, s.m, s.state, s.mode, pos);
      while i < |s.rules|
        invariant i <= |s.rules| && pos == old(pos) && start == pos
        invariant ret == NOMATCH || 0 <= ret < i
        invariant Choose(s.rules, s.m, s.state, s.mode, pos, i, ret, len) == choice
        invariant ret >= 0 ==> s.mode != 0
        invariant bytelen == old(bytelen) && tokid == old(tokid)
      {
        if s.rules[i].state != s.state {
          i := i + 1;
          continue;
        }
        var result := s.m(i, pos);
        if result.CompileError? {
          return COMPILE;
        } else if result.ExecError? {
          return EXEC;
        } else if result.Found? && result.len > 0 {
          if !Longest(s.mode) || ret < 0 || result.len >= len {
            ret, len := i, result.len;
            if s.mode == 0 {
              break;
            }
          }
        }
        i := i + 1;
      }
      if ret >= 0 {
        bytelen := len;
        tokid := i;
      }
    }

    /** lexer_skip: over the match, whole characters at a time, keeping the location. */
    method Skip() returns (n: nat)
      requires Valid() && start == pos && pos + bytelen <= |s.data|
      modifies this`pos, this`loc
      ensures Valid() && pos == Ceil(s.data, old(pos) + bytelen)
      ensures n == Points(s.data, pos) - Points(s.data, old(pos)) && Points(s.data, old(pos)) <= Points(s.data, pos)
    {
      hide Points, LocAt, Utf8, EndsOnBoundary, CharAt, Ceil;
      var end := start + bytelen;
      n := 0;
      Utf8FromBoundary(s.data, 0, pos);
      while pos < end
        invariant old(pos) <= pos <= Ceil(s.data, end) && Valid() && Utf8(s.data, pos)
        invariant Points(s.data, pos) == Points(s.data, old(pos)) + n
        decreases |s.data| - pos
      {
        EndOfChar(s.data, pos, end);
        LocStep(s.data, pos);
        var c := s.data[pos];
        pos := pos + CharLen(c);
        if c == NEWLINE {
          loc := Location((loc.line + 1) % WRAP, 0, loc.pos);
        } else {
          loc := loc.(column := (loc.column + 1) % WRAP);
        }
        loc := loc.(pos := loc.pos + 1);
        n := n + 1;
      }
      CeilFrom(s.data, end, pos);
    }

    /** lexer_lex with no actions and no handler: matches of skipped rules are passed over. */
    method Lex() returns (id: int)
      requires Valid()
      modifies this
      ensures Valid() && old(pos) <= pos
      ensures NextOf(s, pos, bytelen) == NextOf(s, old(pos), old(bytelen))
      ensures pos < |s.data| ==> start == pos
      ensures id == if pos == |s.data| then LEXER_EOF else Choice(s.rules, s.m, s.state, s.mode, pos).0
      ensures id >= 0 ==> !s.Skips(id) && bytelen == Choice(s.rules, s.m, s.state, s.mode, pos).1
    {
      hide Choice, LocAt, Utf8, EndsOnBoundary, NextOf, Points;
      while true
        invariant Valid() && old(pos) <= pos && NextOf(s, pos, bytelen) == NextOf(s, old(pos), old(bytelen))
        decreases |s.data| - pos
      {
        NextStep(s, pos, bytelen);
        id := Peek();
        NextStep(s, pos, bytelen);
        if id >= 0 {
          if s.Skips(id) {
            var n := Skip();
            continue;
          }
        }
        break;
      }
    }

    /** js_lexer_next, js_lexer_lex included. */
    method NextToken() returns (r: Next)
      requires Valid()
      modifies this
      ensures Valid()
      ensures Outcome(r, pos, bytelen) == NextOf(s, old(pos), old(bytelen))
    {
      hide Choice, LocAt, Utf8, EndsOnBoundary, NextOf, Points;
      var id := Lex();
      NextStep(s, pos, bytelen);
      FailsIsChoice(s, pos);
      if id == NOMATCH {
        return Unmatched;
      }
      if id == LEXER_EOF {
        return Done;
      }
      if start + bytelen > |s.data| {
        return Overrun;
      }
      var at := loc;
      var charLength := Skip();
      r := Tok(Token(id, s.data[start..start+bytelen], start, charLength, at));
    }
  }

  lemma NextStep(s: Setup, i: nat, n: nat)
    requires s.Valid() && Boundary(s.data, i)
    ensures i == |s.data| ==> NextOf(s, i, n) == Outcome(Done, i, n)
    ensures i < |s.data| ==>
              var c := Choice(s.rules, s.m, s.state, s.mode, i);
              && (c.0 >= 0 ==> c.1 > 0 && i + c.1 <= |s.data| && Boundary(s.data, i + c.1)
                               && Ceil(s.data, i + c.1) == i + c.1)
              && NextOf(s, i, n)
                 == if c.0 >= 0 then
                      if s.Skips(c.0) then NextOf(s, i + c.1, c.1)
                      else Outcome(Tok(TokenAt(s.data, c.0, i, c.1)), i + c.1, c.1)
                    else if c.0 == NOMATCH then Outcome(Unmatched, i, n)
                    else if i + n > |s.data| then Outcome(Overrun, i, n)
                    else Outcome(Tok(TokenAt(s.data, c.0, i, n)), Ceil(s.data, i + n), n)
  {
    hide Choice;
    if i < |s.data| {
      ChoiceAdvances(s, i);
    }
  }

  lemma NoSpans(s: Setup, i: nat)
    requires s.Valid() && Boundary(s.data, i)
    requires i == |s.data| || Choice(s.rules, s.m, s.state, s.mode, i).0 < 0
    ensures Spans(s, i) == [] && Stop(s, i) == i && TokensOf(s, Spans(s, i)) == []
  {
  }

  lemma EndOfChar(data: seq<Byte>, i: nat, end: nat)
    requires Utf8(data, i) && i < end <= |data|
    ensures CharAt(data, i) && 0 < CharLen(data[i])
    ensures i + CharLen(data[i]) <= Ceil(data, end)
    ensures Utf8(data, i + CharLen(data[i])) && Boundary(data, i + CharLen(data[i]))
  {
    if i + CharLen(data[i]) > end {
      CeilFrom(data, end, i + CharLen(data[i]));
    }
  }

  /** The boundary that only continuation bytes separate from i. */
  lemma {:induction false} CeilFrom(data: seq<Byte>, i: nat, j: nat)
    requires i <= j <= |data| && Boundary(data, j)
    ensures Ceil(data, i) <= j
    ensures (forall k :: i <= k < j ==> IsCont(data[k])) ==> Ceil(data, i) == j
    decreases j - i
  {
    if i < j && !Boundary(data, i) {
      CeilFrom(data, i + 1, j);
    }
  }

  lemma SpansStep(s: Setup, i: nat)
    requires s.Valid() && Boundary(s.data, i) && i < |s.data|
    ensures var c := Choice(s.rules, s.m, s.state, s.mode, i);
            c.0 >= 0 ==>
              && c.1 > 0 && i + c.1 <= |s.data| && Boundary(s.data, i + c.1)
              && Stop(s, i) == Stop(s, i + c.1)
              && TokensOf(s, Spans(s, i)) == TokensFor(s, Span(c.0, i, i + c.1)) + TokensOf(s, Spans(s, i + c.1))
  {
    hide Choice, TokensFor;
    ChoiceAdvances(s, i);
    var c := Choice(s.rules, s.m, s.state, s.mode, i);
    if c.0 >= 0 {
      var spans := Spans(s, i);
      assert spans[0] == Span(c.0, i, i + c.1) && spans[1..] == Spans(s, i + c.1);
    }
  }
}
