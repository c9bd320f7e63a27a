/** The line editor's kill commands: what they take out of the line, yank puts back. */
module KillRing {

  /** Text is counted in 16-bit units, as the editor's strings are. */
  type CodeUnit = n: nat | n < 0x1_0000
  type Text = seq<CodeUnit>

  predicate IsWord(c: CodeUnit) {
    'A' as nat <= c <= 'Z' as nat || 'a' as nat <= c <= 'z' as nat || '0' as nat <= c <= '9' as nat
    || c == '_' as nat || c == '$' as nat
  }

  predicate IsTrailing(c: CodeUnit) { 0xdc00 <= c < 0xe000 }

  predicate TrailingAt(s: Text, i: int) { 0 <= i < |s| && IsTrailing(s[i]) }

  /** ucs_length: the units that are not trailing surrogates. */
  function UcsLength(s: Text): nat {
    if s == [] then 0 else UcsLength(s[..|s| - 1]) + if IsTrailing(s[|s| - 1]) then 0 else 1
  }

  /** The end of the run of characters of one kind that starts at pos. */
  function RunEnd(s: Text, pos: nat, word: bool): (r: nat)
    requires pos <= |s|
    ensures pos <= r <= |s| && (forall k :: pos <= k < r ==> IsWord(s[k]) == word)
    ensures r < |s| ==> IsWord(s[r]) != word
    decreases |s| - pos
  {
    if pos < |s| && IsWord(s[pos]) == word then RunEnd(s, pos + 1, word) else pos
  }

  /** The start of the run of characters of one kind that ends at pos. */
  function RunStart(s: Text, pos: nat, word: bool): (r: nat)
    requires pos <= |s|
    ensures r <= pos && (forall k :: r <= k < pos ==> IsWord(s[k]) == word)
    ensures r > 0 ==> IsWord(s[r - 1]) != word
    decreases pos
  {
    if pos > 0 && IsWord(s[pos - 1]) == word then RunStart(s, pos - 1, word) else pos
  }

  function WordEnd(s: Text, pos: nat): (r: nat)
    requires pos <= |s|
    ensures pos <= r <= |s|
  {
    RunEnd(s, RunEnd(s, pos, false), true)
  }

  function WordStart(s: Text, pos: nat): (r: nat)
    requires pos <= |s|
    ensures r <= pos
  {
    RunStart(s, RunStart(s, pos, false), true)
  }

  /** The first position from pos on that holds no trailing surrogate. */
  function PastTrailing(s: Text, pos: nat): (r: nat)
    ensures pos <= r && !TrailingAt(s, r) && (forall k :: pos <= k < r ==> TrailingAt(s, k))
    decreases |s| - pos
  {
    if TrailingAt(s, pos) then PastTrailing(s, pos + 1) else pos
  }

  /** The last position up to pos that holds no trailing surrogate, or -1. */
  function BeforeTrailing(s: Text, pos: int): (r: int)
    requires -1 <= pos
    ensures -1 <= r <= pos && !TrailingAt(s, r) && (forall k :: r < k <= pos ==> TrailingAt(s, k))
    decreases pos
  {
    if TrailingAt(s, pos) then BeforeTrailing(s, pos - 1) else pos
  }

  datatype Command =
    KillLine | BackwardKillLine | KillWord | BackwardKillWord | DeleteChar | BackwardDeleteChar
    | Yank | QuotedInsert | BeginningOfLine | EndOfLine | ForwardWord | BackwardWord

  /** What last_fun can be: a command, or one of the functions that commands share. */
  datatype Fun = Nothing | KillRegion | Insert | Of(command: Command)

  /** A key sequence, and the command it is bound to, if any. */
  datatype Binding = Unbound | Bound(command: Command)
  datatype Key = Key(text: Text, binding: Binding)

  datatype State = State(cmd: Text, cursor: nat, clip: Text, last: Fun, quote: bool)

  ghost predicate Ok(s: State) { s.cursor <= |s.cmd| }

  /** The line with everything that the running kill has taken out of it put back at the cursor. */
  ghost function Restored(s: State): Text
    requires Ok(s)
  {
    if s.last == KillRegion then s.cmd[..s.cursor] + s.clip + s.cmd[s.cursor..] else s.cmd
  }

  function Inserted(s: State, text: Text): State
    requires Ok(s)
  {
    s.(cmd := s.cmd[..s.cursor] + text + s.cmd[s.cursor..], cursor := s.cursor + |text|)
  }

  function Cut(s: State, start: nat, end: nat): Text
    requires start <= end <= |s.cmd|
  {
    s.cmd[..start] + s.cmd[end..]
  }

  function Killed(s: State, start: nat, end: nat, dir: int): (t: State)
    requires Ok(s) && start <= end <= |s.cmd|
    ensures Ok(t)
  {
    var taken := s.cmd[start..end];
    State(Cut(s, start, end),
          if s.cursor > end then s.cursor - (end - start) else if s.cursor > start then start else s.cursor,
          if s.last != KillRegion then taken else if dir < 0 then taken + s.clip else s.clip + taken,
          KillRegion, s.quote)
  }

  /** delete_char and backward_delete_char take the characters from DeleteFrom up to DeleteTo. */
  function DeleteFrom(s: State, c: Command): (r: int)
    requires Ok(s)
    ensures -1 <= r <= s.cursor
  {
    if c == BackwardDeleteChar then BeforeTrailing(s.cmd, if s.cursor > 0 then s.cursor - 1 else -1) else s.cursor
  }

  function DeleteTo(s: State, c: Command): (r: nat)
    requires Ok(s)
    ensures r > DeleteFrom(s, c)
    ensures DeleteFrom(s, c) < |s.cmd| ==> r <= |s.cmd|
  {
    var start := DeleteFrom(s, c);
    var r := PastTrailing(s.cmd, start + 1);
    assert start < |s.cmd| && r > start + 1 ==> TrailingAt(s.cmd, r - 1);
    r
  }

  /** What a command leaves; last is then what last_fun becomes. */
  function Do(s: State, c: Command): (t: State)
    requires Ok(s)
    ensures Ok(t)
  {
    var done := s.(last := Of(c));
    match c
    case KillLine => Killed(s, s.cursor, |s.cmd|, 1)
    case BackwardKillLine => Killed(s, 0, s.cursor, -1)
    case KillWord => Killed(s, s.cursor, WordEnd(s.cmd, s.cursor), 1)
    case BackwardKillWord => Killed(s, WordStart(s.cmd, s.cursor), s.cursor, -1)
    case Yank => Inserted(done, s.clip)
    case QuotedInsert => done.(quote := true)
    case BeginningOfLine => done.(cursor := 0)
    case EndOfLine => done.(cursor := |s.cmd|)
    case ForwardWord => done.(cursor := WordEnd(s.cmd, s.cursor))
    case BackwardWord => done.(cursor := WordStart(s.cmd, s.cursor))
    case _ =>
      var start, end := DeleteFrom(s, c), DeleteTo(s, c);
      if !(0 <= start < |s.cmd|) then done
      else if s.last == KillRegion then Killed(s, start, end, if c == DeleteChar then 1 else -1)
      else done.(cmd := Cut(s, start, end), cursor := start)
  }

  predicate Typeable(text: Text) { UcsLength(text) == 1 && text != [] && text[0] >= ' ' as nat }

  /** What a key leaves. */
  function After(s: State, key: Key): (t: State)
    requires Ok(s)
    ensures Ok(t)
  {
    if s.quote then
      (if UcsLength(key.text) == 1 then Inserted(s, key.text) else s).(quote := false)
    else match key.binding
      case Bound(c) => Do(s, c)
      case Unbound => if Typeable(key.text) then Inserted(s, key.text).(last := Insert) else s
  }

  function AfterAll(s: State, keys: seq<Key>): (t: State)
    requires Ok(s)
    ensures Ok(t)
    decreases |keys|
  {
    if keys == [] then s else AfterAll(After(s, keys[0]), keys[1..])
  }

  /**
   * Whether the key kills: one of the four kill commands; or a delete that goes on with a kill,
   * has something to delete, and does not start in the middle of a surrogate pair.
   */
  ghost predicate Kills(s: State, key: Key)
    requires Ok(s)
  {
    key.binding.Bound? &&
    match key.binding.command
    case KillLine | BackwardKillLine | KillWord | BackwardKillWord => true
    case DeleteChar => s.last == KillRegion && s.cursor < |s.cmd|
    case BackwardDeleteChar =>
      s.last == KillRegion && 0 <= DeleteFrom(s, BackwardDeleteChar) < |s.cmd| && !TrailingAt(s.cmd, s.cursor)
    case _ => false
  }

  /** A key that only beeps. */
  ghost predicate Beeps(key: Key) { key.binding == Unbound && !Typeable(key.text) }

  /** A region that begins or ends at the cursor goes to the side of the clipboard it came from. */
  lemma KillKeeps(s: State, start: nat, end: nat, dir: int)
    requires Ok(s) && start <= end <= |s.cmd|
    requires (dir >= 0 && start == s.cursor) || (dir < 0 && end == s.cursor)
    ensures Restored(Killed(s, start, end, dir)) == Restored(s)
    ensures Killed(s, start, end, dir).cursor == start
    ensures |Killed(s, start, end, dir).cmd| == |s.cmd| - (end - start)
  {
    var t := Killed(s, start, end, dir);
    var before, taken, rest := s.cmd[..start], s.cmd[start..end], s.cmd[end..];
    assert t.cmd[..start] == before && t.cmd[start..] == rest;
    assert s.cmd == before + taken + rest;
    if dir >= 0 {
      assert s.cmd[start..] == taken + rest;
      BetweenSides(before, s.clip, taken, rest);
    } else {
      assert s.cmd[..end] == before + taken;
      BetweenSides(before, taken, s.clip, rest);
    }
  }

  lemma BetweenSides(a: Text, b: Text, c: Text, d: Text)
    ensures a + (b + c) + d == a + b + (c + d) == (a + b) + c + d
  {
  }

  /** Of any region the line loses exactly that; the cursor stays on its text, or goes to where the region was. */
  lemma KillTakes(s: State, start: nat, end: nat, dir: int)
    requires Ok(s) && start <= end <= |s.cmd|
    ensures var t := Killed(s, start, end, dir);
            && |t.cmd| == |s.cmd| - (end - start) && t.cmd[..start] == s.cmd[..start] && t.cmd[start..] == s.cmd[end..]
            && (s.cursor <= start ==> t.cursor == s.cursor)
            && (s.cursor >= end ==> |t.cmd| - t.cursor == |s.cmd| - s.cursor)
            && (start <= s.cursor <= end ==> t.cursor == start)
  {
  }

  /** From pos on lies what is no word, up to m, and then a word up to r, neither of them cut short. */
  ghost predicate WordAhead(line: Text, pos: nat, m: nat, r: nat) {
    && pos <= m <= r <= |line|
    && (forall k :: pos <= k < m ==> !IsWord(line[k])) && (forall k :: m <= k < r ==> IsWord(line[k]))
    && (m < |line| ==> IsWord(line[m])) && (r < |line| ==> !IsWord(line[r]))
  }

  /** Before pos lies what is no word, from m on, and before that a word from r on, neither of them cut short. */
  ghost predicate WordBehind(line: Text, r: nat, m: nat, pos: nat) {
    && r <= m <= pos <= |line|
    && (forall k :: m <= k < pos ==> !IsWord(line[k])) && (forall k :: r <= k < m ==> IsWord(line[k]))
    && (m > 0 ==> IsWord(line[m-1])) && (r > 0 ==> !IsWord(line[r-1]))
  }

  lemma WordsAre(line: Text, pos: nat) returns (m: nat, n: nat)
    requires pos <= |line|
    ensures WordAhead(line, pos, m, WordEnd(line, pos)) && WordBehind(line, WordStart(line, pos), n, pos)
  {
    m, n := RunEnd(line, pos, false), RunStart(line, pos, false);
  }

  /** What is left when a region next to the cursor has gone: the text before from, and that from to on. */
  ghost predicate Leaves(s: State, t: State, from: nat, to: nat) {
    && from <= to <= |s.cmd| && t.cursor == from <= |t.cmd|
    && t.cmd[..from] == s.cmd[..from] && t.cmd[from..] == s.cmd[to..]
  }

  /** What the four kill commands take: all up to the end or the beginning of the line; the next word with
      what is before it, or the last one with what is behind it. */
  lemma KillCommands(s: State)
    requires Ok(s)
    ensures Leaves(s, Do(s, KillLine), s.cursor, |s.cmd|)
    ensures Leaves(s, Do(s, BackwardKillLine), 0, s.cursor)
    ensures exists m, r :: WordAhead(s.cmd, s.cursor, m, r) && Leaves(s, Do(s, KillWord), s.cursor, r)
    ensures exists m, r :: WordBehind(s.cmd, r, m, s.cursor) && Leaves(s, Do(s, BackwardKillWord), r, s.cursor)
  {
    hide Killed, WordEnd, WordStart, WordAhead, WordBehind;
    var m, n := WordsAre(s.cmd, s.cursor);
    KillTakes(s, s.cursor, |s.cmd|, 1);
    KillTakes(s, 0, s.cursor, -1);
    KillTakes(s, s.cursor, WordEnd(s.cmd, s.cursor), 1);
    KillTakes(s, WordStart(s.cmd, s.cursor), s.cursor, -1);
  }

  /** One character lies from start to end: no trailing surrogate of another, and all of its own. */
  ghost predicate OneCharacter(line: Text, start: nat, end: nat) {
    start < end <= |line| && (forall k :: start < k < end ==> TrailingAt(line, k)) && !TrailingAt(line, end)
  }

  /** What deleting takes: the character at the cursor, or the one before it from its first unit on; nothing
      if there is none. */
  lemma DeleteCommands(s: State, c: Command)
    requires Ok(s) && c in {DeleteChar, BackwardDeleteChar}
    ensures var t, start, end := Do(s, c), DeleteFrom(s, c), DeleteTo(s, c);
            if 0 <= start < |s.cmd| then OneCharacter(s.cmd, start, end) && Leaves(s, t, start, end)
            else t.cmd == s.cmd && t.cursor == s.cursor
    ensures DeleteFrom(s, DeleteChar) == s.cursor
    ensures var start := DeleteFrom(s, BackwardDeleteChar);
            && start < s.cursor && !TrailingAt(s.cmd, start)
            && forall k :: start < k < s.cursor ==> TrailingAt(s.cmd, k)
  {
    var start, end := DeleteFrom(s, c), DeleteTo(s, c);
    if 0 <= start < |s.cmd| {
      DeleteTakes(s, c, start, end);
    }
  }

  lemma DeleteTakes(s: State, c: Command, start: nat, end: nat)
    requires Ok(s) && c in {DeleteChar, BackwardDeleteChar}
    requires start == DeleteFrom(s, c) < |s.cmd| && end == DeleteTo(s, c)
    ensures OneCharacter(s.cmd, start, end) && Leaves(s, Do(s, c), start, end)
  {
    hide Killed;
    assert end < s.cursor ==> TrailingAt(s.cmd, end);
    KillTakes(s, start, end, if c == DeleteChar then 1 else -1);
  }

  /** Text goes in at the cursor, which moves behind it. */
  lemma InsertedAt(s: State, text: Text)
    requires Ok(s)
    ensures var t := Inserted(s, text);
            && Ok(t) && |t.cmd| == |s.cmd| + |text| && t.cursor == s.cursor + |text|
            && t.cmd[..s.cursor] == s.cmd[..s.cursor] && t.cmd[s.cursor..t.cursor] == text
            && t.cmd[t.cursor..] == s.cmd[s.cursor..]
  {
  }

  /** Typing: a printable character, of one unit or of a surrogate pair, goes in and ends a run of kills;
      a control character does nothing; behind quoted-insert any character goes in. */
  lemma Typing(s: State, key: Key, c: CodeUnit, d: CodeUnit)
    requires Ok(s) && !s.quote && !IsTrailing(c) && IsTrailing(d)
    ensures key == Key([c], Unbound) && c >= 32 ==> After(s, key) == Inserted(s, [c]).(last := Insert)
    ensures key == Key([c, d], Unbound) && c >= 32 ==> After(s, key) == Inserted(s, [c, d]).(last := Insert)
    ensures key == Key([c], Unbound) && c < 32 ==> After(s, key) == s
    ensures key.text == [c] ==>
              After(After(s, Key(key.text, Bound(QuotedInsert))), key)
              == Inserted(s, [c]).(last := Of(QuotedInsert))
  {
    assert UcsLength([c]) == 1 && UcsLength([c, d]) == 1 by {
      assert [c][..0] == [] && [c, d][..1] == [c];
    }
  }

  /** Every killing key leaves the line with the clipboard at the cursor as it was. */
  lemma KillsKeep(s: State, key: Key)
    requires Ok(s) && !s.quote && Kills(s, key)
    ensures Restored(After(s, key)) == Restored(s)
    ensures After(s, key).last == KillRegion && !After(s, key).quote
  {
    match key.binding.command
    case KillLine => KillKeeps(s, s.cursor, |s.cmd|, 1);
    case BackwardKillLine => KillKeeps(s, 0, s.cursor, -1);
    case KillWord => KillKeeps(s, s.cursor, WordEnd(s.cmd, s.cursor), 1);
    case BackwardKillWord => KillKeeps(s, WordStart(s.cmd, s.cursor), s.cursor, -1);
    case DeleteChar => KillKeeps(s, s.cursor, DeleteTo(s, DeleteChar), 1);
    case BackwardDeleteChar =>
      var start, end := DeleteFrom(s, BackwardDeleteChar), DeleteTo(s, BackwardDeleteChar);
      assert end == s.cursor;
      KillKeeps(s, start, s.cursor, -1);
  }

  /**
   * Deleting backwards inside a surrogate pair during a kill also takes the units after the cursor,
   * and puts them before the clipboard: right only if that makes no difference.
   */
  lemma BackwardDeleteExact(s: State, key: Key)
    requires Ok(s) && !s.quote && s.last == KillRegion && key.binding == Bound(BackwardDeleteChar)
    requires 0 <= DeleteFrom(s, BackwardDeleteChar) < s.cursor
    ensures var ahead := s.cmd[s.cursor..DeleteTo(s, BackwardDeleteChar)];
            Restored(After(s, key)) == Restored(s) <==> ahead + s.clip == s.clip + ahead
    ensures s.cmd[s.cursor..DeleteTo(s, BackwardDeleteChar)] == [] <==> !TrailingAt(s.cmd, s.cursor)
  {
    hide Restored, Killed, DeleteFrom, DeleteTo;
    DeleteSpan(s);
    CutAcross(s, DeleteFrom(s, BackwardDeleteChar), DeleteTo(s, BackwardDeleteChar));
  }

  lemma DeleteSpan(s: State)
    requires Ok(s) && 0 <= DeleteFrom(s, BackwardDeleteChar) < s.cursor
    ensures s.cursor <= DeleteTo(s, BackwardDeleteChar)
    ensures s.cursor == DeleteTo(s, BackwardDeleteChar) <==> !TrailingAt(s.cmd, s.cursor)
  {
    var end := DeleteTo(s, BackwardDeleteChar);
    assert end < s.cursor ==> TrailingAt(s.cmd, end);
  }

  lemma CutAcross(s: State, start: nat, end: nat)
    requires Ok(s) && s.last == KillRegion && start <= s.cursor <= end <= |s.cmd| && start < end
    ensures var ahead := s.cmd[s.cursor..end];
            Restored(Killed(s, start, end, -1)) == Restored(s) <==> ahead + s.clip == s.clip + ahead
  {
    var before, back, ahead, rest := s.cmd[..start], s.cmd[start..s.cursor], s.cmd[s.cursor..end], s.cmd[end..];
    assert s.cmd[start..end] == back + ahead;
    assert s.cmd[..s.cursor] == before + back && s.cmd[s.cursor..] == ahead + rest;
    var t := Killed(s, start, end, -1);
    assert t.cmd[..start] == before && t.cmd[start..] == rest;
    Exchange(before, back, ahead, s.clip, rest);
  }

  lemma Exchange(before: Text, back: Text, ahead: Text, clip: Text, rest: Text)
    ensures before + (back + ahead + clip) + rest == before + back + clip + (ahead + rest)
            <==> ahead + clip == clip + ahead
  {
    var n, m := |before| + |back|, |ahead| + |clip|;
    var there, here := before + (back + ahead + clip) + rest, before + back + clip + (ahead + rest);
    assert there == (before + back) + (ahead + clip) + rest && here == (before + back) + (clip + ahead) + rest;
    assert there[n..n + m] == ahead + clip && here[n..n + m] == clip + ahead;
  }

  /** Between the halves of a pair, with something else killed before. */
  lemma PairTorn(text: Text) returns (s: State, key: Key)
    ensures Ok(s) && s.last == KillRegion && !s.quote && key.binding == Bound(BackwardDeleteChar)
    ensures Restored(After(s, key)) != Restored(s)
  {
    s, key := State([0xd83d, 0xde00], 1, [0x61], KillRegion, false), Key(text, Bound(BackwardDeleteChar));
    assert TrailingAt(s.cmd, 1) && !TrailingAt(s.cmd, 0) && !TrailingAt(s.cmd, 2);
    assert DeleteFrom(s, BackwardDeleteChar) == 0 && DeleteTo(s, BackwardDeleteChar) == 2;
    BackwardDeleteExact(s, key);
    assert s.cmd[1..2] == [0xde00] && ([0xde00] + s.clip)[0] != (s.clip + [0xde00])[0];
  }

  /** A run of kills, with beeps in between. */
  ghost predicate KillRun(s: State, keys: seq<Key>)
    requires Ok(s)
    decreases |keys|
  {
    keys == [] || (!s.quote && (Kills(s, keys[0]) || Beeps(keys[0])) && KillRun(After(s, keys[0]), keys[1..]))
  }

  lemma BeepKeeps(s: State, key: Key)
    requires Ok(s) && !s.quote
    ensures Beeps(key) ==> After(s, key) == s && !Kills(s, key)
  {
  }

  /** Whatever a run of kills does, cmd before the cursor, clipboard and cmd after it are the line it began with. */
  lemma {:induction false} KillRunKeeps(s: State, keys: seq<Key>)
    requires Ok(s) && KillRun(s, keys) && !s.quote
    ensures Restored(AfterAll(s, keys)) == Restored(s) && !AfterAll(s, keys).quote
    ensures AfterAll(s, keys).last == KillRegion
            <==> s.last == KillRegion || exists i :: 0 <= i < |keys| && !Beeps(keys[i])
    decreases |keys|
  {
    hide Kills, Beeps, Do, Restored;
    if keys != [] {
      BeepKeeps(s, keys[0]);
      if Kills(s, keys[0]) {
        KillsKeep(s, keys[0]);
      }
      KillRunKeeps(After(s, keys[0]), keys[1..]);
      assert forall i :: 0 < i < |keys| ==> keys[i] == keys[1..][i - 1];
    }
  }

  lemma {:induction false} AfterAllConcat(s: State, keys: seq<Key>, last: Key)
    requires Ok(s)
    ensures AfterAll(s, keys + [last]) == After(AfterAll(s, keys), last)
    decreases |keys|
  {
    if keys != [] {
      assert (keys + [last])[1..] == keys[1..] + [last];
      AfterAllConcat(After(s, keys[0]), keys[1..], last);
    } else {
      assert keys + [last] == [last];
    }
  }

  /** A run of kills, and then yank: the line is as it was. */
  lemma {:induction false} YankRestores(s: State, keys: seq<Key>, yank: Key)
    requires Ok(s) && KillRun(s, keys) && !s.quote && s.last != KillRegion
    requires exists i :: 0 <= i < |keys| && !Beeps(keys[i])
    requires yank.binding == Bound(Yank)
    ensures AfterAll(s, keys + [yank]).cmd == s.cmd
    ensures var t := AfterAll(s, keys);
            s.cmd == t.cmd[..t.cursor] + t.clip + t.cmd[t.cursor..]
  {
    hide AfterAll, KillRun;
    KillRunKeeps(s, keys);
    AfterAllConcat(s, keys, yank);
  }

  ghost predicate PlainKill(key: Key) {
    key.binding in {Bound(KillLine), Bound(BackwardKillLine), Bound(KillWord), Bound(BackwardKillWord)}
  }

  /** Any sequence of the four kill commands is such a run, whatever the line. */
  lemma {:induction false} PlainKillsRun(s: State, keys: seq<Key>)
    requires Ok(s) && !s.quote && forall i :: 0 <= i < |keys| ==> PlainKill(keys[i])
    ensures KillRun(s, keys)
    decreases |keys|
  {
    hide After, Restored;
    if keys != [] {
      assert PlainKill(keys[0]);
      KillsKeep(s, keys[0]);
      PlainKillsRun(After(s, keys[0]), keys[1..]);
    }
  }

  /** The variables that the editor's functions share. */
  class Editor {
    var cmd: Text
    var cursorPos: nat
    var clipBoard: Text
    var thisFun: Fun
    var lastFun: Fun
    var quoteFlag: bool

    constructor (line: Text)
      ensures Now() == State(line, |line|, [], Nothing, false)
    {
      cmd, cursorPos, clipBoard := line, |line|, [];
      thisFun, lastFun, quoteFlag := Nothing, Nothing, false;
    }

    function Now(): State
      reads this
    {
      State(cmd, cursorPos, clipBoard, lastFun, quoteFlag)
    }

    /** The state as it is once the running command has returned. */
    function Next(): State
      reads this
    {
      Now().(last := thisFun)
    }

    method InsertText(str: Text)
      requires Ok(Now())
      modifies this`cmd, this`cursorPos
      ensures Now() == Inserted(old(Now()), str)
    {
      if str != [] {
        cmd := cmd[..cursorPos] + str + cmd[cursorPos..];
        cursorPos := cursorPos + |str|;
      } else {
        assert cmd[..cursorPos] + str + cmd[cursorPos..] == cmd;
      }
    }

    method SkipWordForward(from: nat) returns (pos: nat)
      requires from <= |cmd|
      ensures pos == WordEnd(cmd, from)
    {
      pos := from;
      while pos < |cmd| && !IsWord(cmd[pos])
        invariant from <= pos <= |cmd| && RunEnd(cmd, pos, false) == RunEnd(cmd, from, false)
      {
        pos := pos + 1;
      }
      while pos < |cmd| && IsWord(cmd[pos])
        invariant from <= pos <= |cmd| && RunEnd(cmd, pos, true) == WordEnd(cmd, from)
      {
        pos := pos + 1;
      }
    }

    method SkipWordBackward(from: nat) returns (pos: nat)
      requires from <= |cmd|
      ensures pos == WordStart(cmd, from)
    {
      pos := from;
      while pos > 0 && !IsWord(cmd[pos - 1])
        invariant pos <= from && RunStart(cmd, pos, false) == RunStart(cmd, from, false)
      {
        pos := pos - 1;
      }
      while pos > 0 && IsWord(cmd[pos - 1])
        invariant pos <= from && RunStart(cmd, pos, true) == WordStart(cmd, from)
      {
        pos := pos - 1;
      }
    }

    method KillRegion(start: nat, end: nat, dir: int)
      requires Ok(Now()) && start <= end <= |cmd|
      modifies this`cmd, this`cursorPos, this`clipBoard, this`thisFun
      ensures Next() == Killed(old(Now()), start, end, dir)
    {
      var s := cmd[start..end];
      if lastFun != Fun.KillRegion {
        clipBoard := s;
      } else if dir < 0 {
        clipBoard := s + clipBoard;
      } else {
        clipBoard := clipBoard + s;
      }
      cmd := cmd[..start] + cmd[end..];
      if cursorPos > end {
        cursorPos := cursorPos - (end - start);
      } else if cursorPos > start {
        cursorPos := start;
      }
      thisFun := Fun.KillRegion;
    }

    method DeleteCharDir(dir: int)
      requires Ok(Now()) && thisFun == Of(if dir < 0 then BackwardDeleteChar else DeleteChar)
      requires dir == 1 || dir == -1
      modifies this`cmd, this`cursorPos, this`clipBoard, this`thisFun
      ensures Next() == Do(old(Now()), if dir < 0 then BackwardDeleteChar else DeleteChar)
    {
      var start: int := cursorPos;
      if dir < 0 {
        start := start - 1;
        while TrailingAt(cmd, start)
          invariant -1 <= start < cursorPos || start == -1
          invariant BeforeTrailing(cmd, start) == DeleteFrom(Now(), BackwardDeleteChar)
          decreases start
        {
          start := start - 1;
        }
      }
      ghost var c := if dir < 0 then BackwardDeleteChar else DeleteChar;
      var end := start + 1;
      while TrailingAt(cmd, end)
        invariant 0 <= end && PastTrailing(cmd, end) == DeleteTo(Now(), c)
        decreases |cmd| - end
      {
        end := end + 1;
      }
      if start >= 0 && start < |cmd| {
        if lastFun == Fun.KillRegion {
          KillRegion(start, end, dir);
        } else {
          cmd := cmd[..start] + cmd[end..];
          cursorPos := start;
        }
      }
    }

    /** Calls the command that a key is bound to. */
    method Run(c: Command)
      requires Ok(Now()) && thisFun == Of(c)
      modifies this`cmd, this`cursorPos, this`clipBoard, this`thisFun, this`quoteFlag
      ensures Next() == Do(old(Now()), c)
    {
      match c
      case KillLine => KillRegion(cursorPos, |cmd|, 1);
      case BackwardKillLine => KillRegion(0, cursorPos, -1);
      case KillWord =>
        var end := SkipWordForward(cursorPos);
        KillRegion(cursorPos, end, 1);
      case BackwardKillWord =>
        var start := SkipWordBackward(cursorPos);
        KillRegion(start, cursorPos, -1);
      case DeleteChar => DeleteCharDir(1);
      case BackwardDeleteChar => DeleteCharDir(-1);
      case Yank => InsertText(clipBoard);
      case QuotedInsert => quoteFlag := true;
      case BeginningOfLine => cursorPos := 0;
      case EndOfLine => cursorPos := |cmd|;
      case ForwardWord => cursorPos := SkipWordForward(cursorPos);
      case BackwardWord => cursorPos := SkipWordBackward(cursorPos);
    }

    /** handle_key, for the commands above. */
    method HandleKey(key: Key)
      requires Ok(Now())
      modifies this
      ensures Now() == After(old(Now()), key)
    {
      if quoteFlag {
        if UcsLength(key.text) == 1 {
          InsertText(key.text);
        }
        quoteFlag := false;
      } else if key.binding.Bound? {
        thisFun := Of(key.binding.command);
        Run(key.binding.command);
        lastFun := thisFun;
      } else if Typeable(key.text) {
        InsertText(key.text);
        lastFun := Fun.Insert;
      }
      cursorPos := if cursorPos > |cmd| then |cmd| else cursorPos;
    }
  }
}
