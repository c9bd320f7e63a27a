/** Shell pattern matching: path_fnmatch against the language its patterns denote. */
module Glob {
  import opened Basics

  /** The flag bits; PATH_NOTFIRST, which only the matcher itself sets, is passed separately. */
  datatype Flags = Flags(pathname: bool, noescape: bool, period: bool)

  const PATH_FNM_NOMATCH: int := 1

  /** No result of the code: its element loop goes on for ever at one place of the pattern. */
  const STUCK: int := 2

  // ----- patterns

  datatype Item = One(c: char) | Range(lo: char, hi: char)

  /** plain: the character stands for itself in the pattern, with no backslash before it. stalls: a
      "[:" stands behind the items, on which the matcher does not advance. */
  datatype Tok = Star | Any | Lit(c: char, plain: bool) | Set(neg: bool, items: seq<Item>, stalls: bool) | Never

  /** Where the elements of the bracket expression at i begin. */
  function First(p: string, i: nat): nat {
    if i + 1 < |p| && p[i+1] == '!' then i + 2 else i + 1
  }

  /** The next ']' at or after i, or the length. */
  function Closing(p: string, i: nat): (k: nat)
    ensures k <= |p| && (i <= |p| ==> i <= k)
    ensures k < |p| ==> p[k] == ']'
    ensures forall j :: i <= j < k && j < |p| ==> p[j] != ']'
    decreases |p| - i
  {
    if i >= |p| then |p| else if p[i] == ']' then i else Closing(p, i + 1)
  }

  /** The bracket expression at i ends at Close; a ']' that comes first is an element. */
  function Close(p: string, i: nat): (k: nat)
    requires i < |p|
    ensures i < k <= |p|
  {
    Closing(p, First(p, i) + 1)
  }

  predicate IsRange(p: string, e: nat) {
    e + 2 < |p| && p[e+1] == '-' && p[e+2] != ']'
  }

  predicate IsClass(p: string, e: nat) {
    e + 1 < |p| && p[e] == '[' && p[e+1] == ':'
  }

  function Next(p: string, e: nat): (n: nat)
    ensures n > e
  {
    if IsRange(p, e) then e + 3 else e + 1
  }

  /** The elements from e on do not end with the pattern in the middle of a range. */
  predicate NoOpenRange(p: string, e: nat, close: nat)
    decreases close - e
  {
    e < close <= |p| && !IsClass(p, e) ==>
      !(e + 2 == |p| && p[e+1] == '-') && NoOpenRange(p, Next(p, e), close)
  }

  /** The elements from e on, up to a "[:". */
  function Items(p: string, e: nat, close: nat): seq<Item>
    requires close <= |p|
    decreases close - e
  {
    if e >= close || IsClass(p, e) then [] else [ItemAt(p, e)] + Items(p, Next(p, e), close)
  }

  function ItemAt(p: string, e: nat): Item
    requires e < |p|
  {
    if IsRange(p, e) then Range(p[e], p[e+2]) else One(p[e])
  }

  predicate HasClass(p: string, e: nat, close: nat)
    requires close <= |p|
    decreases close - e
  {
    e < close && (IsClass(p, e) || HasClass(p, Next(p, e), close))
  }

  /** No bracket expression from i on breaks off in the middle of a range, past which the matcher would
      read beyond the pattern. */
  predicate WellFormed(p: string, i: nat, fl: Flags)
    decreases |p| - i
  {
    i < |p| ==>
      && (p[i] == '[' ==> NoOpenRange(p, First(p, i), Close(p, i)))
      && WellFormed(p, After(p, i, fl), fl)
  }

  /** The position behind the token at i. */
  function After(p: string, i: nat, fl: Flags): (j: nat)
    requires i < |p|
    ensures i < j <= |p|
  {
    if p[i] == '[' then (if Close(p, i) < |p| then Close(p, i) + 1 else |p|)
    else if p[i] == '\\' && !fl.noescape && i + 1 < |p| then i + 2
    else i + 1
  }

  /** A bracket expression that is not closed is closed by the end of the pattern, but when it is
      negated it matches nothing. */
  function TokenAt(p: string, i: nat, fl: Flags): Tok
    requires i < |p|
  {
    match p[i]
    case '[' =>
      var neg, close := First(p, i) == i + 2, Close(p, i);
      var stalls := HasClass(p, First(p, i), close);
      if neg && close == |p| && !stalls then Never else Set(neg, Items(p, First(p, i), close), stalls)
    case '*' => Star
    case '?' => Any
    case '\\' => if fl.noescape then Lit('\\', true) else if i + 1 < |p| then Lit(p[i+1], false) else Never
    case c => Lit(c, true)
  }

  function Tokens(p: string, i: nat, fl: Flags): seq<Tok>
    decreases |p| - i
  {
    if i >= |p| then [] else [TokenAt(p, i, fl)] + Tokens(p, After(p, i, fl), fl)
  }

  // ----- the language

  predicate ItemMatches(x: Item, c: char) {
    match x
    case One(d) => c == d
    case Range(lo, hi) => SignedChar(lo as int) <= SignedChar(c as int) <= SignedChar(hi as int)
  }

  predicate InItems(items: seq<Item>, c: char) {
    exists k :: 0 <= k < |items| && ItemMatches(items[k], c)
  }

  /** A period that only an explicit period may match. */
  predicate LeadingPeriod(s: string, a: nat, fl: Flags) {
    fl.period && a < |s| && s[a] == '.' && (a == 0 || (fl.pathname && s[a-1] == '/'))
  }

  /** Under PATHNAME a slash is matched by a slash in the pattern only. */
  predicate Slash(s: string, a: nat, fl: Flags) {
    fl.pathname && a < |s| && s[a] == '/'
  }

  /** Token t matches the part of s from a to b. */
  predicate Fits(t: Tok, s: string, a: nat, b: nat, fl: Flags) {
    && a <= b <= |s| && (LeadingPeriod(s, a, fl) ==> t == Lit('.', true))
    && match t
       case Star => forall k :: a <= k < b ==> !Slash(s, k, fl)
       case Any => b == a + 1 && !Slash(s, a, fl)
       case Lit(c, _) => b == a + 1 && s[a] == c
       case Set(_, _, _) =>
         b == a + 1 && !Slash(s, a, fl) && BracketTakes(t, s[a])
       case Never => false
  }

  /** The matcher does not get past token t at position a: the character there is not among the items
      before a "[:". */
  predicate StallsAt(t: Tok, s: string, a: nat, fl: Flags) {
    && a < |s| && !LeadingPeriod(s, a, fl) && !Slash(s, a, fl)
    && BracketStalls(t, s[a])
  }

  /** The string can be cut into one part for each token. */
  ghost predicate InLanguage(toks: seq<Tok>, s: string, fl: Flags) {
    exists cuts: seq<nat> :: CutBy(toks, s, 0, cuts, fl)
  }

  ghost predicate CutBy(toks: seq<Tok>, s: string, a: nat, cuts: seq<nat>, fl: Flags) {
    && |cuts| == |toks| + 1 && cuts[0] == a && cuts[|toks|] == |s|
    && forall k :: 0 <= k < |toks| ==> Fits(toks[k], s, cuts[k], cuts[k+1], fl)
  }

  /** The same, token by token. */
  ghost predicate Matches(toks: seq<Tok>, s: string, a: nat, fl: Flags) {
    if toks == [] then a == |s|
    else exists b :: Fits(toks[0], s, a, b, fl) && Matches(toks[1..], s, b, fl)
  }

  lemma {:induction false} MatchesIsCutting(toks: seq<Tok>, s: string, a: nat, fl: Flags)
    ensures Matches(toks, s, a, fl) <==> exists cuts: seq<nat> :: CutBy(toks, s, a, cuts, fl)
  {
    if toks == [] {
      if a == |s| { assert CutBy(toks, s, a, [a], fl); }
    } else {
      if Matches(toks, s, a, fl) {
        var b: nat :| Fits(toks[0], s, a, b, fl) && Matches(toks[1..], s, b, fl);
        MatchesIsCutting(toks[1..], s, b, fl);
        var rest: seq<nat> :| CutBy(toks[1..], s, b, rest, fl);
        var cuts := [a] + rest;
        forall k | 0 <= k < |toks| ensures Fits(toks[k], s, cuts[k], cuts[k+1], fl) {
          if k > 0 { assert toks[k] == toks[1..][k-1]; }
        }
        assert CutBy(toks, s, a, cuts, fl);
      }
      if cuts: seq<nat> :| CutBy(toks, s, a, cuts, fl) {
        forall k | 0 <= k < |toks[1..]| ensures Fits(toks[1..][k], s, cuts[1..][k], cuts[1..][k+1], fl) {
          assert Fits(toks[k+1], s, cuts[k+1], cuts[k+2], fl);
        }
        assert CutBy(toks[1..], s, cuts[1], cuts[1..], fl);
        MatchesIsCutting(toks[1..], s, cuts[1], fl);
        assert Fits(toks[0], s, cuts[0], cuts[0+1], fl);
      }
    }
  }

  /** The string can be cut into parts for the first tokens such that the matcher does not get past the
      next one. */
  ghost predicate Stalls(toks: seq<Tok>, s: string, a: nat, fl: Flags) {
    toks != [] && (StallsAt(toks[0], s, a, fl)
                   || exists b :: Fits(toks[0], s, a, b, fl) && Stalls(toks[1..], s, b, fl))
  }

  /** The string can be cut into one part for each token, and so that the search comes to that cut: it
      tries longer parts first, and no part longer than the one that is cut off lets the matcher get
      stuck behind it. */
  ghost predicate Wins(toks: seq<Tok>, s: string, a: nat, fl: Flags) {
    if toks == [] then a == |s|
    else exists b :: Fits(toks[0], s, a, b, fl) && Wins(toks[1..], s, b, fl) && NoStallPast(toks, s, a, b, fl)
  }

  ghost predicate NoStallPast(toks: seq<Tok>, s: string, a: nat, b: nat, fl: Flags)
    requires toks != []
  {
    forall c :: b < c && Fits(toks[0], s, a, c, fl) ==> !Stalls(toks[1..], s, c, fl)
  }

  /** What wins matches, and what matches wins unless the matcher can get stuck. */
  lemma {:induction false} WinsMatches(toks: seq<Tok>, s: string, a: nat, fl: Flags)
    ensures Wins(toks, s, a, fl) ==> Matches(toks, s, a, fl)
    ensures Matches(toks, s, a, fl) && !Stalls(toks, s, a, fl) ==> Wins(toks, s, a, fl)
  {
    if toks != [] {
      if Wins(toks, s, a, fl) {
        var b: nat :| Fits(toks[0], s, a, b, fl) && Wins(toks[1..], s, b, fl);
        WinsMatches(toks[1..], s, b, fl);
      }
      if Matches(toks, s, a, fl) && !Stalls(toks, s, a, fl) {
        var b: nat :| Fits(toks[0], s, a, b, fl) && Matches(toks[1..], s, b, fl);
        WinsMatches(toks[1..], s, b, fl);
        assert NoStallPast(toks, s, a, b, fl);
      }
    }
  }

  ghost predicate Classless(toks: seq<Tok>) {
    forall k :: 0 <= k < |toks| && toks[k].Set? ==> !toks[k].stalls
  }

  lemma {:induction false} ClasslessNeverStalls(toks: seq<Tok>, s: string, a: nat, fl: Flags)
    requires Classless(toks)
    ensures !Stalls(toks, s, a, fl)
  {
    if b: nat :| toks != [] && Fits(toks[0], s, a, b, fl) && Stalls(toks[1..], s, b, fl) {
      assert forall k :: 0 < k < |toks| ==> toks[1..][k-1] == toks[k];
      ClasslessNeverStalls(toks[1..], s, b, fl);
    }
  }

  // ----- one step of the matcher

  /** At the end of the string only stars are left to match. */
  lemma {:induction false} MatchesAtEnd(p: string, i: nat, s: string, fl: Flags)
    requires i < |p| && WellFormed(p, i, fl)
    ensures Matches(Tokens(p, i, fl), s, |s|, fl)
       <==> p[i] == '*' && Matches(Tokens(p, i + 1, fl), s, |s|, fl)
    ensures Stalls(Tokens(p, i, fl), s, |s|, fl) ==> p[i] == '*' && Stalls(Tokens(p, i + 1, fl), s, |s|, fl)
  {
    var toks := Tokens(p, i, fl);
    assert toks[0] == TokenAt(p, i, fl) && toks[1..] == Tokens(p, After(p, i, fl), fl);
    if p[i] == '*' {
      assert Fits(Star, s, |s|, |s|, fl);
    }
  }

  /** A token that takes one character. */
  lemma OneChar(toks: seq<Tok>, s: string, a: nat, fl: Flags)
    requires toks != [] && a < |s| && toks[0] != Star
    ensures Stalls(toks, s, a, fl)
       <==> StallsAt(toks[0], s, a, fl) || (Fits(toks[0], s, a, a + 1, fl) && Stalls(toks[1..], s, a + 1, fl))
    ensures Wins(toks, s, a, fl) <==> Fits(toks[0], s, a, a + 1, fl) && Wins(toks[1..], s, a + 1, fl)
  {
    var a1 := a + 1;
    if Fits(toks[0], s, a, a1, fl) && Wins(toks[1..], s, a1, fl) {
      assert NoStallPast(toks, s, a, a1, fl);
    }
  }

  /** A star takes nothing, or one more character. */
  lemma StarStalls(toks: seq<Tok>, s: string, a: nat, fl: Flags)
    requires toks != [] && toks[0] == Star && a < |s| && !LeadingPeriod(s, a, fl)
    ensures Stalls(toks, s, a, fl)
       <==> Stalls(toks[1..], s, a, fl) || (!Slash(s, a, fl) && Stalls(toks, s, a + 1, fl))
  {
    if Stalls(toks[1..], s, a, fl) {
      assert Fits(toks[0], s, a, a, fl);
    }
    var a1 := a + 1;
    if !Slash(s, a, fl) && Stalls(toks, s, a1, fl) {
      var b: nat :| Fits(toks[0], s, a1, b, fl) && Stalls(toks[1..], s, b, fl);
      assert Fits(toks[0], s, a, b, fl);
    }
    if Stalls(toks, s, a, fl) {
      var b: nat :| Fits(toks[0], s, a, b, fl) && Stalls(toks[1..], s, b, fl);
      if b > a {
        assert !Slash(s, a, fl);
        assert Fits(toks[0], s, a1, b, fl);
      }
    }
  }

  /** A star that takes the character at a takes what it takes from there on. */
  lemma StarLater(toks: seq<Tok>, s: string, a: nat, fl: Flags)
    requires toks != [] && toks[0] == Star && a < |s| && !LeadingPeriod(s, a, fl)
    ensures forall c :: c > a ==>
              (Fits(toks[0], s, a, c, fl) <==> !Slash(s, a, fl) && Fits(toks[0], s, a + 1, c, fl))
  {
  }

  lemma NoStallBehind(toks: seq<Tok>, s: string, a: nat, fl: Flags)
    requires toks != [] && toks[0] == Star && a < |s| && !LeadingPeriod(s, a, fl) && !Slash(s, a, fl)
    requires NoStallPast(toks, s, a, a, fl)
    ensures !Stalls(toks, s, a + 1, fl)
  {
    StarLater(toks, s, a, fl);
    var a1 := a + 1;
    forall c | Fits(toks[0], s, a1, c, fl) ensures !Stalls(toks[1..], s, c, fl) {
      assert Fits(toks[0], s, a, c, fl);
    }
  }

  lemma StarWins(toks: seq<Tok>, s: string, a: nat, fl: Flags)
    requires toks != [] && toks[0] == Star && a < |s| && !LeadingPeriod(s, a, fl)
    ensures Wins(toks, s, a, fl)
       <==> (!Slash(s, a, fl) && Wins(toks, s, a + 1, fl))
            || (Wins(toks[1..], s, a, fl) && (Slash(s, a, fl) || !Stalls(toks, s, a + 1, fl)))
  {
    var a1 := a + 1;
    if !Slash(s, a, fl) && Wins(toks, s, a1, fl) {
      var b: nat :| Fits(toks[0], s, a1, b, fl) && Wins(toks[1..], s, b, fl) && NoStallPast(toks, s, a1, b, fl);
      StarLater(toks, s, a, fl);
      assert Fits(toks[0], s, a, b, fl) && NoStallPast(toks, s, a, b, fl);
    }
    if Wins(toks[1..], s, a, fl) && (Slash(s, a, fl) || !Stalls(toks, s, a1, fl)) {
      StarLater(toks, s, a, fl);
      assert Fits(toks[0], s, a, a, fl) && NoStallPast(toks, s, a, a, fl);
    }
    if Wins(toks, s, a, fl) {
      var b: nat :| Fits(toks[0], s, a, b, fl) && Wins(toks[1..], s, b, fl) && NoStallPast(toks, s, a, b, fl);
      StarLater(toks, s, a, fl);
      if b > a {
        assert Fits(toks[0], s, a1, b, fl) && NoStallPast(toks, s, a1, b, fl);
      } else if !Slash(s, a, fl) {
        NoStallBehind(toks, s, a, fl);
      }
    }
  }

  /** What the first token asks of the character at a. */
  lemma TokenStep(toks: seq<Tok>, s: string, a: nat, fl: Flags)
    requires toks != [] && a < |s|
    ensures LeadingPeriod(s, a, fl) && toks[0] != Lit('.', true) ==>
              !Wins(toks, s, a, fl) && !Stalls(toks, s, a, fl)
    ensures !LeadingPeriod(s, a, fl) || toks[0] == Lit('.', true) ==>
              if toks[0] == Star then
                && (Wins(toks, s, a, fl)
                    <==> (!Slash(s, a, fl) && Wins(toks, s, a + 1, fl))
                         || (Wins(toks[1..], s, a, fl) && (Slash(s, a, fl) || !Stalls(toks, s, a + 1, fl))))
                && (Stalls(toks, s, a, fl)
                    <==> Stalls(toks[1..], s, a, fl) || (!Slash(s, a, fl) && Stalls(toks, s, a + 1, fl)))
              else if Takes(toks[0], s, a, fl) then
                && (Wins(toks, s, a, fl) <==> Wins(toks[1..], s, a + 1, fl))
                && (Stalls(toks, s, a, fl) <==> Stalls(toks[1..], s, a + 1, fl))
              else !Wins(toks, s, a, fl) && (Stalls(toks, s, a, fl) <==> StallsAt(toks[0], s, a, fl))
  {
    if toks[0] == Star {
      if !LeadingPeriod(s, a, fl) {
        StarWins(toks, s, a, fl);
        StarStalls(toks, s, a, fl);
      }
    } else {
      OneChar(toks, s, a, fl);
    }
  }

  /** What a bracket expression does with a character, slashes and leading periods aside. */
  predicate BracketTakes(t: Tok, c: char) {
    t.Set? && InItems(t.items, c) != t.neg && (t.stalls ==> !t.neg)
  }

  predicate BracketStalls(t: Tok, c: char) {
    t.Set? && t.stalls && !InItems(t.items, c)
  }

  /** The token takes the character at a, leading periods aside. */
  predicate Takes(t: Tok, s: string, a: nat, fl: Flags)
    requires a < |s|
  {
    match t
    case Any => !Slash(s, a, fl)
    case Lit(c, _) => c == s[a]
    case Set(_, _, _) => !Slash(s, a, fl) && BracketTakes(t, s[a])
    case Never => false
    case Star => false
  }

  // ----- what single tokens stand for, and what a list of them does

  lemma OneToken(t: Tok, s: string, fl: Flags)
    ensures InLanguage([t], s, fl) <==> Fits(t, s, 0, |s|, fl)
  {
    if Fits(t, s, 0, |s|, fl) {
      assert CutBy([t], s, 0, [0, |s|], fl);
    }
    if cuts: seq<nat> :| CutBy([t], s, 0, cuts, fl) {
      assert Fits([t][0], s, cuts[0], cuts[0+1], fl);
    }
  }

  /** A character that only a slash or an explicit period may match. */
  predicate Reserved(c: char, fl: Flags) {
    (fl.pathname && c == '/') || (fl.period && c == '.')
  }

  /** A star stands for any text, a question mark for any character, a bracket expression for one that is in
      one of its items, or in none, all but slashes under PATHNAME and a leading period under PERIOD. A
      character stands for itself, but one behind a backslash for no leading period. */
  lemma TokensMean(s: string, c: char, plain: bool, neg: bool, items: seq<Item>, fl: Flags)
    ensures InLanguage([Star], s, fl)
       <==> (fl.pathname ==> '/' !in s) && (fl.period && s != "" ==> s[0] != '.')
    ensures InLanguage([Any], s, fl) <==> |s| == 1 && !Reserved(s[0], fl)
    ensures InLanguage([Lit(c, plain)], s, fl) <==> s == [c] && (fl.period && c == '.' ==> plain)
    ensures InLanguage([Set(neg, items, false)], s, fl)
       <==> |s| == 1 && !Reserved(s[0], fl)
            && (neg <==> forall k :: 0 <= k < |items| ==>
                  if items[k].One? then s[0] != items[k].c
                  else SignedChar(s[0] as int) < SignedChar(items[k].lo as int)
                       || SignedChar(items[k].hi as int) < SignedChar(s[0] as int))
  {
    OneToken(Star, s, fl);
    OneToken(Any, s, fl);
    OneToken(Lit(c, plain), s, fl);
    OneToken(Set(neg, items, false), s, fl);
    NoSlash(s, fl);
    if |s| == 1 {
      NotInItems(items, s[0]);
    }
  }

  lemma NoSlash(s: string, fl: Flags)
    ensures (forall k :: 0 <= k < |s| ==> !Slash(s, k, fl)) <==> (fl.pathname ==> '/' !in s)
  {
    if fl.pathname && '/' in s {
      var k :| 0 <= k < |s| && s[k] == '/';
      assert Slash(s, k, fl);
    }
  }

  lemma NotInItems(items: seq<Item>, c: char)
    ensures !InItems(items, c)
       <==> forall k :: 0 <= k < |items| ==>
              if items[k].One? then c != items[k].c
              else SignedChar(c as int) < SignedChar(items[k].lo as int)
                   || SignedChar(items[k].hi as int) < SignedChar(c as int)
  {
  }

  /** Without PERIOD, a list of tokens stands for what its first ones stand for followed by what the others do. */
  lemma LanguagesConcat(ts: seq<Tok>, us: seq<Tok>, s: string, fl: Flags)
    requires !fl.period
    ensures InLanguage(ts + us, s, fl)
       <==> exists b :: 0 <= b <= |s| && InLanguage(ts, s[..b], fl) && InLanguage(us, s[b..], fl)
  {
    hide Matches, CutBy;
    MatchesIsCutting(ts + us, s, 0, fl);
    MatchesConcat(ts, us, s, 0, fl);
    forall b | 0 <= b <= |s|
      ensures Matches(ts, s[..b], 0, fl) && Matches(us, s, b, fl)
         <==> InLanguage(ts, s[..b], fl) && InLanguage(us, s[b..], fl)
    {
      MatchesIsCutting(ts, s[..b], 0, fl);
      MatchesIsCutting(us, s[b..], 0, fl);
      MatchesBehind(us, s, b, 0, fl);
    }
  }

  lemma {:induction false} MatchesConcat(ts: seq<Tok>, us: seq<Tok>, s: string, a: nat, fl: Flags)
    requires !fl.period
    ensures Matches(ts + us, s, a, fl)
       <==> exists b :: 0 <= b <= |s| && Matches(ts, s[..b], a, fl) && Matches(us, s, b, fl)
  {
    if ts == [] {
      assert ts + us == us;
      if Matches(us, s, a, fl) {
        assert Matches(ts, s[..a], a, fl);
      }
    } else {
      assert (ts + us)[1..] == ts[1..] + us && (ts + us)[0] == ts[0];
      if Matches(ts + us, s, a, fl) {
        var c: nat :| Fits(ts[0], s, a, c, fl) && Matches(ts[1..] + us, s, c, fl);
        MatchesConcat(ts[1..], us, s, c, fl);
        var b :| 0 <= b <= |s| && Matches(ts[1..], s[..b], c, fl) && Matches(us, s, b, fl);
        MatchesUpTo(ts[1..], s[..b], c, fl);
        FitsWithin(ts[0], s, b, a, c, fl);
      }
      if b :| 0 <= b <= |s| && Matches(ts, s[..b], a, fl) && Matches(us, s, b, fl) {
        var c: nat :| Fits(ts[0], s[..b], a, c, fl) && Matches(ts[1..], s[..b], c, fl);
        MatchesConcat(ts[1..], us, s, c, fl);
        FitsWithin(ts[0], s, b, a, c, fl);
      }
    }
  }

  lemma MatchesUpTo(ts: seq<Tok>, s: string, a: nat, fl: Flags)
    requires Matches(ts, s, a, fl)
    ensures a <= |s|
  {
  }

  lemma {:induction false} MatchesBehind(us: seq<Tok>, s: string, n: nat, a: nat, fl: Flags)
    requires !fl.period && n <= |s|
    ensures Matches(us, s, n + a, fl) <==> Matches(us, s[n..], a, fl)
    decreases |us|
  {
    if us != [] {
      var m: nat := n + a;
      if Matches(us, s, m, fl) {
        var c: nat :| Fits(us[0], s, m, c, fl) && Matches(us[1..], s, c, fl);
        FitsBehind(us[0], s, n, a, c - n, fl);
        MatchesBehind(us[1..], s, n, c - n, fl);
      }
      if Matches(us, s[n..], a, fl) {
        var c: nat :| Fits(us[0], s[n..], a, c, fl) && Matches(us[1..], s[n..], c, fl);
        FitsBehind(us[0], s, n, a, c, fl);
        MatchesBehind(us[1..], s, n, c, fl);
      }
    }
  }

  lemma FitsWithin(t: Tok, s: string, n: nat, a: nat, b: nat, fl: Flags)
    requires !fl.period && b <= n <= |s|
    ensures Fits(t, s, a, b, fl) <==> Fits(t, s[..n], a, b, fl)
  {
    assert a <= b ==> forall k :: a <= k < b ==> Slash(s, k, fl) == Slash(s[..n], k, fl);
  }

  lemma FitsBehind(t: Tok, s: string, n: nat, a: nat, b: nat, fl: Flags)
    requires !fl.period && n <= |s|
    ensures Fits(t, s, n + a, n + b, fl) <==> Fits(t, s[n..], a, b, fl)
  {
    var u := s[n..];
    if a <= b <= |u| {
      assert forall k :: a <= k < b ==> Slash(u, k, fl) == Slash(s, n + k, fl);
      assert forall k :: n + a <= k < n + b ==> Slash(s, k, fl) == Slash(u, k - n, fl);
    }
  }

  /** Under PERIOD a star stands for no period behind a slash, if PATHNAME is set too. */
  lemma PeriodBehindSlash(plain: bool, fl: Flags)
    ensures InLanguage([Lit('a', plain), Lit('/', plain), Star], "a/.b", fl) <==> !(fl.period && fl.pathname)
  {
    var toks, s := [Lit('a', plain), Lit('/', plain), Star], "a/.b";
    assert s[0] == 'a' && s[1] == '/' && s[2] == '.' && s[3] == 'b';
    if !(fl.period && fl.pathname) {
      assert Fits(toks[0], s, 0, 1, fl) && Fits(toks[1], s, 1, 2, fl) && Fits(toks[2], s, 2, 4, fl);
      assert CutBy(toks, s, 0, [0, 1, 2, 4], fl);
    }
    forall cuts: seq<nat> | CutBy(toks, s, 0, cuts, fl) ensures !(fl.period && fl.pathname) {
      BehindSlash(toks, s, cuts, fl);
    }
  }

  lemma BehindSlash(toks: seq<Tok>, s: string, cuts: seq<nat>, fl: Flags)
    requires |toks| == 3 && toks[0].Lit? && toks[1].Lit? && toks[2] == Star
    requires |s| == 4 && s[1] == '/' && s[2] == '.' && CutBy(toks, s, 0, cuts, fl)
    ensures !(fl.period && fl.pathname)
  {
    assert Fits(toks[0], s, cuts[0], cuts[0+1], fl) && Fits(toks[1], s, cuts[1], cuts[1+1], fl);
    assert Fits(toks[2], s, cuts[2], cuts[2+1], fl);
  }

  // ----- patterns written out

  function ItemText(x: Item): string {
    match x
    case One(c) => [c]
    case Range(lo, hi) => [lo, '-', hi]
  }

  function ItemsText(items: seq<Item>): string {
    if items == [] then "" else ItemText(items[0]) + ItemsText(items[1..])
  }

  function TokText(t: Tok): string {
    match t
    case Star => "*"
    case Any => "?"
    case Lit(c, plain) => if plain then [c] else ['\\', c]
    case Set(neg, items, _) => (if neg then "[!" else "[") + ItemsText(items) + "]"
    case Never => ""
  }

  function PatternText(toks: seq<Tok>): string {
    if toks == [] then "" else TokText(toks[0]) + PatternText(toks[1..])
  }

  /** An item that cannot be taken for anything else inside brackets. */
  predicate ClearItem(x: Item) {
    match x
    case One(c) => c !in {'!', '-', '[', ']'}
    case Range(lo, hi) => lo !in {'!', '-', '[', ']'} && hi != ']'
  }

  /** A token that its text stands for. */
  predicate Clear(t: Tok, fl: Flags) {
    match t
    case Lit(c, plain) => if plain then c !in {'*', '?', '['} && (c == '\\' ==> fl.noescape) else !fl.noescape
    case Set(_, items, stalls) => !stalls && items != [] && forall k :: 0 <= k < |items| ==> ClearItem(items[k])
    case Never => false
    case _ => true
  }

  /** Reading undoes writing: the text of a list of such tokens is read as those tokens. */
  lemma {:induction false} ReadsBack(p: string, i: nat, toks: seq<Tok>, fl: Flags)
    requires i <= |p| && p[i..] == PatternText(toks) && forall k :: 0 <= k < |toks| ==> Clear(toks[k], fl)
    ensures Tokens(p, i, fl) == toks && WellFormed(p, i, fl)
    decreases |toks|
  {
    hide Clear;
    if toks != [] {
      var t, rest := toks[0], PatternText(toks[1..]);
      assert Clear(t, fl);
      hide PatternText, Tokens, TokenAt, TokText;
      ReadsOne(p, i, t, rest, fl);
      var j := After(p, i, fl);
      ReadsBack(p, j, toks[1..], fl);
      TokensCons(p, i, fl);
    }
  }

  lemma TokensCons(p: string, i: nat, fl: Flags)
    requires i < |p|
    ensures Tokens(p, i, fl) == [TokenAt(p, i, fl)] + Tokens(p, After(p, i, fl), fl)
  {
  }

  lemma ReadsOne(p: string, i: nat, t: Tok, rest: string, fl: Flags)
    requires i <= |p| && p[i..] == TokText(t) + rest && Clear(t, fl)
    ensures i < |p| && TokenAt(p, i, fl) == t && p[After(p, i, fl)..] == rest
    ensures p[i] == '[' ==> NoOpenRange(p, First(p, i), Close(p, i))
  {
    if t.Set? {
      hide *;
      ReadsSet(p, i, t, rest, fl);
    } else {
      TextAt(p, i, TokText(t), rest);
      hide Close, First, NoOpenRange, Items, HasClass;
    }
  }

  lemma TextAt(p: string, i: nat, u: string, rest: string)
    requires i <= |p| && p[i..] == u + rest
    ensures i + |u| <= |p| && p[i+|u|..] == rest
    ensures |u| > 0 ==> p[i] == u[0]
    ensures |u| > 1 ==> p[i+1] == u[1]
  {
    assert p[i..][|u|..] == rest;
    assert |u| > 0 ==> p[i] == p[i..][0];
    assert |u| > 1 ==> p[i+1] == p[i..][1];
  }

  lemma ReadsSet(p: string, i: nat, t: Tok, rest: string, fl: Flags)
    requires i <= |p| && t.Set? && p[i..] == TokText(t) + rest && Clear(t, fl)
    ensures i < |p| && p[i] == '[' && TokenAt(p, i, fl) == t && p[After(p, i, fl)..] == rest
    ensures NoOpenRange(p, First(p, i), Close(p, i))
  {
    var e := i + if t.neg then 2 else 1;
    var close := e + |ItemsText(t.items)|;
    ItemsClear(t, fl);
    hide *;
    SetWritten(p, i, t, rest, e, close);
    SetRead(p, i, t, rest, e, close, fl);
  }

  lemma SetRead(p: string, i: nat, t: Tok, rest: string, e: nat, close: nat, fl: Flags)
    requires t.Set? && !t.stalls && forall k :: 0 <= k < |t.items| ==> ClearItem(t.items[k])
    requires e == i + (if t.neg then 2 else 1)
    requires i < e < close < |p| && p[i] == '[' && (t.neg ==> p[i+1] == '!') && p[e] != '!'
    requires p[e..close] == ItemsText(t.items) && p[close] == ']' && p[close+1..] == rest
    requires forall j :: e <= j < close ==> p[j] != ']'
    ensures TokenAt(p, i, fl) == t && p[After(p, i, fl)..] == rest && NoOpenRange(p, First(p, i), Close(p, i))
  {
    hide *;
    SetAt(p, i, e, close, t.neg);
    ReadsItems(p, e, close, t.items);
    SetToken(p, i, e, close, t, fl);
  }

  lemma SetWritten(p: string, i: nat, t: Tok, rest: string, e: nat, close: nat)
    requires i <= |p| && t.Set? && p[i..] == TokText(t) + rest
    requires ItemsText(t.items) != "" && ItemsText(t.items)[0] != '!' && ']' !in ItemsText(t.items)
    requires e == i + (if t.neg then 2 else 1) && close == e + |ItemsText(t.items)|
    ensures i < e < close < |p| && p[i] == '[' && (t.neg ==> p[i+1] == '!') && p[e] != '!'
    ensures p[e..close] == ItemsText(t.items) && p[close] == ']' && p[close+1..] == rest
    ensures forall j :: e <= j < close ==> p[j] != ']'
  {
    var open, body := if t.neg then "[!" else "[", ItemsText(t.items);
    assert TokText(t) == open + body + "]";
    hide *;
    BodyWritten(p, i, open, body, rest);
  }

  lemma BodyWritten(p: string, i: nat, open: string, body: string, rest: string)
    requires i <= |p| && p[i..] == open + body + "]" + rest && body != "" && body[0] != '!' && ']' !in body
    ensures var e := i + |open|;
            var close := e + |body|;
            && close < |p| && p[e..close] == body && p[close] == ']' && p[close+1..] == rest && p[e] != '!'
            && (forall j :: e <= j < close ==> p[j] != ']')
            && (|open| > 0 ==> p[i] == open[0]) && (|open| > 1 ==> p[i+1] == open[1])
  {
    Opened(p, i, open, body, rest);
    var e := i + |open|;
    assert p[e+0] == body[0];
    assert |open| > 0 ==> p[i+0] == open[0];
    forall j | e <= j < e + |body| ensures p[j] != ']' {
      assert p[e+(j-e)] == body[j-e];
    }
  }

  lemma SetToken(p: string, i: nat, e: nat, close: nat, t: Tok, fl: Flags)
    requires i < e < close < |p| && p[i] == '[' && e == i + (if t.Set? && t.neg then 2 else 1)
    requires First(p, i) == e && Close(p, i) == close
    requires t == Set(e == i + 2, Items(p, e, close), false) && !HasClass(p, e, close)
    ensures TokenAt(p, i, fl) == t && After(p, i, fl) == close + 1
  {
    hide Items, HasClass, First, Close;
  }

  lemma SetAt(p: string, i: nat, e: nat, close: nat, neg: bool)
    requires i < e < close < |p| && p[i] == '[' && e == i + (if neg then 2 else 1) && p[close] == ']' && p[e] != '!'
    requires (neg ==> p[i+1] == '!') && forall j :: e <= j < close ==> p[j] != ']'
    ensures First(p, i) == e && Close(p, i) == close
  {
    ClosingAt(p, e + 1, close);
  }

  lemma ItemsClear(t: Tok, fl: Flags)
    requires t.Set? && Clear(t, fl)
    ensures !t.stalls && ItemsText(t.items) != "" && ItemsText(t.items)[0] != '!' && ']' !in ItemsText(t.items)
    ensures forall k :: 0 <= k < |t.items| ==> ClearItem(t.items[k])
  {
    assert ClearItem(t.items[0]);
    NoneCloses(t.items);
  }

  lemma {:induction false} NoneCloses(items: seq<Item>)
    requires forall k :: 0 <= k < |items| ==> ClearItem(items[k])
    ensures ']' !in ItemsText(items)
    ensures items != [] ==> ItemsText(items) != "" && ItemsText(items)[0] !in {'!', '-', ']'}
  {
    if items != [] {
      assert ClearItem(items[0]);
      NoneCloses(items[1..]);
    }
  }

  lemma Opened(p: string, i: nat, open: string, body: string, rest: string)
    requires i <= |p| && p[i..] == open + body + "]" + rest
    ensures var e := i + |open|;
            && e + |body| < |p| && p[e..e+|body|] == body && p[e+|body|] == ']' && p[e+|body|+1..] == rest
            && (forall k :: 0 <= k < |open| ==> p[i+k] == open[k])
            && (forall k :: 0 <= k < |body| ==> p[e+k] == body[k])
  {
    var t := open + body + "]" + rest;
    assert forall k :: 0 <= k < |t| ==> p[i+k] == p[i..][k] == t[k];
  }

  lemma ClosingAt(p: string, i: nat, close: nat)
    requires i <= close < |p| && p[close] == ']' && forall j :: i <= j < close ==> p[j] != ']'
    ensures Closing(p, i) == close
  {
  }

  lemma {:induction false} ReadsItems(p: string, e: nat, close: nat, items: seq<Item>)
    requires e <= close < |p| && p[close] == ']' && p[e..close] == ItemsText(items)
    requires forall k :: 0 <= k < |items| ==> ClearItem(items[k])
    ensures Items(p, e, close) == items && !HasClass(p, e, close) && NoOpenRange(p, e, close)
    decreases |items|
  {
    if items != [] {
      hide ItemsText, ClearItem;
      var n := |ItemText(items[0])|;
      NoneCloses(items[1..]);
      ItemFirst(p[e..close], items);
      assert forall k :: 0 <= k < close - e ==> p[e+k] == p[e..close][k];
      assert p[e+n..close] == p[e..close][n..];
      assert p[e+n] == if e + n == close then ']' else p[e..close][n..][0];
      ItemHere(p, e, items[0]);
      ReadsItems(p, e + n, close, items[1..]);
    }
  }

  lemma ItemFirst(u: string, items: seq<Item>)
    requires items != [] && u == ItemsText(items)
    ensures var n := |ItemText(items[0])|;
            && n <= |u| && u[n..] == ItemsText(items[1..]) && forall k :: 0 <= k < n ==> u[k] == ItemText(items[0])[k]
  {
  }

  lemma ItemHere(p: string, e: nat, x: Item)
    requires ClearItem(x) && e + |ItemText(x)| < |p| && p[e+|ItemText(x)|] != '-'
    requires forall k :: 0 <= k < |ItemText(x)| ==> p[e+k] == ItemText(x)[k]
    ensures ItemAt(p, e) == x && Next(p, e) == e + |ItemText(x)| && !IsClass(p, e)
    ensures !(e + 2 == |p| && p[e+1] == '-')
  {
    assert p[e+0] == ItemText(x)[0];
    assert x.Range? ==> p[e+1] == ItemText(x)[1] && p[e+2] == ItemText(x)[2];
  }

  // ----- the code

  method SkipToClosing(p: string, i: nat) returns (k: nat)
    requires i <= |p|
    ensures k == Closing(p, i)
  {
    k := i;
    while k < |p| && p[k] != ']'
      invariant i <= k <= |p| && Closing(p, k) == Closing(p, i)
    {
      k := k + 1;
    }
  }

  /** Inside a bracket expression the next ']' is the one that closes it. */
  lemma ClosingWithin(p: string, i: nat, e: nat)
    requires i <= e <= Closing(p, i)
    ensures Closing(p, e) == Closing(p, i)
    decreases e - i
  {
    if i < e { ClosingWithin(p, i + 1, e); }
  }

  /** One element: what it is and where the next one begins. */
  lemma ItemStep(p: string, e: nat, close: nat)
    requires e < close <= |p| && (close < |p| ==> p[close] == ']') && NoOpenRange(p, e, close) && !IsClass(p, e)
    requires forall j :: e < j < close ==> p[j] != ']'
    ensures var n := Next(p, e);
            && n <= close && NoOpenRange(p, n, close) && Items(p, e, close) == [ItemAt(p, e)] + Items(p, n, close)
            && HasClass(p, e, close) == HasClass(p, n, close) && !(e + 2 == |p| && p[e+1] == '-')
  {
  }

  lemma InItemsCons(x: Item, xs: seq<Item>, c: char)
    ensures InItems([x] + xs, c) <==> ItemMatches(x, c) || InItems(xs, c)
  {
    assert ([x] + xs)[0] == x;
    if k :| 0 <= k < |xs| && ItemMatches(xs[k], c) { assert ([x] + xs)[k+1] == xs[k]; }
  }

  /** At the end, and at a "[:", there are no more items. */
  lemma NoItems(p: string, e: nat, close: nat, c: char)
    requires close <= |p| && (e >= close || IsClass(p, e))
    ensures !InItems(Items(p, e, close), c) && HasClass(p, e, close) == (e < close)
  {
  }

  /** The element loop of a bracket expression that begins at i, for the string character c. */
  method MatchBracket(p: string, i: nat, c: char, fl: Flags) returns (r: int, next: nat)
    requires i < |p| && p[i] == '[' && WellFormed(p, i, fl)
    ensures r == 0 <==> BracketTakes(TokenAt(p, i, fl), c)
    ensures r == STUCK <==> BracketStalls(TokenAt(p, i, fl), c)
    ensures r == 0 || r == STUCK || r == PATH_FNM_NOMATCH
    ensures r == 0 ==> next == After(p, i, fl)
  {
    hide Closing, NoOpenRange, Items, InItems, HasClass;
    next := i + 1;
    var neg := next < |p| && p[next] == '!';
    if neg {
      next := next + 1;
    }
    var start := next;
    ghost var close := Close(p, i);
    ghost var items := Items(p, start, close);
    NoItems(p, close, close, c);
    while next < |p|
      invariant start <= next <= close <= |p| && (close < |p| ==> p[close] == ']')
      invariant forall j :: start < j < close ==> p[j] != ']'
      invariant NoOpenRange(p, next, close) && (neg && close < |p| && next > start ==> next < close)
      invariant HasClass(p, start, close) == HasClass(p, next, close)
      invariant InItems(items, c) <==> InItems(Items(p, next, close), c)
      decreases |p| - next
    {
      if p[next] == ']' && next != start {
        break;
      }
      if p[next] == '[' && next + 1 < |p| && p[next+1] == ':' {
        NoItems(p, next, close, c);
        return STUCK, next;
      }
      ItemStep(p, next, close);
      ghost var item := ItemAt(p, next);
      var res;
      if next + 1 < |p| && p[next+1] == '-' && p[next+2] != ']' {
        res := SignedChar(p[next] as int) <= SignedChar(c as int) <= SignedChar(p[next+2] as int);
        next := next + 3;
      } else {
        res := p[next] == c;
        next := next + 1;
      }
      InItemsCons(item, Items(p, next, close), c);
      if (res && !neg) || (!res && neg && next < |p| && p[next] == ']') {
        ClosingWithin(p, start + 1, next);
        next := SkipToClosing(p, next);
        return 0, if next < |p| then next + 1 else next;
      } else if res && neg {
        return PATH_FNM_NOMATCH, next;
      }
    }
    return PATH_FNM_NOMATCH, next;
  }

  lemma NoTokens(s: string, j: nat, fl: Flags)
    ensures (Matches([], s, j, fl) <==> j == |s|) && (Wins([], s, j, fl) <==> j == |s|) && !Stalls([], s, j, fl)
  {
  }

  /** The string is used up: stars are skipped, anything else is a mismatch. */
  method AtEnd(p: string, i0: nat, s: string, fl: Flags) returns (r: int)
    requires i0 <= |p| && WellFormed(p, i0, fl)
    ensures r == 0 || r == PATH_FNM_NOMATCH
    ensures r == 0 <==> Wins(Tokens(p, i0, fl), s, |s|, fl)
    ensures !Stalls(Tokens(p, i0, fl), s, |s|, fl)
  {
    hide Matches, Stalls, Wins;
    var i := i0;
    while i < |p| && p[i] == '*'
      invariant i0 <= i <= |p| && WellFormed(p, i, fl)
      invariant Matches(Tokens(p, i, fl), s, |s|, fl) <==> Matches(Tokens(p, i0, fl), s, |s|, fl)
      invariant Stalls(Tokens(p, i0, fl), s, |s|, fl) ==> Stalls(Tokens(p, i, fl), s, |s|, fl)
    {
      MatchesAtEnd(p, i, s, fl);
      i := i + 1;
    }
    if i < |p| {
      MatchesAtEnd(p, i, s, fl);
      WinsMatches(Tokens(p, i0, fl), s, |s|, fl);
      return PATH_FNM_NOMATCH;
    }
    NoTokens(s, |s|, fl);
    WinsMatches(Tokens(p, i0, fl), s, |s|, fl);
    return 0;
  }

  lemma TokensEnd(p: string, fl: Flags)
    ensures Tokens(p, |p|, fl) == []
  {
  }

  lemma HeadOf(p: string, i: nat, fl: Flags)
    requires i < |p| && WellFormed(p, i, fl)
    ensures var t := TokenAt(p, i, fl);
            && Tokens(p, i, fl) == [t] + Tokens(p, After(p, i, fl), fl) && Tokens(p, i, fl)[0] == t
            && Tokens(p, i, fl)[1..] == Tokens(p, After(p, i, fl), fl) && WellFormed(p, After(p, i, fl), fl)
            && (p[i] == '*' <==> t == Star) && (p[i] == '?' <==> t == Any)
            && (p[i] == '[' ==> t.Set? || t == Never)
            && (t == Lit('.', true) <==> p[i] == '.')
            && (p[i] == '\\' ==>
                  t == if fl.noescape then Lit('\\', true) else if i + 1 < |p| then Lit(p[i+1], false) else Never)
            && (p[i] !in {'*', '?', '[', '\\'} ==> t == Lit(p[i], true))
    ensures p[i] != '[' ==>
              After(p, i, fl) == if p[i] == '\\' && !fl.noescape && i + 1 < |p| then i + 2 else i + 1
  {
  }

  /** path_fnmatch on the pattern from i0 and the string from j0; 0 is a match. */
  method FnMatch(p: string, i0: nat, s: string, j0: nat, fl: Flags, notFirst0: bool) returns (r: int)
    requires i0 <= |p| && j0 <= |s| && WellFormed(p, i0, fl)
    requires !notFirst0 ==> j0 == 0
    requires notFirst0 && fl.period && j0 == 0 && |s| > 0 ==> s[0] != '.'
    ensures r == 0 || r == PATH_FNM_NOMATCH || r == STUCK
    ensures r == 0 <==> Wins(Tokens(p, i0, fl), s, j0, fl)
    ensures r == STUCK <==> Stalls(Tokens(p, i0, fl), s, j0, fl) && !Wins(Tokens(p, i0, fl), s, j0, fl)
    decreases |p| - i0 + |s| - j0
  {
    hide Wins, Stalls, Fits, Tokens, TokenAt, After, WellFormed, InItems;
    var i, j, notFirst := i0, j0, notFirst0;
    while true
      invariant i0 <= i <= |p| && j0 <= j <= |s| && WellFormed(p, i, fl)
      invariant !notFirst ==> j == 0
      invariant notFirst && fl.period && j == 0 && |s| > 0 ==> s[0] != '.'
      invariant Wins(Tokens(p, i, fl), s, j, fl) <==> Wins(Tokens(p, i0, fl), s, j0, fl)
      invariant Stalls(Tokens(p, i, fl), s, j, fl) <==> Stalls(Tokens(p, i0, fl), s, j0, fl)
      decreases |p| - i + |s| - j
    {
      if j == |s| {
        r := AtEnd(p, i, s, fl);
        return;
      }
      if i == |p| {
        NoTokens(s, j, fl);
        TokensEnd(p, fl);
        return PATH_FNM_NOMATCH;
      }
      HeadOf(p, i, fl);
      TokenStep(Tokens(p, i, fl), s, j, fl);
      if s[j] == '.' && p[i] != '.' && fl.period {
        if !notFirst {
          return PATH_FNM_NOMATCH;
        }
        if fl.pathname && s[j-1] == '/' {
          return PATH_FNM_NOMATCH;
        }
      }
      notFirst := true;
      match p[i] {
        case '[' =>
          if s[j] == '/' && fl.pathname {
            return PATH_FNM_NOMATCH;
          }
          var res, next := MatchBracket(p, i, s[j], fl);
          if res != 0 {
            return res;
          }
          i, j := next, j + 1;
        case '\\' =>
          if !fl.noescape {
            i := i + 1;
            if i == |p| {
              return PATH_FNM_NOMATCH;
            }
          }
          if p[i] != s[j] {
            return PATH_FNM_NOMATCH;
          }
          i, j := i + 1, j + 1;
        case '*' =>
          var sub := PATH_FNM_NOMATCH;
          if !(s[j] == '/' && fl.pathname) {
            sub := FnMatch(p, i, s, j + 1, fl, true);
          }
          if sub != PATH_FNM_NOMATCH {
            return sub;
          }
          i := i + 1;
        case '?' =>
          if s[j] == '/' && fl.pathname {
            return PATH_FNM_NOMATCH;
          }
          i, j := i + 1, j + 1;
        case _ =>
          if p[i] != s[j] {
            return PATH_FNM_NOMATCH;
          }
          i, j := i + 1, j + 1;
      }
    }
  }

  /** The pattern [[:x] and the string x. */
  lemma ClassSticks(fl: Flags)
    ensures WellFormed("[[:x]", 0, fl) && Stalls(Tokens("[[:x]", 0, fl), "x", 0, fl)
    ensures !InLanguage(Tokens("[[:x]", 0, fl), "x", fl)
  {
    var p, s := "[[:x]", "x";
    assert p[0] == '[' && p[1] == '[' && p[2] == ':' && p[3] == 'x' && p[4] == ']' && s[0] == 'x';
    assert Close(p, 0) == 4 && IsClass(p, 1);
    assert TokenAt(p, 0, fl) == Set(false, [], true);
    HeadOf(p, 0, fl);
    MatchesIsCutting(Tokens(p, 0, fl), s, 0, fl);
  }

  /** The pattern *[a[:b]* and two strings that are in its language and can also get the matcher stuck: it
      finds the match in ba, and gets stuck on ab, where the longer part for the star comes first. */
  lemma InBoth(fl: Flags)
    ensures WellFormed("*[a[:b]*", 0, fl)
    ensures var toks := Tokens("*[a[:b]*", 0, fl);
            && InLanguage(toks, "ba", fl) && Stalls(toks, "ba", 0, fl) && Wins(toks, "ba", 0, fl)
            && InLanguage(toks, "ab", fl) && Stalls(toks, "ab", 0, fl) && !Wins(toks, "ab", 0, fl)
  {
    ClassTokens("*[a[:b]*", fl);
    hide Tokens, WellFormed, Wins, Stalls;
    WinsOnBa(fl);
    StuckOnAb(fl);
  }

  const ITEM_OR_STUCK: Tok := Set(false, [One('a')], true)

  lemma WinsOnBa(fl: Flags)
    ensures var toks := [Star, ITEM_OR_STUCK, Star];
            InLanguage(toks, "ba", fl) && Stalls(toks, "ba", 0, fl) && Wins(toks, "ba", 0, fl)
  {
    var toks, s := [Star, ITEM_OR_STUCK, Star], "ba";
    assert toks[1..] == [ITEM_OR_STUCK, Star] && toks[1..][1..] == [Star];
    assert ItemMatches(ITEM_OR_STUCK.items[0], 'a');
    assert Fits(Star, s, 0, 1, fl) && Fits(ITEM_OR_STUCK, s, 1, 2, fl) && Fits(Star, s, 2, 2, fl);
    LastStar(s, fl);
    OneChar([ITEM_OR_STUCK, Star], s, 1, fl);
    assert !Stalls([ITEM_OR_STUCK, Star], s, 2, fl);
    assert NoStallPast(toks, s, 0, 1, fl);
    assert Fits(Star, s, 0, 0, fl) && StallsAt(ITEM_OR_STUCK, s, 0, fl);
    assert CutBy(toks, s, 0, [0, 1, 2, 2], fl);
  }

  lemma StuckOnAb(fl: Flags)
    ensures var toks := [Star, ITEM_OR_STUCK, Star];
            InLanguage(toks, "ab", fl) && Stalls(toks, "ab", 0, fl) && !Wins(toks, "ab", 0, fl)
  {
    var toks, s := [Star, ITEM_OR_STUCK, Star], "ab";
    assert toks[1..] == [ITEM_OR_STUCK, Star] && toks[1..][1..] == [Star];
    assert ItemMatches(ITEM_OR_STUCK.items[0], 'a');
    assert Fits(Star, s, 0, 0, fl) && Fits(ITEM_OR_STUCK, s, 0, 1, fl) && Fits(Star, s, 1, 2, fl);
    assert CutBy(toks, s, 0, [0, 0, 1, 2], fl);
    assert Fits(Star, s, 0, 1, fl) && StallsAt(ITEM_OR_STUCK, s, 1, fl);
    assert !Wins([ITEM_OR_STUCK, Star], s, 1, fl) && !Wins([ITEM_OR_STUCK, Star], s, 2, fl);
  }

  lemma ClassTokens(p: string, fl: Flags)
    requires p == "*[a[:b]*"
    ensures WellFormed(p, 0, fl) && Tokens(p, 0, fl) == [Star, ITEM_OR_STUCK, Star]
  {
    assert p[0] == '*' && p[1] == '[' && p[2] == 'a' && p[3] == '[' && p[4] == ':' && p[5] == 'b' && p[6] == ']';
    assert Close(p, 1) == 6 && IsClass(p, 3) && !IsClass(p, 2) && !IsRange(p, 2);
    assert Items(p, 2, 6) == [ItemAt(p, 2)] + Items(p, 3, 6) && Items(p, 3, 6) == [];
    assert NoOpenRange(p, 3, 6) && HasClass(p, 3, 6);
    assert TokenAt(p, 1, fl) == ITEM_OR_STUCK;
    assert p[7] == '*' && Tokens(p, 8, fl) == [] && Tokens(p, 7, fl) == [Star];
    assert NoOpenRange(p, 2, 6) && WellFormed(p, 8, fl) && WellFormed(p, 7, fl) && WellFormed(p, 1, fl);
    assert After(p, 1, fl) == 7 && Tokens(p, 1, fl) == [ITEM_OR_STUCK] + Tokens(p, 7, fl);
  }

  lemma LastStar(s: string, fl: Flags)
    ensures Wins([Star], s, |s|, fl)
  {
    assert [Star][1..] == [] && Fits(Star, s, |s|, |s|, fl) && NoStallPast([Star], s, |s|, |s|, fl);
  }

  /** The whole match: 0 exactly when the string wins, and stuck exactly when it does not but can be cut
      so as to get the matcher stuck. So the string is in the language if 0 is returned, and a mismatch
      is returned exactly if it is not and cannot get the matcher stuck; without a "[:" in a bracket
      expression it never does. */
  method PathFnMatch(p: string, s: string, fl: Flags) returns (r: int)
    requires WellFormed(p, 0, fl)
    ensures r == 0 || r == PATH_FNM_NOMATCH || r == STUCK
    ensures r == 0 <==> Wins(Tokens(p, 0, fl), s, 0, fl)
    ensures r == STUCK <==> Stalls(Tokens(p, 0, fl), s, 0, fl) && !Wins(Tokens(p, 0, fl), s, 0, fl)
    ensures r == 0 ==> InLanguage(Tokens(p, 0, fl), s, fl)
    ensures r == PATH_FNM_NOMATCH <==> !InLanguage(Tokens(p, 0, fl), s, fl) && !Stalls(Tokens(p, 0, fl), s, 0, fl)
    ensures Classless(Tokens(p, 0, fl)) ==> r != STUCK && (r == 0 <==> InLanguage(Tokens(p, 0, fl), s, fl))
  {
    hide Matches, Stalls, Wins;
    r := FnMatch(p, 0, s, 0, fl, false);
    MatchesIsCutting(Tokens(p, 0, fl), s, 0, fl);
    WinsMatches(Tokens(p, 0, fl), s, 0, fl);
    if Classless(Tokens(p, 0, fl)) {
      ClasslessNeverStalls(Tokens(p, 0, fl), s, 0, fl);
    }
  }
}
