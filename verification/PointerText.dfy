/** The text form of pointers: printing, parsing, and exactly which pointers survive the round trip. */
module PointerText {

  import opened ObjectGraph
  import Pointers

  const NUL: char := '\0'
  const MAX_ULONG: nat := 0xffff_ffff_ffff_ffff
  const ATOM_TAG_INT: nat := 0x8000_0000

  predicate IsDigit(c: char) {
    '0' <= c <= '9'
  }

  predicate AllDigits(s: string) {
    forall i :: 0 <= i < |s| ==> IsDigit(s[i])
  }

  function Decimal(n: nat): string {
    if n < 10 then [('0' as int + n) as char] else Decimal(n / 10) + [('0' as int + n % 10) as char]
  }

  function ReadDecimal(s: string): nat
    requires AllDigits(s)
  {
    if s == "" then 0 else 10 * ReadDecimal(s[..|s|-1]) + (s[|s|-1] as int - '0' as int)
  }

  lemma {:induction false} DecimalRoundTrip(n: nat)
    ensures Decimal(n) != "" && AllDigits(Decimal(n)) && ReadDecimal(Decimal(n)) == n
  {
    if n >= 10 {
      DecimalRoundTrip(n / 10);
      assert Decimal(n)[..|Decimal(n)|-1] == Decimal(n / 10);
    } else {
      assert Decimal(n)[..0] == "";
    }
  }

  lemma {:induction false} DecimalStart(n: nat)
    ensures Decimal(n) != "" && (Decimal(n)[0] == '0' <==> n == 0) && (n == 0 ==> Decimal(n) == "0")
  {
    if n >= 10 {
      DecimalStart(n / 10);
    }
  }

  /** The decimal text of n is the only one that reads as n and has no superfluous zero in front. */
  lemma {:induction false} DecimalIsCanonical(s: string, n: nat)
    ensures s == Decimal(n) <==> s != "" && AllDigits(s) && (s[0] == '0' ==> s == "0") && ReadDecimal(s) == n
    decreases |s|
  {
    DecimalRoundTrip(n);
    DecimalStart(n);
    if s != "" && AllDigits(s) && (s[0] == '0' ==> s == "0") && ReadDecimal(s) == n {
      var t := s[..|s|-1];
      assert AllDigits(t);
      if t == "" {
        assert s == [s[0]] && ReadDecimal(t) == 0;
      } else {
        assert t[0] == s[0];
        DecimalIsCanonical(t, n / 10);
        assert ReadDecimal(t) > 0 by { DecimalStart(0); ReadsPositive(t); }
        assert s == t + [s[|s|-1]];
      }
    }
  }

  lemma {:induction false} ReadsPositive(s: string)
    requires s != "" && AllDigits(s) && s[0] != '0'
    ensures ReadDecimal(s) > 0
  {
    if |s| > 1 {
      ReadsPositive(s[..|s|-1]);
    }
  }

  // ----- printing

  /** The text up to the first NUL, every dot behind a backslash. */
  function Escaped(s: string): string {
    if s == "" || s[0] == NUL then ""
    else (if s[0] == '.' then ['\\', '.'] else [s[0]]) + Escaped(s[1..])
  }

  /** What a key adds to the text after the first one, without its opening delimiter. */
  function Body(k: Key): string {
    match k
    case Index(n) => Decimal(n) + "]"
    case Name(s) => Escaped(s)
    case NullAtom => ""
  }

  function Opening(k: Key): char {
    if k.Index? then '[' else '.'
  }

  function Tail(ks: seq<Key>): string {
    if ks == [] then "" else [Opening(ks[0])] + Body(ks[0]) + Tail(ks[1..])
  }

  function Text(ks: seq<Key>): string {
    if ks == [] then "" else (if ks[0].Index? then "[" else "") + Body(ks[0]) + Tail(ks[1..])
  }

  /** Every dot has a backslash right before it. */
  ghost predicate DotsQuoted(e: string) {
    forall i :: 0 <= i < |e| && e[i] == '.' ==> i > 0 && e[i-1] == '\\'
  }

  /** The text without the backslashes that stand right before dots. */
  function Unquoted(e: string): string {
    if e == "" then ""
    else if |e| > 1 && e[0] == '\\' && e[1] == '.' then "." + Unquoted(e[2..])
    else [e[0]] + Unquoted(e[1..])
  }

  /** Escaping puts a backslash before every dot, and does nothing else. */
  lemma {:induction false} EscapedExact(s: string, e: string)
    requires NUL !in s
    ensures e == Escaped(s) <==> DotsQuoted(e) && Unquoted(e) == s
    decreases |s|
  {
    if s == "" {
      assert e != "" ==> Unquoted(e) != "";
    } else {
      assert s[0] in s && NUL !in s[1..];
      var n := if s[0] == '.' then 2 else 1;
      if e == Escaped(s) {
        assert e[n..] == Escaped(s[1..]);
        EscapedExact(s[1..], e[n..]);
        AfterQuote(e, n, s[0]);
      }
      if DotsQuoted(e) && Unquoted(e) == s {
        QuotedHead(e, s, n);
        EscapedExact(s[1..], e[n..]);
        assert e == e[..n] + e[n..];
      }
    }
  }

  lemma AfterQuote(e: string, n: nat, c: char)
    requires n == (if c == '.' then 2 else 1) && n <= |e| && DotsQuoted(e[n..])
    requires e[..n] == if c == '.' then "\\." else [c]
    ensures DotsQuoted(e) && Unquoted(e) == [c] + Unquoted(e[n..])
  {
    assert e[0] == e[..n][0] && (n == 2 ==> e[1] == e[..n][1]);
    assert |e| > n ==> e[n] == e[n..][0];
    forall i | 0 <= i < |e| && e[i] == '.' ensures i > 0 && e[i-1] == '\\' {
      if i >= n {
        assert e[n..][i-n] == '.';
        assert e[n..][i-n-1] == e[i-1];
      }
    }
  }

  lemma QuotedHead(e: string, s: string, n: nat)
    requires s != "" && n == (if s[0] == '.' then 2 else 1) && DotsQuoted(e) && Unquoted(e) == s
    ensures |e| >= n && e[..n] == (if n == 2 then "\\." else [s[0]])
    ensures DotsQuoted(e[n..]) && Unquoted(e[n..]) == s[1..]
  {
    assert e[0] != '.';
    forall i | 0 <= i < |e| - n && e[n..][i] == '.' ensures i > 0 && e[n..][i-1] == '\\' {
      assert e[n+i] == '.';
    }
  }

  /** A NUL ends the text of a name. */
  lemma {:induction false} EscapedStops(s: string, k: nat)
    requires k < |s| && s[k] == NUL && forall i :: 0 <= i < k ==> s[i] != NUL
    ensures Escaped(s) == Escaped(s[..k])
  {
    if k > 0 {
      EscapedStops(s[1..], k - 1);
      assert s[..k][1..] == s[1..][..k-1];
    }
  }

  /** One more key: an integer in brackets, a name behind a dot unless it is the first key. */
  lemma {:induction false} TextOfOneMore(ks: seq<Key>, k: Key)
    requires k != NullAtom
    ensures Text(ks + [k])
         == Text(ks) + if k.Index? then "[" + Decimal(k.n) + "]" else (if ks == [] then "" else ".") + Escaped(k.s)
  {
    hide Escaped, Decimal;
    var piece := [Opening(k)] + Body(k);
    assert [Opening(k)] + Body(k) == if k.Index? then "[" + Decimal(k.n) + "]" else "." + Escaped(k.s);
    if ks == [] {
      assert [] + [k] == [k] && [k][1..] == [];
    } else {
      assert (ks + [k])[1..] == ks[1..] + [k];
      TailOfOneMore(ks[1..], k);
    }
  }

  lemma {:induction false} TailOfOneMore(ks: seq<Key>, k: Key)
    ensures Tail(ks + [k]) == Tail(ks) + ([Opening(k)] + Body(k))
  {
    hide Body;
    if ks == [] {
      assert [] + [k] == [k] && [k][1..] == [];
    } else {
      assert (ks + [k])[1..] == ks[1..] + [k];
      TailOfOneMore(ks[1..], k);
    }
  }

  // ----- parsing

  /** Does the scan for a delimiter stop at p? A first '[' lifts '[' from the delimiters. */
  predicate StopsAt(s: string, p: nat, bracketed: bool)
    requires p < |s|
  {
    (s[p] == '.' || s[p] == (if bracketed then NUL else '[')) && !(p > 0 && s[p-1] == '\\')
  }

  function FirstStop(s: string, d: nat, bracketed: bool): (p: nat)
    requires d <= |s|
    ensures d <= p <= |s|
    ensures p < |s| ==> StopsAt(s, p, bracketed)
    ensures forall q :: d <= q < p ==> !StopsAt(s, q, bracketed)
    decreases |s| - d
  {
    if d == |s| || StopsAt(s, d, bracketed) then d else FirstStop(s, d + 1, bracketed)
  }

  function DigitsEnd(s: string, d: nat): (e: nat)
    requires d <= |s|
    ensures d <= e <= |s| && AllDigits(s[d..e]) && (e < |s| ==> !IsDigit(s[e]))
    decreases |s| - d
  {
    if d == |s| || !IsDigit(s[d]) then d
    else
      var e := DigitsEnd(s, d + 1);
      assert s[d..e] == [s[d]] + s[d+1..e];
      e
  }

  /** js_atom_fromint of what strtoul returns. */
  function AtomFromDigits(s: string): Key
    requires AllDigits(s)
  {
    var val := ReadDecimal(s);
    Index((if val > MAX_ULONG then MAX_ULONG else val) % ATOM_TAG_INT)
  }

  datatype Token = Token(key: Key, rest: string)

  /** The first key of a nonempty text, and what is left after the delimiter that ends it. */
  function FirstToken(s: string): (t: Token)
    requires s != ""
    ensures |t.rest| < |s|
  {
    var start := if s[0] == '[' then 1 else 0;
    var delim := FirstStop(s, start, s[0] == '[');
    var n := delim - start - (if delim > 0 && s[delim-1] == ']' then 1 else 0);
    var e := DigitsEnd(s, start);
    Token(if e > start && e == start + n then AtomFromDigits(s[start..e]) else Name(s[start..start+n]),
          if delim < |s| then s[delim+1..] else "")
  }

  lemma StopsFirstAt(s: string, d: nat, bracketed: bool, p: nat)
    requires d <= p <= |s| && (p < |s| ==> StopsAt(s, p, bracketed))
    requires forall q :: d <= q < p ==> !StopsAt(s, q, bracketed)
    ensures FirstStop(s, d, bracketed) == p
  {
  }

  lemma DigitAt(s: string, d: nat, e: nat, i: nat)
    requires d <= i < e <= |s| && AllDigits(s[d..e])
    ensures IsDigit(s[i])
  {
    assert s[d..e][i-d] == s[i];
  }

  lemma DigitsEndAt(s: string, d: nat, e: nat)
    requires d <= e <= |s| && AllDigits(s[d..e]) && (e < |s| ==> !IsDigit(s[e]))
    ensures DigitsEnd(s, d) == e
  {
    var f := DigitsEnd(s, d);
    if e < f { DigitAt(s, d, f, e); }
    if f < e { DigitAt(s, d, e, f); }
  }

  lemma TokenParts(str: string, start: nat, delim: nat, n: int, end: nat)
    requires str != "" && start == (if str[0] == '[' then 1 else 0)
    requires delim == FirstStop(str, start, str[0] == '[') && end == DigitsEnd(str, start)
    requires n == delim - start - (if delim > 0 && str[delim-1] == ']' then 1 else 0)
    ensures 0 <= n && start + n <= |str| && (end > start <==> start < |str| && IsDigit(str[start]))
    ensures FirstToken(str).rest == if delim < |str| then str[delim+1..] else ""
    ensures FirstToken(str).key
         == if end > start && end == start + n then AtomFromDigits(str[start..end]) else Name(str[start..start+n])
  {
    hide AtomFromDigits, ReadDecimal, FirstStop, StopsAt;
    assert end > start ==> str[start..end][0] == str[start];
  }

  /** The first token, read off the text: behind a '[' that may open it, the body goes up to the first
      delimiter that has no backslash before it, or up to a ']' right before that; digits are a number,
      anything else is a name. */
  lemma TokenIs(s: string, start: nat, delim: nat, end: nat)
    requires s != "" && start == (if s[0] == '[' then 1 else 0) <= delim <= |s|
    requires delim < |s| ==> (s[delim] == '.' || s[delim] == if start == 1 then '\0' else '[')
                             && (delim > 0 ==> s[delim-1] != '\\')
    requires forall i :: start <= i < delim && (s[i] == '.' || s[i] == if start == 1 then '\0' else '[') ==>
                           i > 0 && s[i-1] == '\\'
    requires end == if delim > 0 && s[delim-1] == ']' then delim - 1 else delim
    ensures start <= end && FirstToken(s).rest == if delim < |s| then s[delim+1..] else ""
    ensures var body := s[start..end];
            if body == "" || !AllDigits(body) then FirstToken(s).key == Name(body)
            else FirstToken(s).key.Index? && FirstToken(s).key.n < 0x8000_0000
                 && (ReadDecimal(body) < 0x8000_0000 ==> FirstToken(s).key.n == ReadDecimal(body))
  {
    hide ReadDecimal, AtomFromDigits, DigitsEnd, FirstStop, FirstToken;
    StopsFirstAt(s, start, s[0] == '[', delim);
    var body, e := s[start..end], DigitsEnd(s, start);
    TokenParts(s, start, delim, end - start, e);
    hide StopsAt, IsDigit;
    if body != "" && AllDigits(body) {
      DigitsEndAt(s, start, end);
      AtomSmall(body);
    } else if e == end {
      assert s[start..e] == body;
    }
  }

  lemma AtomSmall(s: string)
    requires AllDigits(s)
    ensures var k := AtomFromDigits(s);
            k.Index? && k.n < 0x8000_0000 && (ReadDecimal(s) < 0x8000_0000 ==> k.n == ReadDecimal(s))
  {
    hide ReadDecimal;
  }

  function Parsed(s: string): seq<Key>
    decreases |s|
  {
    if s == "" then [] else [FirstToken(s).key] + Parsed(FirstToken(s).rest)
  }

  // ----- the round trip

  /** The name stands for itself in the text, given whether another key follows and whether that is a
      name. */
  predicate NameSurvives(s: string, more: bool, moreName: bool) {
    if s == "" then moreName
    else
      && s[0] != '[' && s[|s|-1] != ']' && !AllDigits(s) && (more ==> s[|s|-1] != '\\')
      && (forall i :: 0 <= i < |s| ==> s[i] != '.' && s[i] != NUL)
      && (forall i :: 0 < i < |s| && s[i] == '[' ==> s[i-1] == '\\')
  }

  predicate HeadSurvives(ks: seq<Key>)
    requires ks != []
  {
    ks[0].Name? ==> NameSurvives(ks[0].s, |ks| > 1, |ks| > 1 && ks[1].Name?)
  }

  /** The exact domain of the round trip. */
  predicate Survives(ks: seq<Key>) {
    !(|ks| > 1 && ks[0].Index? && ks[1].Index?) && EachSurvives(ks)
  }

  predicate EachSurvives(ks: seq<Key>) {
    ks != [] ==> HeadSurvives(ks) && EachSurvives(ks[1..])
  }

  /** The atoms a pointer can hold. A name that is the decimal text of a number below 2^31 does not occur
      either, since the runtime makes that number of it; what follows holds with such names too. */
  predicate AreAtoms(ks: seq<Key>) {
    forall i :: 0 <= i < |ks| ==> ks[i] != NullAtom && (ks[i].Index? ==> ks[i].n < ATOM_TAG_INT)
  }

  lemma {:induction false} EscapedPlain(s: string)
    requires forall i :: 0 <= i < |s| ==> s[i] != '.' && s[i] != NUL
    ensures Escaped(s) == s
  {
    if s != "" {
      EscapedPlain(s[1..]);
    }
  }

  /** A token that is digits up to ']'. */
  lemma {:induction false} DigitToken(s: string, start: nat, m: nat)
    requires s != "" && start == (if s[0] == '[' then 1 else 0) && start < m < |s|
    requires AllDigits(s[start..m]) && s[m] == ']'
    requires m + 1 < |s| ==> s[m+1] == '.' || (s[m+1] == '[' && start == 0)
    ensures FirstToken(s) == Token(AtomFromDigits(s[start..m]), if m + 1 < |s| then s[m+2..] else "")
  {
    forall q | start <= q < m ensures IsDigit(s[q]) {
      assert s[q] == s[start..m][q-start];
    }
    StopsFirstAt(s, start, s[0] == '[', m + 1);
    DigitsEndAt(s, start, m);
  }

  lemma {:induction false} AtomOfDecimal(n: nat)
    requires n < ATOM_TAG_INT
    ensures Decimal(n) != "" && AllDigits(Decimal(n)) && AtomFromDigits(Decimal(n)) == Index(n)
  {
    DecimalRoundTrip(n);
  }

  lemma DigitsAndTail(dec: string, tail: string, bracketed: bool, k: Key)
    requires dec != "" && AllDigits(dec) && AtomFromDigits(dec) == k
    requires tail == "" || tail[0] == '.' || (tail[0] == '[' && !bracketed)
    ensures var s := (if bracketed then "[" else "") + (dec + "]") + tail;
            s != "" && FirstToken(s) == Token(k, if tail == "" then "" else tail[1..])
  {
    var start := if bracketed then 1 else 0;
    var s := (if bracketed then "[" else "") + (dec + "]") + tail;
    var m := start + |dec|;
    assert s[start..m] == dec;
    assert s[0] == (if bracketed then '[' else dec[0]);
    assert s[m] == ']';
    assert m + 1 < |s| ==> s[m+1] == tail[0];
    DigitToken(s, start, m);
    assert m + 1 < |s| ==> s[m+2..] == tail[1..];
  }

  /** An integer key reads back, whether its '[' has been dropped or not; if it has not, the next key
      must be a name. */
  lemma {:induction false} IndexToken(n: nat, tail: string, bracketed: bool)
    requires n < ATOM_TAG_INT
    requires tail == "" || tail[0] == '.' || (tail[0] == '[' && !bracketed)
    ensures var s := (if bracketed then "[" else "") + (Decimal(n) + "]") + tail;
            s != "" && FirstToken(s) == Token(Index(n), if tail == "" then "" else tail[1..])
  {
    AtomOfDecimal(n);
    DigitsAndTail(Decimal(n), tail, bracketed, Index(n));
  }

  /** Two leading integers are read as one name. */
  lemma TwoIndices(dec: string, tail: string)
    requires dec != "" && AllDigits(dec) && tail != "" && tail[0] == '['
    ensures FirstToken("[" + (dec + "]") + tail).key.Name?
  {
    var s := "[" + (dec + "]") + tail;
    var m := 1 + |dec|;
    assert s[1..m] == dec && s[m] == ']' && s[m+1] == tail[0];
    forall q | 1 <= q < m ensures IsDigit(s[q]) {
      assert s[q] == s[1..m][q-1];
    }
    DigitsEndAt(s, 1, m);
    assert forall q :: 1 <= q <= m + 1 ==> !StopsAt(s, q, true);
    assert FirstStop(s, 1, true) > m + 1;
  }

  /** A token that is neither bracketed nor closed nor all digits. */
  lemma PlainToken(t: string, m: nat)
    requires 0 < m <= |t| && t[0] != '[' && t[m-1] != ']' && !AllDigits(t[..m])
    requires m < |t| ==> StopsAt(t, m, false)
    requires forall q :: 0 <= q < m ==> !StopsAt(t, q, false)
    ensures FirstToken(t) == Token(Name(t[..m]), if m < |t| then t[m+1..] else "")
  {
    StopsFirstAt(t, 0, false, m);
    assert t[0..DigitsEnd(t, 0)] == t[..DigitsEnd(t, 0)];
  }

  /** A name that survives reads back, up to a delimiter that follows it. */
  lemma NameToken(s: string, tail: string, moreName: bool)
    requires tail == "" || tail[0] == '.' || tail[0] == '['
    requires moreName == (tail != "" && tail[0] == '.')
    requires NameSurvives(s, tail != "", moreName)
    ensures Escaped(s) + tail != ""
    ensures FirstToken(Escaped(s) + tail) == Token(Name(s), if tail == "" then "" else tail[1..])
  {
    EscapedPlain(s);
    if s == "" {
      assert "" + tail == tail;
      StopsFirstAt(tail, 0, false, 0);
      assert tail[0..0] == "";
    } else {
      PlainAndTail(s, tail);
    }
  }

  lemma PlainAndTail(s: string, tail: string)
    requires s != "" && (tail == "" || tail[0] == '.' || tail[0] == '[')
    requires NameSurvives(s, tail != "", tail != "" && tail[0] == '.')
    ensures FirstToken(s + tail) == Token(Name(s), if tail == "" then "" else tail[1..])
  {
    hide FirstToken, IsDigit;
    var t := s + tail;
    assert |s| < |t| ==> t[|s|] == tail[0];
    assert forall q :: 0 <= q < |s| ==> t[q] == s[q];
    assert t[..|s|] == s;
    PlainToken(t, |s|);
    assert |s| < |t| ==> t[|s|+1..] == tail[1..];
  }

  lemma {:induction false} CleanPrefix(s: string) returns (p: nat)
    ensures p <= |s| && p <= |Escaped(s)|
    ensures forall i :: 0 <= i < p ==> s[i] != '.' && s[i] != NUL && Escaped(s)[i] == s[i]
    ensures p == |s| ==> Escaped(s) == s
    ensures p < |s| && s[p] != '.' ==> s[p] == NUL && |Escaped(s)| == p
    ensures p < |s| && s[p] == '.' ==> p < |Escaped(s)| && Escaped(s)[p] == '\\'
  {
    if s == "" || s[0] == NUL || s[0] == '.' {
      return 0;
    }
    var q := CleanPrefix(s[1..]);
    p := q + 1;
  }

  /** The text of an integer key, its '[' included, and whatever follows. */
  ghost predicate TailOfIndex(tail: string) {
    |tail| > 2 && tail[0] == '[' && IsDigit(tail[1])
    && exists m :: 1 < m < |tail| && tail[m] == ']' && AllDigits(tail[1..m])
  }

  /** A '[' behind at least k characters that a bracketed scan passes lets it run over a whole integer
      key. */
  lemma PastIndex(t: string, k: nat)
    requires 0 < |t| && t[0] == '[' && k < |t| && TailOfIndex(t[k..])
    requires forall i :: 0 <= i < k ==> t[i] == '['
    ensures FirstStop(t, 1, true) >= k + 3
  {
    var u := t[k..];
    var m :| 1 < m < |u| && u[m] == ']' && AllDigits(u[1..m]);
    forall q | 1 <= q <= k + m ensures !StopsAt(t, q, true) {
      if q >= k {
        assert t[q] == u[q-k];
        if 1 <= q - k < m { assert u[q-k] == u[1..m][q-k-1]; }
      }
    }
    assert FirstStop(t, 1, true) > k + m;
  }

  /** A text that opens with '[' is never read as the name it was printed from. */
  lemma {:induction false} BracketLost(s: string, tail: string)
    requires tail == "" || tail[0] == '.' || TailOfIndex(tail)
    requires var t := Escaped(s) + tail; t != "" && t[0] == '['
    ensures FirstToken(Escaped(s) + tail).key != Name(s)
  {
    var t := Escaped(s) + tail;
    if FirstToken(t).key == Name(s) {
      var p := CleanPrefix(s);
      BracketToken(t, s);
      hide Escaped, FirstToken, TailOfIndex;
      if p == |s| {
        BracketsThenIndex(s, tail);
      } else {
        BracketsThenEnd(s, t, tail, p);
      }
    }
  }

  lemma BracketToken(t: string, s: string)
    requires t != "" && t[0] == '[' && FirstToken(t).key == Name(s)
    ensures |s| < |t| && forall i :: 0 <= i < |s| ==> t[i+1] == s[i]
  {
    assert t[1..1+|s|] == s;
    forall i | 0 <= i < |s| ensures t[i+1] == s[i] {
      assert t[1..1+|s|][i] == s[i];
    }
  }

  lemma BracketsThenIndex(s: string, tail: string)
    requires tail == "" || tail[0] == '.' || TailOfIndex(tail)
    requires var t := s + tail; |s| < |t| && t[0] == '[' && forall i :: 0 <= i < |s| ==> t[i+1] == s[i]
    ensures FirstToken(s + tail).key != Name(s)
  {
    var t := s + tail;
    BracketsOnly(s, t, |s|);
    assert t[|s|] == tail[0] && t[|s|..] == tail;
    PastIndex(t, |s|);
  }

  lemma BracketsThenEnd(s: string, t: string, tail: string, p: nat)
    requires tail == "" || tail[0] == '.' || TailOfIndex(tail)
    requires t == Escaped(s) + tail && p < |s| < |t| && t[0] == '['
    requires forall i :: 0 <= i < |s| ==> t[i+1] == s[i]
    requires p <= |Escaped(s)| && forall i :: 0 <= i < p ==> Escaped(s)[i] == s[i]
    ensures s[p] == NUL ==> |Escaped(s)| != p
    ensures s[p] == '.' && p < |Escaped(s)| ==> Escaped(s)[p] != '\\'
  {
    hide Escaped, IsDigit;
    ConcatAt(Escaped(s), tail);
    BracketsOnly(s, t, p);
    assert !IsDigit(NUL) by { IsNoDigit(); }
    assert t[p+1] == s[p];
  }

  lemma IsNoDigit()
    ensures !IsDigit(NUL)
  {
  }

  lemma ConcatAt(a: string, b: string)
    ensures forall k :: 0 <= k < |a| ==> (a + b)[k] == a[k]
    ensures forall k :: 0 <= k < |b| ==> (a + b)[|a| + k] == b[k]
    ensures b != "" ==> (a + b)[|a|] == b[0]
    ensures |b| > 1 ==> (a + b)[|a| + 1] == b[1]
  {
  }

  lemma {:induction false} BracketsOnly(s: string, t: string, p: nat)
    requires p <= |s| && p < |t| && t[0] == '[' && |s| < |t|
    requires forall i :: 0 <= i < p ==> t[i] == s[i]
    requires forall i :: 0 <= i < |s| ==> t[i+1] == s[i]
    ensures forall i :: 0 <= i <= p ==> t[i] == '['
  {
    if p > 0 {
      BracketsOnly(s, t, p - 1);
      assert t[p] == s[p-1] == t[p-1];
    }
  }

  /** A text that does not open with '[' is read as the name it was printed from only if that name
      survives. */
  lemma PlainLost(s: string, tail: string, moreName: bool)
    requires tail == "" || tail[0] == '.' || tail[0] == '['
    requires moreName == (tail != "" && tail[0] == '.')
    requires var t := Escaped(s) + tail; t != "" && t[0] != '[' && FirstToken(t).key == Name(s)
    ensures NameSurvives(s, tail != "", moreName)
  {
    var t := Escaped(s) + tail;
    var p := CleanPrefix(s);
    forall i | 0 <= i < |s| ensures i < |t| && t[i] == s[i] {
      assert t[0..|s|][i] == s[i];
    }
    ConcatAt(Escaped(s), tail);
    assert t == s + tail && (tail != "" ==> t[|s|] == tail[0]);
    if s != "" {
      ReadAsItself(s, tail);
    }
  }

  lemma ReadAsItself(s: string, tail: string)
    requires s != "" && (tail == "" || tail[0] == '.' || tail[0] == '[')
    requires forall i :: 0 <= i < |s| ==> s[i] != '.' && s[i] != NUL
    requires s[0] != '[' && FirstToken(s + tail).key == Name(s)
    ensures NameSurvives(s, tail != "", tail != "" && tail[0] == '.')
  {
    var t := s + tail;
    var delim := FirstStop(t, 0, false);
    assert tail != "" ==> t[|s|] == tail[0];
    assert forall i :: 0 <= i < |s| ==> t[i] == s[i];
    assert delim >= |s|;
    forall i | 0 < i < |s| && s[i] == '[' ensures s[i-1] == '\\' {
      assert !StopsAt(t, i, false);
    }
    if tail != "" && s[|s|-1] != '\\' {
      assert StopsAt(t, |s|, false);
    }
    assert s[|s|-1] != '\\' || tail == "" ==> delim == |s|;
    if AllDigits(s) {
      assert t[0..|s|] == s;
      DigitsEndAt(t, 0, |s|);
    }
  }

  /** A name that does not survive is not what is read back. */
  lemma {:induction false} NameLost(s: string, tail: string, moreName: bool)
    requires tail == "" || tail[0] == '.' || TailOfIndex(tail)
    requires moreName == (tail != "" && tail[0] == '.')
    requires !NameSurvives(s, tail != "", moreName)
    ensures var t := Escaped(s) + tail;
            t == "" || FirstToken(t).key != Name(s)
  {
    var t := Escaped(s) + tail;
    if t != "" && FirstToken(t).key == Name(s) {
      if t[0] == '[' {
        BracketLost(s, tail);
      } else {
        PlainLost(s, tail, moreName);
      }
    }
  }

  ghost function AfterFirst(ks: seq<Key>): string
    requires ks != []
  {
    if |ks| == 1 then "" else Body(ks[1]) + Tail(ks[2..])
  }

  lemma TailShape(ks: seq<Key>)
    requires ks != [] && AreAtoms(ks)
    ensures var tail := Tail(ks[1..]);
            && (tail == "" <==> |ks| == 1)
            && (|ks| > 1 ==> (tail[0] == '.' <==> ks[1].Name?) && tail[1..] == AfterFirst(ks))
            && (|ks| > 1 && ks[1].Index? ==> TailOfIndex(tail))
  {
    if |ks| > 1 {
      var tail := Tail(ks[1..]);
      assert ks[1..][1..] == ks[2..];
      assert tail == [Opening(ks[1])] + (Body(ks[1]) + Tail(ks[2..]));
      if ks[1].Index? {
        DecimalRoundTrip(ks[1].n);
        DigitsMakeTail(Decimal(ks[1].n), Tail(ks[2..]));
      }
    }
  }

  lemma DigitsMakeTail(dec: string, rest: string)
    requires dec != "" && AllDigits(dec)
    ensures TailOfIndex("[" + ((dec + "]") + rest))
  {
    var tail, m := "[" + ((dec + "]") + rest), 1 + |dec|;
    assert tail[1..m] == dec && tail[m] == ']' && tail[1] == dec[0];
  }

  /** A key that survives is read back, and what is left is the text of the other keys. */
  lemma HeadStep(ks: seq<Key>)
    requires ks != [] && AreAtoms(ks) && HeadSurvives(ks)
    ensures var t := Body(ks[0]) + Tail(ks[1..]);
            t != "" && FirstToken(t) == Token(ks[0], AfterFirst(ks))
  {
    var tail := Tail(ks[1..]);
    TailShape(ks);
    if ks[0].Index? {
      IndexToken(ks[0].n, tail, false);
      assert "" + (Decimal(ks[0].n) + "]") == Body(ks[0]);
    } else {
      NameToken(ks[0].s, tail, |ks| > 1 && ks[1].Name?);
    }
  }

  lemma HeadLost(ks: seq<Key>)
    requires ks != [] && AreAtoms(ks) && !HeadSurvives(ks)
    ensures var t := Body(ks[0]) + Tail(ks[1..]);
            t == "" || FirstToken(t).key != ks[0]
  {
    TailShape(ks);
    NameLost(ks[0].s, Tail(ks[1..]), |ks| > 1 && ks[1].Name?);
  }

  lemma ParsedStep(t: string, ks: seq<Key>)
    requires t != "" && ks != [] && FirstToken(t).key == ks[0]
    ensures Parsed(t) == ks <==> Parsed(FirstToken(t).rest) == ks[1..]
  {
    assert Parsed(t)[1..] == Parsed(FirstToken(t).rest);
    assert ks == [ks[0]] + ks[1..];
  }

  /** The text of ks, its opening delimiter dropped, reads back as ks exactly when each key survives. */
  lemma {:induction false} BodyRoundTrip(ks: seq<Key>)
    requires ks != [] && AreAtoms(ks)
    ensures Parsed(Body(ks[0]) + Tail(ks[1..])) == ks <==> EachSurvives(ks)
  {
    var t := Body(ks[0]) + Tail(ks[1..]);
    if HeadSurvives(ks) {
      HeadStep(ks);
      ParsedStep(t, ks);
      if |ks| > 1 {
        assert ks[1..][1..] == ks[2..];
        BodyRoundTrip(ks[1..]);
      } else {
        assert Parsed("") == [];
      }
    } else {
      HeadLost(ks);
      assert t != "" ==> Parsed(t)[0] != ks[0];
    }
  }

  /** A leading integer, its '[' in place, reads back unless another integer follows. */
  lemma LeadingIndex(ks: seq<Key>)
    requires ks != [] && AreAtoms(ks) && ks[0].Index?
    ensures |ks| > 1 && ks[1].Index? ==> Parsed(Text(ks)) != ks
    ensures !(|ks| > 1 && ks[1].Index?) ==> FirstToken(Text(ks)) == Token(ks[0], AfterFirst(ks))
  {
    var dec, tail := Decimal(ks[0].n), Tail(ks[1..]);
    TailShape(ks);
    assert Text(ks) == "[" + (dec + "]") + tail;
    if |ks| > 1 && ks[1].Index? {
      DecimalRoundTrip(ks[0].n);
      TwoIndices(dec, tail);
      assert Parsed(Text(ks))[0].Name?;
    } else {
      IndexToken(ks[0].n, tail, true);
    }
  }

  lemma LeadingName(ks: seq<Key>)
    requires ks != [] && ks[0].Name?
    ensures Text(ks) == Body(ks[0]) + Tail(ks[1..])
  {
    assert "" + Body(ks[0]) == Body(ks[0]);
  }

  lemma {:induction false} LeadingIndexRoundTrip(ks: seq<Key>)
    requires ks != [] && AreAtoms(ks) && ks[0].Index? && !(|ks| > 1 && ks[1].Index?)
    ensures Parsed(Text(ks)) == ks <==> Parsed(Body(ks[0]) + Tail(ks[1..])) == ks
  {
    LeadingIndex(ks);
    HeadStep(ks);
    ParsedStep(Text(ks), ks);
    ParsedStep(Body(ks[0]) + Tail(ks[1..]), ks);
  }

  /** A pointer survives printing and parsing if and only if it does not begin with two integers and
      each of its names survives where it stands. */
  lemma {:induction false} TextRoundTrip(ks: seq<Key>)
    requires AreAtoms(ks)
    ensures Parsed(Text(ks)) == ks <==> Survives(ks)
  {
    if ks == [] {
      assert Parsed("") == [];
    } else {
      BodyRoundTrip(ks);
      if ks[0].Name? {
        LeadingName(ks);
      } else if |ks| > 1 && ks[1].Index? {
        LeadingIndex(ks);
      } else {
        LeadingIndexRoundTrip(ks);
      }
    }
  }

  /** A name that is not empty, does not start with a digit and holds no special character. */
  predicate Plain(s: string) {
    s != "" && !IsDigit(s[0]) && forall i :: 0 <= i < |s| ==> s[i] !in {'.', '[', ']', '\\', NUL}
  }

  /** Plain names and integers in any order but with two integers in front always survive. */
  lemma {:induction false} PlainSurvives(ks: seq<Key>)
    requires forall i :: 0 <= i < |ks| && ks[i].Name? ==> Plain(ks[i].s)
    ensures EachSurvives(ks)
  {
    if ks != [] {
      assert ks[0].Name? ==> Plain(ks[0].s);
      PlainSurvives(ks[1..]);
    }
  }

  /** Three pointers that do not: two integers in front, a name of digits, a name with a dot. */
  lemma {:induction false} NotThese()
    ensures Parsed(Text([Index(1), Index(2)])) != [Index(1), Index(2)]
    ensures Parsed(Text([Name("07")])) != [Name("07")]
    ensures Parsed(Text([Name("a.b")])) != [Name("a.b")]
  {
    TextRoundTrip([Index(1), Index(2)]);
    TextRoundTrip([Name("07")]);
    TextRoundTrip([Name("a.b")]);
    assert "a.b"[1] == '.';
    assert HeadSurvives([Name("a.b")]) ==> NameSurvives("a.b", false, false);
  }

  // ----- the code

  /** byte_chrs: the first of the two delimiters at or after d; "." stands with the NUL behind it. */
  method ByteChrs(str: string, d: nat, bracketed: bool) returns (p: nat)
    requires d <= |str|
    ensures d <= p <= |str|
    ensures p < |str| ==> str[p] == '.' || str[p] == (if bracketed then NUL else '[')
    ensures forall q :: d <= q < p ==> str[q] != '.' && str[q] != (if bracketed then NUL else '[')
  {
    p := d;
    while p < |str|
      invariant d <= p <= |str|
      invariant forall q :: d <= q < p ==> str[q] != '.' && str[q] != (if bracketed then NUL else '[')
    {
      if str[p] == '.' || str[p] == (if bracketed then NUL else '[') {
        break;
      }
      p := p + 1;
    }
  }

  /** The inner loop of pointer_parse: a delimiter behind a backslash does not count. */
  method FindDelimiter(str: string, start: nat, bracketed: bool) returns (delim: nat)
    requires start <= |str|
    ensures delim == FirstStop(str, start, bracketed)
  {
    delim := start;
    while true
      invariant start <= delim <= |str|
      invariant forall q :: start <= q < delim ==> !StopsAt(str, q, bracketed)
      decreases |str| - delim
    {
      delim := ByteChrs(str, delim, bracketed);
      if delim < |str| && delim > 0 && str[delim-1] == '\\' {
        delim := delim + 1;
        continue;
      }
      break;
    }
    StopsFirstAt(str, start, bracketed, delim);
  }

  /** One turn of pointer_parse: the first key of the text, and the text behind its delimiter. */
  method NextKey(str: string) returns (atom: Key, rest: string)
    requires str != ""
    ensures Token(atom, rest) == FirstToken(str)
  {
    hide FirstToken, FirstStop, AtomFromDigits;
    var bracketed := str[0] == '[';
    var start := if bracketed then 1 else 0;
    var delim := FindDelimiter(str, start, bracketed);
    var n := delim - start;
    if delim > 0 && str[delim-1] == ']' {
      n := n - 1;
    }
    var end := DigitsEnd(str, start);
    TokenParts(str, start, delim, n, end);
    if start < |str| && IsDigit(str[start]) && end == start + n {
      atom := AtomFromDigits(str[start..end]);
    } else {
      atom := Name(str[start..start+n]);
    }
    rest := str[delim..];
    if |rest| > 0 {
      DropTwice(str, delim);
      rest := rest[1..];
    }
  }

  lemma DropTwice(s: string, d: nat)
    requires d < |s|
    ensures s[d..][1..] == s[d+1..]
  {
  }

  /** pointer_parse: the keys of the text are pushed onto the pointer. */
  method Parse(ptr: Pointers.Pointer, text: string) returns (n: nat)
    requires ptr.Valid()
    modifies ptr
    ensures ptr.Valid() && ptr.Path() == old(ptr.Path()) + Parsed(text) && n == ptr.n
  {
    hide FirstToken;
    var str := text;
    while |str| > 0
      invariant ptr.Valid() && ptr.Path() + Parsed(str) == old(ptr.Path()) + Parsed(text)
      decreases |str|
    {
      ghost var before := ptr.Path();
      var atom, rest := NextKey(str);
      ptr.Push(atom);
      assert (before + [atom]) + Parsed(rest) == before + ([atom] + Parsed(rest));
      str := rest;
    }
    n := ptr.n;
  }

  /** What one key adds to the text. */
  ghost function Piece(k: Key, first: bool): string {
    if k.Index? then "[" + Body(k) else (if first then "" else ".") + Body(k)
  }

  /** What is still to be printed when i keys have been. */
  ghost function Unprinted(ks: seq<Key>, i: nat): string
    requires i <= |ks|
  {
    if i == 0 then Text(ks) else Tail(ks[i..])
  }

  lemma PrintStep(ks: seq<Key>, i: nat)
    requires i < |ks|
    ensures Unprinted(ks, i) == Piece(ks[i], i == 0) + Unprinted(ks, i + 1)
  {
    assert ks[i..][0] == ks[i] && ks[i..][1..] == ks[i+1..];
  }

  lemma NothingLeft(ks: seq<Key>)
    ensures Unprinted(ks, |ks|) == ""
  {
  }

  /** pointer_tostring: appends the text of the pointer. */
  method ToString(ptr: Pointers.Pointer, db: string) returns (out: string)
    requires ptr.Valid() && NullAtom !in ptr.Path()
    ensures out == db + Text(ptr.Path())
  {
    hide Text, Tail, Piece;
    ghost var ks := ptr.Path();
    out := db;
    var i := 0;
    while i < ptr.n
      invariant i <= ptr.n && out + Unprinted(ks, i) == db + Text(ks)
    {
      PrintStep(ks, i);
      out := PutKey(out, ptr.atoms[i], i == 0);
      i := i + 1;
    }
    NothingLeft(ks);
  }

  method PutKey(db: string, k: Key, first: bool) returns (out: string)
    requires k != NullAtom
    ensures out == db + Piece(k, first)
  {
    if k.Index? {
      out := db + ("[" + (Decimal(k.n) + "]"));
    } else {
      out := db;
      if !first {
        out := out + ".";
      }
      out := PutEscaped(out, k.s);
    }
  }

  method PutEscaped(db: string, s: string) returns (out: string)
    ensures out == db + Escaped(s)
  {
    out := db;
    var j := 0;
    while j < |s| && s[j] != NUL
      invariant j <= |s| && out + Escaped(s[j..]) == db + Escaped(s)
    {
      assert s[j..][0] == s[j] && s[j..][1..] == s[j+1..];
      ghost var was := out;
      if s[j] == '.' {
        out := out + ['\\'];
      }
      out := out + [s[j]];
      assert out == was + if s[j] == '.' then ['\\', '.'] else [s[j]];
      j := j + 1;
    }
    assert Escaped(s[j..]) == "";
  }
}
