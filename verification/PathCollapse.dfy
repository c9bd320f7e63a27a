/** path_collapse: ".." components removed in place; what that means on paths with single separators. */
module PathCollapse {

  import opened PathComponents
  import opened Basics
  import PathNormalize

  const NUL: char := '\0'

  /** A separator before each component. */
  function Text(cs: seq<string>): string {
    if cs == [] then "" else Text(cs[..|cs|-1]) + "/" + cs[|cs|-1]
  }

  /** Nonempty names without separators or NULs. */
  ghost predicate Names(cs: seq<string>) {
    forall i :: 0 <= i < |cs| ==> IsName(cs[i])
  }

  ghost predicate IsName(c: string) {
    c != "" && forall k :: 0 <= k < |c| ==> c[k] != SEP && c[k] != NUL
  }

  /** The separator that may end the path. */
  function Trail(tr: bool): string {
    if tr then "/" else ""
  }

  /** With the components done behind the cursor and todo before it: a name followed by ".." goes, and
      the cursor moves back over the component before. None stands for moving it off the buffer. */
  function Collapsed(done: seq<string>, todo: seq<string>, tr: bool, rooted: bool): Option<seq<string>>
    decreases |done| + 2 * |todo|
  {
    if todo == [] then Some(done)
    else if |todo| > 1 && todo[1] == DOTDOT then
      if done == [] then (if rooted && |todo| == 2 && !tr then Some([]) else None)
      else Collapsed(done[..|done|-1], [done[|done|-1]] + todo[2..], tr, rooted)
    else Collapsed(done + [todo[0]], todo[1..], tr, rooted)
  }

  /** The components reduced as collapsing does it: "." is a name like others, and so is ".." in front. */
  function Reduced(done: seq<string>, todo: seq<string>): seq<string>
    decreases |todo|
  {
    if todo == [] then done
    else if todo[0] == DOTDOT && done != [] then Reduced(done[..|done|-1], todo[1..])
    else Reduced(done + [todo[0]], todo[1..])
  }

  /** No ".." takes away the only component left, unless it ends a path with a root. */
  predicate KeepsRoot(depth: nat, cs: seq<string>, tr: bool, rooted: bool)
    decreases |cs|
  {
    cs != [] ==>
      if cs[0] != DOTDOT || depth == 0 then KeepsRoot(depth + 1, cs[1..], tr, rooted)
      else (depth == 1 ==> rooted && |cs| == 1 && !tr) && KeepsRoot(depth - 1, cs[1..], tr, rooted)
  }

  /** Where the cursor can stand: ".." is behind it in front only, and next if nothing is behind it. */
  ghost predicate Between(done: seq<string>, todo: seq<string>) {
    (forall i :: 0 < i < |done| ==> done[i] != DOTDOT) && (done != [] && todo != [] ==> todo[0] != DOTDOT)
  }

  /** The exact outcome: the reduced components, or a fault when the last one is taken away too early. */
  lemma {:induction false} CollapseExact(done: seq<string>, todo: seq<string>, tr: bool, rooted: bool)
    requires Between(done, todo)
    ensures Collapsed(done, todo, tr, rooted)
         == if KeepsRoot(|done|, todo, tr, rooted) then Some(Reduced(done, todo)) else None
    decreases |done| + 2 * |todo|
  {
    if todo != [] {
      var c := todo[0];
      if |todo| > 1 && todo[1] == DOTDOT {
        var rest := todo[2..];
        assert todo[1..][0] == DOTDOT && todo[1..][1..] == rest && (done + [c])[..|done|] == done;
        assert Reduced(done, todo) == Reduced(done + [c], todo[1..]) == Reduced(done, rest);
        assert KeepsRoot(|done|, todo, tr, rooted) == KeepsRoot(|done| + 1, todo[1..], tr, rooted);
        if done != [] {
          var front, p := done[..|done|-1], done[|done|-1];
          assert ([p] + rest)[1..] == rest && front + [p] == done;
          CollapseExact(front, [p] + rest, tr, rooted);
          assert KeepsRoot(|front|, [p] + rest, tr, rooted) == KeepsRoot(|done|, rest, tr, rooted);
        } else {
          assert KeepsRoot(1, todo[1..], tr, rooted)
            <==> rooted && |todo| == 2 && !tr && KeepsRoot(0, rest, tr, rooted);
          if |todo| == 2 { assert rest == []; }
        }
      } else {
        assert |todo| > 1 ==> todo[1..][0] == todo[1];
        CollapseExact(done + [c], todo[1..], tr, rooted);
      }
    }
  }

  /** Without "." and with no ".." in front those are the components one gets by following the path. */
  lemma {:induction false} ReducedResolves(done: seq<string>, todo: seq<string>, tr: bool, rooted: bool)
    requires "." !in todo && (todo != [] && done == [] ==> todo[0] != DOTDOT)
    requires KeepsRoot(|done|, todo, tr, rooted)
    ensures Reduced(done, todo) == Resolve(done, todo)
    decreases |todo|
  {
    if todo != [] {
      assert todo[0] in todo;
      ReducedResolves(Step(done, todo[0]), todo[1..], tr, rooted);
    }
  }

  /** So, where normalizing goes well too, both give the same components. */
  lemma CollapseLikeNormalize(path: string, tr: bool)
    requires PathNormalize.Safe([], Components(path)) && (!IsAbs(path) ==> Resolve([], Components(path)) != [])
    requires var cs := Components(path);
             "." !in cs && (cs != [] ==> cs[0] != DOTDOT) && KeepsRoot(0, cs, tr, IsAbs(path))
    ensures PathNormalize.Normalized(path).Some?
    ensures Collapsed([], Components(path), tr, IsAbs(path))
         == Some(Components(PathNormalize.Normalized(path).value))
  {
    CollapseExact([], Components(path), tr, IsAbs(path));
    ReducedResolves([], Components(path), tr, IsAbs(path));
    if IsAbs(path) {
      PathNormalize.NormalizeExact(path);
    } else {
      PathNormalize.NormalizeRelativeExact(path);
    }
  }

  // ----- the text

  /** A path with no root is handled as if one stood before it; the empty path has nothing before it. */
  predicate Rooted(s: string) {
    s == "" || IsAbs(s)
  }

  function Root(rooted: bool): string {
    if rooted then "" else "/"
  }

  /** How far the buffer is behind the text with a root. */
  function Off(rooted: bool): nat {
    if rooted then 0 else 1
  }

  /** The buffer holds the components done and todo, with a root in front if it has none. */
  ghost predicate Holds(p: string, rooted: bool, done: seq<string>, todo: seq<string>, tr: bool) {
    Root(rooted) + p == Text(done) + Text(todo) + Trail(tr)
  }

  /** What a component list looks like in the buffer. */
  function Shown(cs: seq<string>, tr: bool, rooted: bool): string {
    var t := Text(cs) + Trail(tr);
    if rooted || t == "" then t else t[1..]
  }

  /** No two separators side by side, no NUL. */
  ghost predicate Single(s: string) {
    && (forall k :: 0 <= k < |s| ==> s[k] != NUL)
    && (forall j, k :: 0 <= j < k < |s| && k == j + 1 ==> s[j] != SEP || s[k] != SEP)
  }

  lemma {:induction false} TextConcat(a: seq<string>, b: seq<string>)
    ensures Text(a + b) == Text(a) + Text(b)
  {
    if b == [] {
      assert a + b == a;
    } else {
      var ab := a + b;
      assert ab[..|ab|-1] == a + b[..|b|-1] && ab[|ab|-1] == b[|b|-1];
      TextConcat(a, b[..|b|-1]);
    }
  }

  lemma TextCons(c: string, rest: seq<string>)
    ensures Text([c] + rest) == "/" + c + Text(rest)
  {
    TextConcat([c], rest);
    assert [c][..0] == [] && Text([c]) == Text([]) + "/" + c;
    assert "" + "/" + c == "/" + c;
  }

  /** Such a path is the text of its components, from any separator on. */
  lemma {:induction false} SingleIsText(s: string, i: nat)
    requires Single(s) && i < |s| && s[i] == SEP
    ensures s[i..] == Text(From(s, i)) + Trail(EndsSep(s)) && Names(From(s, i))
    decreases |s| - i
  {
    hide Text;
    FromSeps(s, i, i + 1);
    if i + 1 == |s| {
      NoText();
      assert From(s, i) == [] && s[i..] == "/";
      assert "" + Trail(true) == "/";
    } else {
      assert s[i+1] != SEP;
      var m := NameEnd(s, i + 1);
      FromName(s, i + 1, m);
      var c, rest := s[i+1..m], From(s, m);
      assert IsName(c);
      if m == |s| {
        NoText();
        assert rest == [] && s[m..] == Text(rest) + Trail(EndsSep(s));
      } else {
        SingleIsText(s, m);
      }
      TextCons(c, rest);
      Assemble(s, i, m, Text(rest), Trail(EndsSep(s)));
    }
  }

  lemma NoText()
    ensures Text([]) == ""
  {
  }

  lemma Assemble(s: string, i: nat, m: nat, u: string, v: string)
    requires i < m <= |s| && s[i] == SEP && s[m..] == u + v
    ensures s[i..] == ("/" + s[i+1..m] + u) + v
  {
    assert s[i..] == "/" + s[i+1..m] + s[m..];
  }

  lemma {:induction false} TextComponents(cs: seq<string>, tr: bool)
    requires Names(cs)
    ensures Components(Text(cs) + Trail(tr)) == cs
  {
    FromSeps("/", 0, 1);
    if cs == [] {
      assert "" + Trail(tr) == Trail(tr);
    } else {
      var init, c := cs[..|cs|-1], cs[|cs|-1];
      TextComponents(init, true);
      OneComponent(c);
      ComponentsConcat(Text(init) + "/", c);
      ComponentsConcat(Text(cs), Trail(tr));
      assert cs == init + [c] && cs + [] == cs;
    }
  }

  // ----- one turn of the loop

  /** The first component of todo in the text. */
  lemma {:induction false} Shape(t: string, done: seq<string>, todo: seq<string>, tr: bool)
    requires t == Text(done) + Text(todo) + Trail(tr) && todo != [] && Names(todo)
    ensures var i, m := |Text(done)|, |Text(done)| + 1 + |todo[0]|;
            && m <= |t| && t[i] == SEP && t[i+1..m] == todo[0] && t[..i] == Text(done)
            && t[m..] == Text(todo[1..]) + Trail(tr)
            && (forall k :: i < k < m ==> t[k] != SEP && t[k] != NUL)
            && (m < |t| <==> |todo| > 1 || tr) && (m < |t| ==> t[m] == SEP)
            && i + 1 < m
  {
    hide Text;
    var d, c, rest := Text(done), todo[0], Text(todo[1..]) + Trail(tr);
    assert todo == [c] + todo[1..];
    TextCons(c, todo[1..]);
    assert IsName(c);
    Pieces(t, d, c, Text(todo[1..]), Trail(tr));
    if |todo| > 1 {
      assert todo[1..] == [todo[1]] + todo[1..][1..];
      TextCons(todo[1], todo[1..][1..]);
    } else {
      NoText();
      assert "" + Trail(tr) == Trail(tr);
    }
  }

  lemma Pieces(t: string, d: string, c: string, u: string, v: string)
    requires t == d + ("/" + c + u) + v && IsName(c)
    ensures var i, m := |d|, |d| + 1 + |c|;
            && m <= |t| && t[i] == SEP && t[i+1..m] == c && t[..i] == d && t[m..] == u + v
            && forall k :: i < k < m ==> t[k] != SEP && t[k] != NUL
  {
    var i, m := |d|, |d| + 1 + |c|;
    assert t == d + "/" + c + (u + v);
    assert t[i+1..m] == c;
    forall k | i < k < m ensures t[k] != SEP && t[k] != NUL {
      assert t[k] == t[i+1..m][k-i-1];
    }
  }

  /** What the three characters behind a component tell. */
  lemma DotDotAhead(u: string, todo: seq<string>, tr: bool)
    requires u == Text(todo) + Trail(tr) && todo != [] && Names(todo)
    ensures (3 <= |u| && u[1] == '.' && u[2] == '.' && (3 >= |u| || u[3] == SEP)) <==> todo[0] == DOTDOT
    ensures todo[0] == DOTDOT ==> u[3..] == Text(todo[1..]) + Trail(tr)
  {
    hide Text;
    NoText();
    assert "" + Text(todo) + Trail(tr) == u;
    Shape(u, [], todo, tr);
    IsDotDot(u, todo[0]);
  }

  lemma IsDotDot(u: string, c: string)
    requires |c| + 1 <= |u| && u[1..|c|+1] == c && (|c| + 1 < |u| ==> u[|c|+1] == SEP) && SEP !in c && c != ""
    ensures (3 <= |u| && u[1] == '.' && u[2] == '.' && (3 >= |u| || u[3] == SEP)) <==> c == DOTDOT
  {
    assert forall k :: 0 <= k < |c| ==> u[1+k] == u[1..|c|+1][k] == c[k];
    assert |c| == 2 && c[0] == '.' && c[1] == '.' <==> c == DOTDOT;
  }

  /** The text after a component and the ".." behind it have been cut out. */
  lemma {:induction false} CutOut(t: string, done: seq<string>, todo: seq<string>, tr: bool)
    requires t == Text(done) + Text(todo) + Trail(tr) && Names(todo)
    requires |todo| > 1 && todo[1] == DOTDOT
    ensures var i, l := |Text(done)| + 1, |Text(done)| + 1 + |todo[0]| + 4;
            && l <= |t| + 1
            && (l <= |t| ==> t[..i] + t[l..] == Text(done) + Text(todo[2..]) + Trail(tr) && t[i-1] == SEP)
            && (l == |t| + 1 ==> t[..i-1] == Text(done) + Text(todo[2..]) + Trail(tr))
            && (l == |t| + 1 <==> |todo| == 2 && !tr)
  {
    hide Text, Names;
    var rest := todo[2..];
    BehindDotDot(t, done, todo, tr);
    TextStart(rest, tr);
    Regroup(Text(done), Text(rest), Trail(tr));
    Splice(t, Text(done), |Text(done)| + 1 + |todo[0]|, Text(rest) + Trail(tr));
  }

  lemma {:induction false} BehindDotDot(t: string, done: seq<string>, todo: seq<string>, tr: bool)
    requires t == Text(done) + Text(todo) + Trail(tr) && Names(todo)
    requires |todo| > 1 && todo[1] == DOTDOT
    ensures var d, m := |Text(done)|, |Text(done)| + 1 + |todo[0]|;
            && d < m && m + 3 <= |t| && t[..d] == Text(done) && t[d] == SEP
            && t[m..][3..] == Text(todo[2..]) + Trail(tr)
  {
    hide Text;
    Shape(t, done, todo, tr);
    DotDotAhead(t[|Text(done)| + 1 + |todo[0]|..], todo[1..], tr);
    assert todo[1..][1..] == todo[2..];
  }

  lemma TextStart(cs: seq<string>, tr: bool)
    ensures var v := Text(cs) + Trail(tr);
            (v == "" <==> cs == [] && !tr) && (v != "" ==> v[0] == SEP)
  {
    if cs != [] {
      assert cs == [cs[0]] + cs[1..];
      TextCons(cs[0], cs[1..]);
    }
  }

  lemma Splice(t: string, d: string, m: nat, v: string)
    requires |d| < m && m + 3 <= |t| && t[..|d|] == d && t[|d|] == SEP && t[m..][3..] == v
    requires v != "" ==> v[0] == SEP
    ensures (v == "" <==> m + 4 == |t| + 1) && m + 4 <= |t| + 1
    ensures v != "" ==> t[..|d|+1] + t[m+4..] == d + v
    ensures v == "" ==> t[..|d|] == d + v
  {
    assert t[m+3..] == v;
    if v != "" {
      assert t[m+4..] == v[1..];
      assert t[..|d|+1] == d + [SEP] && [SEP] + v[1..] == v;
    }
  }

  // ----- the walk over the text

  /** The character at i, or the terminator. */
  function At(p: string, i: nat): char {
    if i < |p| then p[i] else NUL
  }

  /** Behind the separator at l comes "..". */
  predicate DotsAt(s: string, l: nat) {
    l + 3 <= |s| && s[l+1] == '.' && s[l+2] == '.' && (l + 3 >= |s| || s[l+3] == SEP)
  }

  /** The text without what lies from i to l; l is one past the end when the text ends in "..", and then
      the separator before i goes. */
  function Without(p: string, i: nat, l: nat): (u: string)
    requires 0 < i < l <= |p| + 1
    ensures i - 1 <= |u| < |p|
  {
    if l <= |p| then p[..i] + p[l..] else p[..i-1]
  }

  /** From d back over separators; -1 if there is nothing else. */
  function BackSeps(p: string, d: int): (i: int)
    requires -1 <= d
    ensures -1 <= i <= d
    decreases d
  {
    if d >= 0 && At(p, d) == SEP then BackSeps(p, d - 1) else d
  }

  /** From d back to a separator, or to the beginning. */
  function BackName(p: string, d: nat): (i: nat)
    ensures i <= d
  {
    if d > 0 && At(p, d) != SEP then BackName(p, d - 1) else d
  }

  function Back(p: string, d: nat): (i: int)
    ensures -1 <= i <= d
  {
    if BackSeps(p, d) < 0 then -1 else BackName(p, BackSeps(p, d))
  }

  /** What becomes of the text with the cursor at i; None once the cursor has left it. */
  function Walk(p: string, i: nat): Option<string>
    requires i <= |p|
    decreases |p|, |p| - i
  {
    if i == |p| then Some(p)
    else
      var j := SepEnd(p, i);
      var l := NameEnd(p, j);
      if l < |p| && DotsAt(p, l) then
        if j == 0 || Back(Without(p, j, l + 4), j - 1) < 0 then None
        else Walk(Without(p, j, l + 4), Back(Without(p, j, l + 4), j - 1))
      else Walk(p, if l < |p| then l + 1 else l)
  }

  lemma WalkOn(p: string, i: nat, j: nat, l: nat)
    requires i < |p| && j == SepEnd(p, i) && l == NameEnd(p, j) && !(l < |p| && DotsAt(p, l))
    ensures Walk(p, i) == Walk(p, if l < |p| then l + 1 else l)
  {
  }

  lemma WalkCut(p: string, i: nat, j: nat, l: nat)
    requires i < |p| && j == SepEnd(p, i) && l == NameEnd(p, j) && l < |p| && DotsAt(p, l)
    ensures j == 0 ==> Walk(p, i) == None
    ensures j > 0 ==>
              var u := Without(p, j, l + 4);
              Walk(p, i) == if Back(u, j - 1) < 0 then None else Walk(u, Back(u, j - 1))
  {
    hide Back, Without, SepEnd, NameEnd;
  }

  /** The characters behind a component tell whether ".." comes next. */
  lemma {:induction false} Ahead(t: string, done: seq<string>, todo: seq<string>, tr: bool)
    requires t == Text(done) + Text(todo) + Trail(tr) && todo != [] && Names(todo)
    ensures var m := |Text(done)| + 1 + |todo[0]|;
            (m + 3 <= |t| && t[m+1] == '.' && t[m+2] == '.' && (m + 3 >= |t| || t[m+3] == SEP))
            <==> |todo| > 1 && todo[1] == DOTDOT
  {
    hide Text;
    Shape(t, done, todo, tr);
    var m := |Text(done)| + 1 + |todo[0]|;
    var u := t[m..];
    if |todo| > 1 {
      DotDotAhead(u, todo[1..], tr);
      assert |u| > 3 ==> u[3] == t[m+3];
      assert |u| > 2 ==> u[1] == t[m+1] && u[2] == t[m+2];
    } else {
      NoText();
    }
  }

  /** Passing over a component that is not followed by "..". */
  lemma PassOver(done: seq<string>, todo: seq<string>, tr: bool, rooted: bool)
    requires todo != [] && !(|todo| > 1 && todo[1] == DOTDOT)
    ensures Text(done + [todo[0]]) == Text(done) + "/" + todo[0]
    ensures Text(done + [todo[0]]) + Text(todo[1..]) + Trail(tr) == Text(done) + Text(todo) + Trail(tr)
    ensures Collapsed(done, todo, tr, rooted) == Collapsed(done + [todo[0]], todo[1..], tr, rooted)
  {
    var next := done + [todo[0]];
    assert next[..|next|-1] == done && next[|next|-1] == todo[0];
    TextCons(todo[0], todo[1..]);
    assert todo == [todo[0]] + todo[1..];
    assert Text(done) + ("/" + todo[0] + Text(todo[1..])) == Text(done) + "/" + todo[0] + Text(todo[1..]);
  }

  /** After the cut: where the cursor goes back to, and how the walk goes on. */
  lemma BackOver(t: string, done: seq<string>, todo: seq<string>, tr: bool, rooted: bool)
    requires |todo| > 1 && todo[1] == DOTDOT && Names(done) && Names(todo)
    requires t == Text(done) + Text(todo[2..]) + Trail(tr)
    ensures done == [] ==>
              && Text(done) == "" && (t == "" <==> |todo| == 2 && !tr) && (t != "" ==> t[0] == SEP)
              && Collapsed(done, todo, tr, rooted) == (if rooted && t == "" then Some([]) else None)
    ensures done != [] ==>
              var front, p := done[..|done|-1], done[|done|-1];
              && t == Text(front) + Text([p] + todo[2..]) + Trail(tr)
              && Collapsed(done, todo, tr, rooted) == Collapsed(front, [p] + todo[2..], tr, rooted)
              && |Text(front)| < |Text(done)| - 1 && |Text(done)| <= |t| && t[|Text(front)|] == SEP
              && (forall k :: |Text(front)| < k < |Text(done)| ==> t[k] != SEP)
  {
    var rest := todo[2..];
    if done == [] {
      if rest != [] {
        assert rest == [rest[0]] + rest[1..];
        TextCons(rest[0], rest[1..]);
      }
    } else {
      var front, p := done[..|done|-1], done[|done|-1];
      TextCons(p, rest);
      Regroup(Text(front), "/" + p, Text(rest));
      Regroup(Text(front), "/", p);
      assert Names([p] + rest);
      assert |Text(done)| == |Text(front)| + 1 + |p|;
      hide Text, Trail;
      Shape(t, front, [p] + rest, tr);
    }
  }

  lemma Finish(t: string, done: seq<string>, todo: seq<string>, tr: bool, rooted: bool)
    requires t == Text(done) + Text(todo) + Trail(tr) && Names(todo) && |t| <= |Text(done)| + 1
    ensures todo == [] && Collapsed(done, todo, tr, rooted) == Some(done) && t == Text(done) + Trail(tr)
  {
    if todo != [] {
      Shape(t, done, todo, tr);
    }
    assert Text(done) + "" == Text(done);
  }

  /** Where the next component is in the buffer. */
  lemma NameIn(p: string, rooted: bool, done: seq<string>, todo: seq<string>, tr: bool, i: nat)
    requires Holds(p, rooted, done, todo, tr) && i < |p|
    requires Names(todo) && |Text(done)| <= i + Off(rooted) <= |Text(done)| + 1
    ensures var j := |Text(done)| + 1 - Off(rooted);
            && NameFacts(p, j, todo, tr) && j == SepEnd(p, i)
            && NameEnd(p, j) == if todo == [] then |p| else j + |todo[0]|
  {
    NameThere(p, rooted, done, todo, tr);
    hide Text, Names, Holds, DotsAt;
    var j := |Text(done)| + 1 - Off(rooted);
    SepEndAt(p, i, j);
    NameEndAt(p, j, if todo == [] then |p| else j + |todo[0]|);
  }

  lemma NameThere(p: string, rooted: bool, done: seq<string>, todo: seq<string>, tr: bool)
    requires Holds(p, rooted, done, todo, tr) && Names(todo) && |p| + Off(rooted) > |Text(done)|
    ensures NameFacts(p, |Text(done)| + 1 - Off(rooted), todo, tr)
  {
    var t := Root(rooted) + p;
    NameAt(t, done, todo, tr);
    hide Text, Names, Trail, NamePlace, DotsAt;
    FactsBehindRoot(p, rooted, |Text(done)| + 1, todo, tr);
  }

  /** A separator, and behind it at j what there is of todo. */
  ghost predicate NameFacts(p: string, j: int, todo: seq<string>, tr: bool) {
    var l := if todo == [] then |p| else j + |todo[0]|;
    && 0 <= j && (j > 0 ==> j <= |p| && p[j-1] == SEP) && NamePlace(p, j, l)
    && (todo == [] ==> j == |p|) && (todo != [] ==> j < l)
    && (todo != [] ==> (l < |p| <==> |todo| > 1 || tr) && (DotsAt(p, l) <==> |todo| > 1 && todo[1] == DOTDOT))
  }

  lemma FactsBehindRoot(p: string, rooted: bool, j: nat, todo: seq<string>, tr: bool)
    requires 0 < j && NameFacts(Root(rooted) + p, j, todo, tr)
    ensures NameFacts(p, j - Off(rooted), todo, tr)
  {
    hide NameFacts;
    if rooted {
      assert Root(rooted) + p == p;
    } else {
      FactsBehindOne("/" + p, p, j - 1, todo, tr);
    }
  }

  lemma FactsBehindOne(t: string, p: string, j: nat, todo: seq<string>, tr: bool)
    requires t == "/" + p && NameFacts(t, j + 1, todo, tr)
    ensures NameFacts(p, j, todo, tr)
  {
    hide NamePlace, DotsAt;
    var l := if todo == [] then |p| else j + |todo[0]|;
    PlaceEnds(t, j + 1, l + 1);
    PlaceBehindOne(t, p, j, l);
    PlaceEnds(p, j, l);
  }

  /** A name lies from j to l, before a separator or the end. */
  predicate NamePlace(s: string, j: nat, l: nat) {
    j <= l <= |s| && (forall k :: j <= k < l ==> s[k] != SEP && s[k] != NUL) && (l < |s| ==> s[l] == SEP)
  }

  lemma PlaceEnds(s: string, j: nat, l: nat)
    requires NamePlace(s, j, l)
    ensures j <= l <= |s| && (l < |s| ==> SEP in s)
  {
    assert l < |s| ==> s[l] in s;
  }

  lemma PlaceBehindOne(t: string, p: string, j: nat, l: nat)
    requires t == "/" + p
    ensures |t| == |p| + 1 && forall k :: 0 <= k < |p| ==> p[k] == t[k + 1]
    ensures NamePlace(t, j + 1, l + 1) ==> NamePlace(p, j, l)
    ensures DotsAt(t, l + 1) == DotsAt(p, l)
  {
    assert NamePlace(t, j + 1, l + 1) ==> forall k :: j <= k < l ==> p[k] == t[k + 1];
  }

  lemma {:induction false} NameAt(t: string, done: seq<string>, todo: seq<string>, tr: bool)
    requires t == Text(done) + Text(todo) + Trail(tr) && Names(todo) && |t| > |Text(done)|
    ensures var j := |Text(done)| + 1;
            var l := if todo == [] then |t| else j + |todo[0]|;
            && t[j-1] == SEP && NamePlace(t, j, l) && (todo == [] ==> j == |t|)
            && (todo != [] ==>
                  j < l && (l < |t| <==> |todo| > 1 || tr) && (DotsAt(t, l) <==> |todo| > 1 && todo[1] == DOTDOT))
  {
    NoText();
    if todo == [] {
      LastSep(t, done, tr);
    } else {
      Shape(t, done, todo, tr);
      Ahead(t, done, todo, tr);
    }
  }

  lemma NoWayBack(todo: seq<string>, tr: bool)
    requires |todo| > 1 && todo[1] == DOTDOT
    ensures Collapsed([], todo, tr, false) == None
  {
  }

  /** The buffer after the cut. */
  lemma Cut(p: string, rooted: bool, done: seq<string>, todo: seq<string>, tr: bool, i: nat, l: nat)
    requires Holds(p, rooted, done, todo, tr)
    requires Names(todo) && |todo| > 1 && todo[1] == DOTDOT
    requires 0 < i && i + Off(rooted) == |Text(done)| + 1 && l == i + |todo[0]| + 4
    ensures i < l <= |p| + 1 && Holds(Without(p, i, l), rooted, done, todo[2..], tr)
  {
    hide Text, Names, Trail, Without, Root;
    BehindAll(p, rooted);
    CutOut(Root(rooted) + p, done, todo, tr);
    Behind(p, rooted, i, l);
  }

  /** Where the cursor goes back to in the buffer, -1 for the beginning of a path without a root, and how
      the walk goes on from there. */
  lemma BackIn(p: string, rooted: bool, done: seq<string>, todo: seq<string>, tr: bool) returns (start: int)
    requires |todo| > 1 && todo[1] == DOTDOT && Names(done) && Names(todo)
    requires Holds(p, rooted, done, todo[2..], tr)
    ensures done == [] ==>
              && start == 0 && (rooted && p != "" ==> p[0] == SEP) && (rooted && p == "" ==> !tr)
              && Collapsed(done, todo, tr, rooted) == (if rooted && p == "" then Some([]) else None)
    ensures done != [] ==>
              var front, last := done[..|done|-1], done[|done|-1];
              && start == |Text(front)| - Off(rooted) && start + Off(rooted) < |Text(done)| - 1
              && |Text(done)| - Off(rooted) <= |p| && (start >= 0 ==> p[start] == SEP)
              && (forall k :: 0 <= k && start < k < |Text(done)| - Off(rooted) ==> p[k] != SEP)
              && Holds(p, rooted, front, [last] + todo[2..], tr)
              && Collapsed(done, todo, tr, rooted) == Collapsed(front, [last] + todo[2..], tr, rooted)
  {
    hide Collapsed, Names;
    BackOver(Root(rooted) + p, done, todo, tr, rooted);
    hide Text, Trail;
    start := 0;
    if done == [] {
      assert rooted ==> Root(rooted) + p == p;
    } else {
      var a, b := |Text(done[..|done|-1])|, |Text(done)|;
      start := a - Off(rooted);
      BackBehindRoot(Root(rooted) + p, p, rooted, a, b);
    }
  }

  lemma BackBehindRoot(t: string, p: string, rooted: bool, a: nat, b: nat)
    requires t == Root(rooted) + p && a < b - 1 && b <= |t| && t[a] == SEP && forall k :: a < k < b ==> t[k] != SEP
    ensures var start := a - Off(rooted);
            && b - Off(rooted) <= |p| && (start >= 0 ==> p[start] == SEP)
            && forall k :: 0 <= k && start < k < b - Off(rooted) ==> p[k] != SEP
  {
    BehindAll(p, rooted);
    assert forall k :: 0 <= k < |p| ==> p[k] == t[k + Off(rooted)];
  }

  lemma BehindAll(p: string, rooted: bool)
    ensures |Root(rooted) + p| == |p| + Off(rooted)
    ensures forall k :: 0 <= k < |p| ==> p[k] == (Root(rooted) + p)[k + Off(rooted)]
  {
  }

  lemma SomeText(done: seq<string>)
    requires Names(done)
    ensures done == [] <==> Text(done) == ""
    ensures done != [] ==> |Text(done)| >= 2
  {
    if done != [] {
      assert IsName(done[|done|-1]);
    }
  }

  /** The cut in the text with a root, and in the buffer. */
  lemma Behind(p: string, rooted: bool, i: nat, l: nat)
    requires 0 < i <= |p| && i < l <= |p| + 1
    ensures var t, off := Root(rooted) + p, Off(rooted);
            && |t| == |p| + off
            && Root(rooted) + Without(p, i, l) == if l <= |p| then t[..i + off] + t[l + off..] else t[..i - 1 + off]
  {
  }

  lemma HoldsOver(p: string, rooted: bool, done: seq<string>, todo: seq<string>, tr: bool)
    requires Holds(p, rooted, done, todo, tr) && todo != [] && !(|todo| > 1 && todo[1] == DOTDOT) && Names(done)
    requires Names(todo)
    ensures Holds(p, rooted, done + [todo[0]], todo[1..], tr) && Names(done + [todo[0]]) && Names(todo[1..])
    ensures |Text(done + [todo[0]])| == |Text(done)| + 1 + |todo[0]|
  {
    PassOver(done, todo, tr, rooted);
  }

  lemma HoldsShown(p: string, rooted: bool, done: seq<string>, todo: seq<string>, tr: bool)
    requires Holds(p, rooted, done, todo, tr) && Names(todo) && |p| + Off(rooted) <= |Text(done)| + 1
    ensures todo == [] && Collapsed(done, todo, tr, rooted) == Some(done) && p == Shown(done, tr, rooted)
  {
    var t := Root(rooted) + p;
    BehindAll(p, rooted);
    Finish(t, done, todo, tr, rooted);
    assert t[Off(rooted)..] == p;
  }

  lemma Start(s: string)
    requires Single(s)
    ensures Holds(s, Rooted(s), [], Components(s), EndsSep(s))
    ensures Names(Components(s)) && Text([]) == ""
  {
    if s == "" {
      assert Components(s) == [];
    } else if IsAbs(s) {
      AbsoluteStart(s);
      assert Root(true) + s == s;
    } else {
      PathNormalize.ComponentsBehindRoot(s);
      SingleBehindRoot(s);
      AbsoluteStart("/" + s);
    }
  }

  lemma AbsoluteStart(u: string)
    requires Single(u) && IsAbs(u)
    ensures u == Text([]) + Text(Components(u)) + Trail(EndsSep(u)) && Names(Components(u))
  {
    SingleIsText(u, 0);
    hide Text, From, Single;
    assert u[0..] == u;
    NoText();
    assert "" + Text(Components(u)) == Text(Components(u));
  }

  lemma SingleBehindRoot(s: string)
    requires Single(s) && s != "" && !IsAbs(s)
    ensures Single("/" + s) && EndsSep("/" + s) == EndsSep(s)
  {
    var u := "/" + s;
    assert u[0] == SEP && forall k :: 0 < k < |u| ==> u[k] == s[k-1];
  }

  lemma LastSep(t: string, done: seq<string>, tr: bool)
    requires t == Text(done) + Text([]) + Trail(tr)
    ensures |t| == |Text(done)| + (if tr then 1 else 0) && (tr ==> t[|t|-1] == SEP)
  {
  }

  /** Back over a separator or none, and over a name to start, or to the beginning if that is -1. */
  lemma {:induction false} BackTo(p: string, d: nat, start: int)
    requires -1 <= start < d - 1 && d <= |p| && (start >= 0 ==> p[start] == SEP)
    requires forall k :: 0 <= k && start < k < d ==> p[k] != SEP
    ensures Back(p, d) == if start < 0 then 0 else start
  {
    assert p[d-1] != SEP;
    assert BackSeps(p, d - 1) == d - 1 && BackSeps(p, d) == if At(p, d) == SEP then d - 1 else d;
    NameBack(p, BackSeps(p, d), start);
  }

  lemma {:induction false} NameBack(p: string, d: nat, start: int)
    requires -1 <= start < d <= |p| && (start >= 0 ==> p[start] == SEP) && At(p, d) != SEP
    requires forall k :: 0 <= k && start < k < d ==> p[k] != SEP
    ensures BackName(p, d) == if start < 0 then 0 else start
    decreases d
  {
    if d - 1 > start && d > 1 {
      NameBack(p, d - 1, start);
    }
  }

  /** On the text of components the walk does to them what Collapsed says. */
  lemma {:induction false} WalkHolds(p: string, i: nat, rooted: bool, done: seq<string>, todo: seq<string>, tr: bool)
    requires Holds(p, rooted, done, todo, tr) && Names(done) && Names(todo)
    requires i <= |p| && |Text(done)| <= i + Off(rooted) <= |Text(done)| + 1
    ensures Walk(p, i) == match Collapsed(done, todo, tr, rooted)
                          case Some(cs) => Some(Shown(cs, tr, rooted))
                          case None => None
    decreases |done| + 2 * |todo|, |p| - i
  {
    hide Text, Collapsed, Shown, Names, Holds, Walk, Back, Without, Root;
    if i == |p| {
      WalkEnd(p);
      HoldsShown(p, rooted, done, todo, tr);
    } else {
      var j := |Text(done)| + 1 - Off(rooted);
      var l := if todo == [] then |p| else j + |todo[0]|;
      NameIn(p, rooted, done, todo, tr, i);
      if todo == [] {
        WalkOn(p, i, j, l);
        WalkEnd(p);
        HoldsShown(p, rooted, done, todo, tr);
      } else if |todo| > 1 && todo[1] == DOTDOT {
        WalkCut(p, i, j, l);
        WalkBack(p, rooted, done, todo, tr, j, l + 4);
        if done != [] {
          WalkHolds(Without(p, j, l + 4), Back(Without(p, j, l + 4), j - 1), rooted, done[..|done|-1],
                    [done[|done|-1]] + todo[2..], tr);
        } else if j > 0 {
          NoText();
          WalkEnd(Without(p, j, l + 4));
        }
      } else {
        WalkOn(p, i, j, l);
        PassOver(done, todo, tr, rooted);
        HoldsOver(p, rooted, done, todo, tr);
        WalkHolds(p, if l < |p| then l + 1 else l, rooted, done + [todo[0]], todo[1..], tr);
      }
    }
  }

  lemma WalkEnd(p: string)
    ensures Walk(p, |p|) == Some(p)
  {
  }

  /** The step that takes a component and the ".." behind it away. */
  lemma WalkBack(p: string, rooted: bool, done: seq<string>, todo: seq<string>, tr: bool, j: nat, l: nat)
    requires Holds(p, rooted, done, todo, tr) && Names(done) && Names(todo) && |todo| > 1 && todo[1] == DOTDOT
    requires j + Off(rooted) == |Text(done)| + 1 && l == j + |todo[0]| + 4
    ensures j > 0 ==> l <= |p| + 1
    ensures done == [] ==>
              if j == 0 || Back(Without(p, j, l), j - 1) < 0 then Collapsed(done, todo, tr, rooted) == None
              else Collapsed(done, todo, tr, rooted) == Some([]) && Without(p, j, l) == "" == Shown([], tr, rooted)
    ensures done != [] ==>
              var front, last := done[..|done|-1], done[|done|-1];
              && j > 0 && 0 <= Back(Without(p, j, l), j - 1)
              && |Text(front)| <= Back(Without(p, j, l), j - 1) + Off(rooted) <= |Text(front)| + 1
              && Holds(Without(p, j, l), rooted, front, [last] + todo[2..], tr)
              && Names(front) && Names([last] + todo[2..])
              && Collapsed(done, todo, tr, rooted) == Collapsed(front, [last] + todo[2..], tr, rooted)
  {
    hide Text, Collapsed, Holds, Without, Back;
    SomeText(done);
    if j == 0 {
      NoWayBack(todo, tr);
    } else {
      Cut(p, rooted, done, todo, tr, j, l);
      var u := Without(p, j, l);
      var start := BackIn(u, rooted, done, todo, tr);
      if done == [] {
        BackFirst(u);
        NothingShown(tr, rooted);
      } else {
        BackTo(u, j - 1, start);
      }
    }
  }

  lemma BackFirst(u: string)
    ensures u == "" ==> Back(u, 0) == 0
    ensures u != "" && u[0] == SEP ==> Back(u, 0) == -1
  {
  }

  lemma NothingShown(tr: bool, rooted: bool)
    ensures !tr ==> Shown([], tr, rooted) == ""
  {
  }

  /** So on a path with single separators, absolute or relative, the walk leaves the collapsed component
      list, with the separator that may end the path. */
  lemma WalkCollapses(s: string)
    requires Single(s)
    ensures Walk(s, 0) == match Collapsed([], Components(s), EndsSep(s), Rooted(s))
                          case Some(cs) => Some(Shown(cs, EndsSep(s), Rooted(s)))
                          case None => None
  {
    Start(s);
    hide Text, From, Collapsed, Holds, Shown, Walk;
    WalkHolds(s, 0, Rooted(s), [], Components(s), EndsSep(s));
  }

  /** Behind two separators a ".." is not seen: it stays, and is then taken away itself. */
  lemma TwoSeparators()
    ensures Walk("/a//../../b", 0) == Some("/a//b")
    ensures Components("/a//b") == ["a", "b"] && Resolve([], Components("/a//../../b")) == ["b"]
  {
    hide From, Walk, Resolve;
    TwoWalks("/a//../../b", "/a//b");
    TwoNames("/a//b");
    FourNames("/a//../../b");
    FollowTwo(Components("/a//../../b"));
  }

  lemma TwoNames(u: string)
    requires u == "/a//b"
    ensures Components(u) == ["a", "b"]
  {
    hide From;
    FromSeps(u, 0, 1);
    FromName(u, 1, 2);
    FromSeps(u, 2, 4);
    FromName(u, 4, 5);
    AtTheEnd(u);
    assert u[1..2] == "a" && u[4..5] == "b";
    assert ["a"] + (["b"] + []) == ["a", "b"];
  }

  lemma FourNames(p: string)
    requires p == "/a//../../b"
    ensures Components(p) == ["a", DOTDOT, DOTDOT, "b"]
  {
    hide From;
    FromSeps(p, 0, 1);
    FromName(p, 1, 2);
    FromSeps(p, 2, 4);
    FromName(p, 4, 6);
    FromSeps(p, 6, 7);
    FromName(p, 7, 9);
    FromSeps(p, 9, 10);
    FromName(p, 10, 11);
    AtTheEnd(p);
    assert p[1..2] == "a" && p[4..6] == p[7..9] == DOTDOT && p[10..11] == "b";
    assert ["a"] + ([DOTDOT] + ([DOTDOT] + (["b"] + []))) == ["a", DOTDOT, DOTDOT, "b"];
  }

  lemma FollowTwo(cs: seq<string>)
    requires cs == ["a", DOTDOT, DOTDOT, "b"]
    ensures Resolve([], cs) == ["b"]
  {
    assert "a"[0] != '.' == "."[0] == DOTDOT[0] && |"."| == 1 && "b"[0] != '.';
    assert cs[1..] == [DOTDOT, DOTDOT, "b"] && cs[1..][1..] == [DOTDOT, "b"] && cs[1..][1..][1..] == ["b"];
    assert ["b"][1..] == [] && [] + ["a"] == ["a"] && [] + ["b"] == ["b"];
    assert Resolve([], cs) == Resolve(["a"], cs[1..]) == Resolve([], cs[1..][1..]) == Resolve([], cs[1..][1..][1..]);
  }

  lemma TwoWalks(p: string, u: string)
    requires p == "/a//../../b" && u == "/a//b"
    ensures Walk(p, 0) == Some(u)
  {
    hide Walk;
    SepEndAt(p, 0, 1);
    NameEndAt(p, 1, 2);
    WalkOn(p, 0, 1, 2);
    SepEndAt(p, 3, 4);
    NameEndAt(p, 4, 6);
    WalkCut(p, 3, 4, 6);
    assert Without(p, 4, 10) == u;
    assert BackSeps(u, 3) == BackSeps(u, 2) == BackSeps(u, 1) == 1 && BackName(u, 1) == 0;
    SepEndAt(u, 0, 1);
    NameEndAt(u, 1, 2);
    WalkOn(u, 0, 1, 2);
    SepEndAt(u, 3, 4);
    NameEndAt(u, 4, 5);
    WalkOn(u, 3, 4, 5);
    WalkEnd(u);
  }

  /** On /a/../b and on a/../b the cursor leaves the buffer. */
  lemma CursorLost(rooted: bool)
    ensures Walk(if rooted then "/a/../b" else "a/../b", 0) == None
  {
    var path, cs := if rooted then "/a/../b" else "a/../b", ["a", DOTDOT, "b"];
    PathNormalize.BackAndOn(path);
    assert "a"[0] != '.' == "."[0] && |DOTDOT| == 2 && "b"[0] == 'b';
    assert cs[1..] == [DOTDOT, "b"];
    assert !KeepsRoot(1, cs[1..], false, rooted);
    CollapseExact([], cs, false, rooted);
    assert path[|path|-1] == 'b' && path[|path|-2] == '/' && path[|path|-3] == '.' && path[|path|-4] == '.';
    assert path[|path|-5] == '/' && path[|path|-6] == 'a';
    hide Walk, Collapsed;
    WalkCollapses(path);
  }

  // ----- the code

  /** path_getsep on a NUL-terminated buffer. */
  method GetSep(path: array<char>, n: nat) returns (sep: char)
    requires n < path.Length && path[n] == NUL
    ensures sep == SEP || sep == NUL
    ensures sep == SEP <==> exists k :: 0 <= k < n && path[k] == SEP && NUL !in path[..k]
  {
    var i := 0;
    while path[i] != NUL
      invariant i <= n && NUL !in path[..i] && SEP !in path[..i]
      decreases n - i
    {
      if path[i] == SEP {
        return path[i];
      }
      i := i + 1;
    }
    return NUL;
  }

  /** Over the separators; without one in the path, sep is the terminator, and the loop stops at once. */
  method SkipSeps(path: array<char>, i: nat, n: nat, sep: char) returns (j: nat)
    requires i < n < path.Length && path[n] == NUL && NUL !in path[..n] && SepOf(path[..n], sep)
    ensures j == SepEnd(path[..n], i)
  {
    ghost var p := path[..n];
    assert path[i] == p[i] && p[i] in p;
    j := i;
    while path[j] == sep
      invariant i <= j <= n && (j < n ==> path[j] == p[j]) && SepEnd(p, j) == SepEnd(p, i)
      invariant sep == NUL ==> j == i
      decreases n - j
    {
      j := j + 1;
    }
    assert j < n ==> p[j] in p;
  }

  /** byte_chr: the next separator from i on, or n. */
  method ByteChrIn(path: array<char>, i: nat, n: nat, sep: char) returns (l: nat)
    requires i <= n < path.Length && NUL !in path[..n] && SepOf(path[..n], sep)
    ensures l == NameEnd(path[..n], i)
  {
    ghost var p := path[..n];
    l := i;
    while l < n && path[l] != sep
      invariant i <= l <= n && NameEnd(p, l) == NameEnd(p, i)
    {
      assert path[l] == p[l] && p[l] in p;
      l := l + 1;
    }
    assert l < n ==> path[l] == p[l] && p[l] in p;
  }

  /** What path_getsep answers: the separator, or the terminator if there is none. */
  ghost predicate SepOf(p: string, sep: char) {
    sep == SEP || (sep == NUL && SEP !in p)
  }

  /** The memmove, and the new end of the buffer. */
  method CutRange(path: array<char>, i: nat, l: nat, n: nat) returns (m: nat)
    requires 0 < i < l <= n + 1 && n < path.Length && path[n] == NUL
    modifies path
    ensures m == i + n - l && path[m] == NUL
    ensures path[..m] == Without(old(path[..n]), i, l)
  {
    ghost var p := path[..n];
    if l < n {
      forall k | 0 <= k < n - l {
        path[i+k] := path[l+k];
      }
    }
    m := i + n - l;
    assert forall k :: 0 <= k < i ==> path[k] == p[k];
    assert l <= n ==> forall k :: i <= k < m ==> path[k] == p[l+k-i];
    path[m] := NUL;
    IsWithout(p, i, l, path[..m]);
  }

  lemma IsWithout(p: string, i: nat, l: nat, u: string)
    requires 0 < i < l <= |p| + 1 && |u| == i + |p| - l
    requires forall k :: 0 <= k < i && k < |u| ==> u[k] == p[k]
    requires l <= |p| ==> forall k :: i <= k < |u| ==> u[k] == p[l+k-i]
    ensures u == Without(p, i, l)
  {
  }

  /** Back over separators and then over a name; a cursor at -1 has left the buffer. */
  method BackUp(path: array<char>, d: nat, n: nat) returns (i: int)
    requires d <= n < path.Length && path[n] == NUL
    ensures i == Back(path[..n], d)
  {
    ghost var p := path[..n];
    assert forall k :: 0 <= k <= n ==> path[k] == At(p, k);
    i := d;
    while i >= 0 && path[i] == SEP
      invariant -1 <= i <= d && BackSeps(p, i) == BackSeps(p, d)
    {
      i := i - 1;
    }
    if i < 0 {
      return;
    }
    ghost var e := i;
    while i > 0 && path[i] != SEP
      invariant 0 <= i <= e && BackName(p, i) == BackName(p, e)
    {
      i := i - 1;
    }
  }

  /** path_collapse: the buffer holds what the walk leaves; not ok once the cursor has left it. */
  method Collapse(path: array<char>, n0: nat) returns (n: nat, ok: bool)
    requires n0 < path.Length && path[n0] == NUL && NUL !in path[..n0]
    modifies path
    ensures var r := Walk(old(path[..n0]), 0);
            && ok == r.Some?
            && (ok ==> n < path.Length && path[n] == NUL && path[..n] == r.value)
  {
    hide Walk, Back, Without, SepEnd, NameEnd, SepOf, At;
    var sep := GetSep(path, n0);
    FromGetSep(path[..n0], sep);
    n := n0;
    var i := 0;
    while i < n
      invariant n < path.Length && path[n] == NUL && NUL !in path[..n] && 0 <= i <= n && SepOf(path[..n], sep)
      invariant Walk(path[..n], i) == Walk(old(path[..n0]), 0)
      decreases n, n - i
    {
      ghost var p := path[..n];
      var j := SkipSeps(path, i, n, sep);
      var l := ByteChrIn(path, j, n, sep);
      ghost var i0 := i;
      i := j;
      if l < n {
        FoundSep(p, j, sep);
        l := l + 1;
        if l + 2 <= n {
          assert path[l] == p[l] && path[l+1] == p[l+1] && (l + 2 < n ==> path[l+2] == p[l+2]);
          if path[l] == '.' && path[l+1] == '.' && (l + 2 >= n || path[l+2] == sep) {
            assert DotsAt(p, l - 1);
            WalkCut(p, i0, j, l - 1);
            l := l + 3;
            if i == 0 {
              // The cursor stands at the beginning of a path without a root, and moves before it.
              return 0, false;
            }
            n := CutRange(path, i, l, n);
            StillClean(p, j, l, sep);
            assert path[..n] == Without(p, j, l);
            i := BackUp(path, i - 1, n);
            if i < 0 {
              return 0, false;
            }
            continue;
          }
        }
      }
      WalkOn(p, i0, j, NameEnd(p, j));
      assert path[..n] == p;
      i := l;
    }
    WalkEnd(path[..n]);
    ok := true;
  }

  lemma FromGetSep(p: string, sep: char)
    requires sep == SEP || sep == NUL
    requires sep == SEP <==> exists k :: 0 <= k < |p| && p[k] == SEP && NUL !in p[..k]
    requires NUL !in p
    ensures SepOf(p, sep)
  {
    if SEP in p {
      var k :| 0 <= k < |p| && p[k] == SEP;
      assert NUL !in p[..k];
    }
  }

  lemma FoundSep(p: string, j: nat, sep: char)
    requires j <= |p| && NameEnd(p, j) < |p| && SepOf(p, sep)
    ensures sep == SEP
  {
    assert p[NameEnd(p, j)] in p;
  }

  lemma StillClean(p: string, i: nat, l: nat, sep: char)
    requires 0 < i < l <= |p| + 1 && NUL !in p && SepOf(p, sep)
    ensures NUL !in Without(p, i, l) && SepOf(Without(p, i, l), sep)
  {
    assert forall c :: c in Without(p, i, l) ==> c in p;
  }
}
