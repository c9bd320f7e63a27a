/** path_common_prefix and path_relative_b. */
module PathRelative {

  import opened Basics
  import opened PathComponents

  // ----- what the functions compute on text

  /** path_common_prefix from positions i and j on. */
  function Common(s: string, i: nat, t: string, j: nat): (r: (nat, nat))
    requires i <= |s| && j <= |t|
    ensures i <= r.0 <= |s| && j <= r.1 <= |t|
    decreases |s| - i
  {
    if i == |s| || j == |t| then (i, j)
    else
      var a, b := SepEnd(s, i), SepEnd(t, j);
      if (a == i) != (b == j) then (i, j)
      else
        var m, n := NameEnd(s, a), NameEnd(t, b);
        if s[a..m] != t[b..n] then (a, b) else Common(s, m, t, n)
  }

  /** path_skip: behind the separators and the name at i. */
  function Skip(s: string, i: nat): (n: nat)
    requires i <= |s|
    ensures i <= n <= |s| && (i < |s| ==> n > i)
  {
    NameEnd(s, SepEnd(s, i))
  }

  /** ".." once for each path_skip that advances. */
  function Ups(s: string, i: nat): string
    requires i <= |s|
    decreases |s| - i
  {
    if i == |s| then "" else "../" + Ups(s, Skip(s, i))
  }

  /** The last touch of path_relative_b: "." for nothing, else at most one trailing separator less. */
  function Trimmed(s: string): string {
    if s == "" then "." else if EndsSep(s) then s[..|s|-1] else s
  }

  /** What path_relative_b writes before that. */
  function Written(s: string, t: string): string {
    var p := Common(s, 0, t, 0);
    Ups(t, p.1) + s[SepEnd(s, p.0)..]
  }

  function Relative(s: string, t: string): string {
    Trimmed(Written(s, t))
  }

  // ----- what that means for components

  /** The lists do not start with the same component. */
  ghost predicate Parted(c1: seq<string>, c2: seq<string>) {
    c1 == [] || c2 == [] || c1[0] != c2[0]
  }

  /** Both remainders start at a separator, or neither does. */
  ghost predicate Alike(s: string, i: nat, t: string, j: nat)
    requires i <= |s| && j <= |t|
  {
    i < |s| && j < |t| ==> (s[i] == SEP <==> t[j] == SEP)
  }

  lemma CommonStep(s: string, i: nat, t: string, j: nat)
    requires i < |s| && j < |t| && Alike(s, i, t, j)
    ensures var a, b := SepEnd(s, i), SepEnd(t, j);
            var m, n := NameEnd(s, a), NameEnd(t, b);
            && i < m && Alike(s, m, t, n)
            && Common(s, i, t, j) == if s[a..m] != t[b..n] then (a, b) else Common(s, m, t, n)
  {
  }

  /** The components from i on are the name behind the separators at i, if any, and the rest. */
  lemma NextName(s: string, i: nat)
    requires i <= |s|
    ensures var a := SepEnd(s, i);
            var m := NameEnd(s, a);
            && From(s, i) == From(s, a) && (a == m ==> a == |s| && From(s, a) == [])
            && (a < m ==> From(s, a) == [s[a..m]] + From(s, m))
  {
    var a := SepEnd(s, i);
    FromSeps(s, i, a);
    if a < NameEnd(s, a) { FromName(s, a, NameEnd(s, a)); }
  }

  /** What is passed over is a list of components both have, and the next ones differ. */
  lemma {:induction false} CommonIsCommon(s: string, i: nat, t: string, j: nat) returns (c: seq<string>)
    requires i <= |s| && j <= |t| && Alike(s, i, t, j)
    ensures var r := Common(s, i, t, j);
            && From(s, i) == c + From(s, r.0) && From(t, j) == c + From(t, r.1)
            && Parted(From(s, r.0), From(t, r.1))
    decreases |s| - i
  {
    if i == |s| || j == |t| {
      return [];
    }
    hide From, Common, SepEnd, NameEnd;
    var a, b := SepEnd(s, i), SepEnd(t, j);
    var m, n := NameEnd(s, a), NameEnd(t, b);
    CommonStep(s, i, t, j);
    NextName(s, i);
    NextName(t, j);
    if s[a..m] != t[b..n] {
      return [];
    }
    assert m - a == |s[a..m]| == |t[b..n]| == n - b;
    c := CommonIsCommon(s, m, t, n);
    if a < m {
      Regroup([s[a..m]], c, From(s, Common(s, i, t, j).0));
      Regroup([s[a..m]], c, From(t, Common(s, i, t, j).1));
      c := [s[a..m]] + c;
    } else {
      assert m == |s| && n == |t|;
    }
  }

  /** A separator run at the end of t makes one ".." too many, unless it has been passed over. */
  predicate Extra(t: string, j: nat)
    requires j <= |t|
  {
    j < |t| && EndsSep(t)
  }

  function Dots(n: nat): (ds: seq<string>)
    ensures |ds| == n
  {
    seq(n, _ => DOTDOT)
  }

  /** How many ".." are written from j on. */
  function UpCount(t: string, j: nat): nat
    requires j <= |t|
  {
    |From(t, j)| + if Extra(t, j) then 1 else 0
  }

  lemma UpCountStep(t: string, j: nat)
    requires j < |t|
    ensures Ups(t, j) == "../" + Ups(t, Skip(t, j)) && UpCount(t, j) == UpCount(t, Skip(t, j)) + 1
  {
    NextName(t, j);
    hide From;
  }

  lemma {:induction false} UpsAreDots(t: string, j: nat)
    requires j <= |t|
    ensures Ups(t, j) == "" || EndsSep(Ups(t, j))
    ensures Ups(t, j) == "" <==> j == |t|
    ensures Components(Ups(t, j)) == Dots(UpCount(t, j))
    decreases |t| - j
  {
    if j == |t| {
      assert Dots(0) == [];
    } else {
      hide From, UpCount;
      var n, k := Skip(t, j), UpCount(t, Skip(t, j));
      UpCountStep(t, j);
      UpsAreDots(t, n);
      OneUp(Ups(t, n));
      assert Dots(k + 1) == [DOTDOT] + Dots(k);
    }
  }

  lemma OneUp(u: string)
    ensures Components("../" + u) == [DOTDOT] + Components(u)
    ensures EndsSep("../" + u) || EndsSep(u) || u != ""
  {
    assert "../" == DOTDOT + "/";
    OneComponent(DOTDOT);
    FromSeps("/", 0, 1);
    ComponentsConcat(DOTDOT, "/");
    ComponentsConcat("../", u);
  }

  lemma {:induction false} ResolveDots(base: seq<string>, n: nat, cs: seq<string>)
    ensures Resolve(base, Dots(n) + cs) == Resolve(if n < |base| then base[..|base|-n] else [], cs)
    decreases n
  {
    if n == 0 {
      assert Dots(0) + cs == cs && base[..|base|] == base;
    } else {
      assert (Dots(n) + cs)[1..] == Dots(n - 1) + cs;
      var up := Step(base, DOTDOT);
      ResolveDots(up, n - 1, cs);
      assert n < |base| ==> up[..|up|-(n-1)] == base[..|base|-n];
      assert n == |base| ==> up[..|up|-(n-1)] == [] || n - 1 >= |up|;
    }
  }

  /** The components of the result: a ".." for each component of t left, one more for an extra
      separator run, then the rest of s; a single "." if that is nothing. */
  lemma RelativeComponents(s: string, t: string)
    ensures var p := Common(s, 0, t, 0);
            Components(Relative(s, t)) == (if p.1 == |t| && SepEnd(s, p.0) == |s| then ["."]
                                           else Dots(UpCount(t, p.1)) + From(s, p.0))
  {
    var p := Common(s, 0, t, 0);
    var a := SepEnd(s, p.0);
    var u, r := Ups(t, p.1), s[a..];
    UpsAreDots(t, p.1);
    NextName(s, p.0);
    FromIsSuffix(s, a);
    hide From;
    ComponentsConcat(u, r);
    TrimmedComponents(u, r);
    assert u == "" && r == "" <==> p.1 == |t| && a == |s|;
  }

  lemma TrimmedComponents(u: string, r: string)
    ensures Components(Trimmed(u + r)) == if u == "" && r == "" then ["."] else Components(u + r)
  {
    if u == "" && r == "" {
      assert u + r == "";
      OneComponent(".");
    } else {
      assert |u + r| > 0;
      if EndsSep(u + r) { DropLastSep(u + r); }
    }
  }

  // ----- what it looks like

  /** How many ".." the result has. */
  function Height(s: string, t: string): nat {
    UpCount(t, Common(s, 0, t, 0).1)
  }

  /** What of s is left behind them. */
  function Rest(s: string, t: string): string {
    s[SepEnd(s, Common(s, 0, t, 0).0)..]
  }

  lemma {:induction false} UpsText(t: string, j: nat)
    requires j <= |t|
    ensures Ups(t, j) == if UpCount(t, j) == 0 then "" else Join(Dots(UpCount(t, j))) + "/"
    decreases |t| - j
  {
    if j < |t| {
      hide Join, Dots, Ups, UpCount;
      UpCountStep(t, j);
      UpsText(t, Skip(t, j));
      OneMoreUp(UpCount(t, Skip(t, j)), Ups(t, Skip(t, j)));
    }
  }

  lemma OneMoreUp(k: nat, u: string)
    requires u == if k == 0 then "" else Join(Dots(k)) + "/"
    ensures "../" + u == Join(Dots(k + 1)) + "/"
  {
    assert Dots(k + 1)[0] == DOTDOT && Dots(k + 1)[1..] == Dots(k);
    assert "../" == DOTDOT + "/";
  }

  /** The text of the result: ".." as often as it takes, then what is left of s as it stands, but for one
      separator at its end, with one separator between any two; "." if that is nothing. */
  lemma RelativeText(s: string, t: string)
    ensures var k, r := Height(s, t), Rest(s, t);
            var last := if EndsSep(r) then r[..|r|-1] else r;
            Relative(s, t) == if k == 0 && r == "" then "."
                              else Join(Dots(k) + if r == "" then [] else [last])
  {
    hide From, Common, Join;
    var j := Common(s, 0, t, 0).1;
    var k, r := Height(s, t), Rest(s, t);
    UpsText(t, j);
    TextTrimmed(k, r, Ups(t, j));
  }

  lemma TextTrimmed(k: nat, r: string, u: string)
    requires u == if k == 0 then "" else Join(Dots(k)) + "/"
    requires !IsAbs(r)
    ensures var last := if EndsSep(r) then r[..|r|-1] else r;
            Trimmed(u + r) == if k == 0 && r == "" then "."
                              else Join(Dots(k) + if r == "" then [] else [last])
  {
    hide Join;
    var last := if EndsSep(r) then r[..|r|-1] else r;
    if r == "" {
      assert u + r == u && Dots(k) + [] == Dots(k);
      assert k > 0 ==> u[..|u|-1] == Join(Dots(k));
    } else {
      assert EndsSep(u + r) <==> EndsSep(r);
      assert EndsSep(r) ==> (u + r)[..|u + r|-1] == u + last;
      if k > 0 {
        JoinBehind(Dots(k), last);
      } else {
        JoinOne(last);
        assert Dots(0) + [last] == [last] && u + last == last;
      }
    }
  }

  /** So it has no separator at either end, and nowhere two side by side unless what is left of s has. */
  lemma RelativeTidy(s: string, t: string)
    ensures NoDoubleSep(s) ==> NoDoubleSep(Rest(s, t))
    ensures NoDoubleSep(Rest(s, t)) <==> Tidy(Relative(s, t))
    ensures Tidy(Relative(s, t)) <==> Relative(s, t) == Join(Components(Relative(s, t)))
  {
    hide From, Common, Join;
    TidyExactly(Relative(s, t));
    UpsAreTidy(t, Common(s, 0, t, 0).1);
    TidyTrimmed(Ups(t, Common(s, 0, t, 0).1), Rest(s, t));
    SuffixSeps(s, SepEnd(s, Common(s, 0, t, 0).0));
  }

  lemma SuffixSeps(s: string, i: nat)
    requires i <= |s|
    ensures NoDoubleSep(s) ==> NoDoubleSep(s[i..])
  {
    if NoDoubleSep(s) {
      forall j, k | 0 <= j < k < |s| - i && k == j + 1 ensures s[i..][j] != SEP || s[i..][k] != SEP {
        assert s[i+j] != SEP || s[i+k] != SEP;
      }
    }
  }

  lemma {:induction false} UpsAreTidy(t: string, j: nat)
    requires j <= |t|
    ensures var u := Ups(t, j);
            !IsAbs(u) && NoDoubleSep(u) && (u == "" || EndsSep(u))
    decreases |t| - j
  {
    if j < |t| {
      var u := Ups(t, Skip(t, j));
      UpsAreTidy(t, Skip(t, j));
      var v := "../" + u;
      assert v[0] == v[1] == '.' && v[2] == '/' && forall k :: 3 <= k < |v| ==> v[k] == u[k-3];
      forall a, b | 0 <= a < b < |v| && b == a + 1 ensures v[a] != SEP || v[b] != SEP {
        if a >= 3 { assert u[a-3] != SEP || u[b-3] != SEP; }
      }
    }
  }

  lemma TidyTrimmed(u: string, r: string)
    requires !IsAbs(u) && NoDoubleSep(u) && (u == "" || EndsSep(u)) && !IsAbs(r)
    ensures NoDoubleSep(r) <==> Tidy(Trimmed(u + r))
  {
    SingleBehind(u, r);
    hide NoDoubleSep;
    if u + r != "" {
      assert !IsAbs(u + r);
      if EndsSep(u + r) {
        WithoutLast(u + r);
      } else {
        assert (u + r)[0] != SEP;
      }
    } else {
      NoneInDot();
    }
  }

  lemma NoneInDot()
    ensures NoDoubleSep("") && NoDoubleSep(".") && Tidy(".")
  {
  }

  lemma SingleBehind(u: string, r: string)
    requires NoDoubleSep(u) && !IsAbs(r)
    ensures NoDoubleSep(u + r) <==> NoDoubleSep(r)
  {
    var w, n := u + r, |u|;
    assert forall k :: 0 <= k < |r| ==> w[n+k] == r[k];
    if NoDoubleSep(r) {
      forall a, b | 0 <= a < b < |w| && b == a + 1 ensures w[a] != SEP || w[b] != SEP {
        if a >= n { assert r[a-n] != SEP || r[b-n] != SEP; }
      }
    }
    if NoDoubleSep(w) {
      forall a, b | 0 <= a < b < |r| && b == a + 1 ensures r[a] != SEP || r[b] != SEP {
        assert w[n+a] != SEP || w[n+b] != SEP;
      }
    }
  }

  /** Taking off a last separator leaves tidy text exactly if there were no two side by side. */
  lemma WithoutLast(w: string)
    requires EndsSep(w) && !IsAbs(w)
    ensures NoDoubleSep(w) <==> Tidy(w[..|w|-1])
  {
    var v, n := w[..|w|-1], |w| - 1;
    assert forall k :: 0 <= k < n ==> v[k] == w[k];
    if NoDoubleSep(w) {
      assert v != "" ==> w[n-1] != SEP;
    }
    if Tidy(v) {
      forall a, b | 0 <= a < b < |w| && b == a + 1 ensures w[a] != SEP || w[b] != SEP {
        if b < n { assert v[a] != SEP || v[b] != SEP; }
      }
    }
  }

  // ----- when the result leads from t to s

  lemma {:induction false} ConsumedWhy(s: string, i: nat, t: string, j: nat)
    requires i <= |s| && j < |t| && Alike(s, i, t, j) && EndsSep(t)
    requires Common(s, i, t, j).1 == |t|
    ensures From(s, Common(s, i, t, j).0) != [] || EndsSep(s)
    decreases |s| - i
  {
    hide From, SepEnd, NameEnd;
    if i < |s| {
      CommonStep(s, i, t, j);
      NextName(s, i);
      NextName(t, j);
      var a, b := SepEnd(s, i), SepEnd(t, j);
      var m, n := NameEnd(s, a), NameEnd(t, b);
      if s[a..m] == t[b..n] {
        assert m - a == |s[a..m]| == |t[b..n]| == n - b;
        if n < |t| {
          ConsumedWhy(s, m, t, n);
        } else {
          assert b == n;
          assert s[|s|-1] == SEP by {
            assert t[j] == SEP;
          }
        }
      }
    }
  }

  lemma {:induction false} StuckWhy(s: string, i: nat, t: string, j: nat)
    requires i <= |s| && j <= |t| && Alike(s, i, t, j) && (i == |s| ==> !EndsSep(s))
    ensures var r := Common(s, i, t, j);
            r.1 < |t| && From(t, r.1) == [] ==> r.0 == |s| && !EndsSep(s)
    decreases |s| - i
  {
    hide From, SepEnd, NameEnd;
    if i < |s| && j < |t| {
      CommonStep(s, i, t, j);
      NextName(s, i);
      NextName(t, j);
      var a, b := SepEnd(s, i), SepEnd(t, j);
      var m, n := NameEnd(s, a), NameEnd(t, b);
      if s[a..m] == t[b..n] {
        assert m - a == |s[a..m]| == |t[b..n]| == n - b;
        if n < |t| {
          StuckWhy(s, m, t, n);
        } else {
          assert Common(s, m, t, n).1 == |t|;
        }
      }
    }
  }

  /** Does the relative path of p from q lead from q to p? A separator at the end of q is harmless only
      when nothing is shared, or when p goes on behind it. */
  predicate LeadsThere(p: string, q: string) {
    var cp, cq := Components(p), Components(q);
    !EndsSep(q) || cp == [] || cq == [] || cp[0] != cq[0] || (cq <= cp && (cq != cp || EndsSep(p)))
  }

  lemma ExtraExactly(p: string, q: string, c: seq<string>)
    requires IsAbs(p) && IsAbs(q)
    requires var r := Common(p, 0, q, 0);
             && Components(p) == c + From(p, r.0) && Components(q) == c + From(q, r.1)
             && Parted(From(p, r.0), From(q, r.1))
    ensures Extra(q, Common(p, 0, q, 0).1) && c != [] <==> !LeadsThere(p, q)
  {
    hide From, Common;
    var r := Common(p, 0, q, 0);
    var d, e := From(q, r.1), From(p, r.0);
    StuckWhy(p, 0, q, 0);
    if EndsSep(q) && r.1 == |q| {
      ConsumedWhy(p, 0, q, 0);
      AtTheEnd(q);
      assert c + [] == c;
    }
    AtTheEnd(p);
    Behind(c, d, e);
  }

  lemma Behind(c: seq<string>, d: seq<string>, e: seq<string>)
    ensures c + d <= c + e <==> d <= e
    ensures c + d == c + e <==> d == e
    ensures c == [] ==> c + d == d && c + e == e
    ensures c != [] ==> (c + d)[0] == (c + e)[0]
    ensures d == [] ==> d <= e
  {
    assert (c + d)[|c|..] == d && (c + e)[|c|..] == e;
    if c + d <= c + e {
      assert (c + e)[..|c| + |d|][|c|..] == e[..|d|];
    }
  }

  lemma NoDotsBehind(c: seq<string>, e: seq<string>)
    requires NoDots(c + e)
    ensures NoDots(e)
  {
    assert forall i :: 0 <= i < |e| ==> e[i] == (c + e)[|c|+i];
  }

  lemma ResolveDot(base: seq<string>)
    ensures Resolve(base, ["."]) == base
  {
    assert Resolve(base, ["."]) == Resolve(Step(base, "."), ["."][1..]);
  }

  /** For absolute paths without dot components: the result, followed from q, ends at p if and only if
      LeadsThere. */
  lemma RelativeLeadsThere(p: string, q: string)
    requires IsAbs(p) && IsAbs(q) && NoDots(Components(p))
    ensures Resolve(Components(q), Components(Relative(p, q))) == Components(p) <==> LeadsThere(p, q)
  {
    hide From, Common, Relative, LeadsThere, Resolve, NoDots;
    var r := Common(p, 0, q, 0);
    var c := CommonIsCommon(p, 0, q, 0);
    var d, e := From(q, r.1), From(p, r.0);
    ExtraExactly(p, q, c);
    RelativeComponents(p, q);
    var k := |d| + if Extra(q, r.1) then 1 else 0;
    NoDotsBehind(c, e);
    if r.1 == |q| && SepEnd(p, r.0) == |p| {
      AtTheEnd(q);
      NoneLeft(p, r.0);
      assert c + [] == c;
      ResolveDot(c);
    } else {
      ResolveDots(c + d, k, e);
      var base := if k < |c + d| then (c + d)[..|c + d|-k] else [];
      ResolvePlain(base, e);
      assert k == |d| ==> base == c;
      assert k == |d| + 1 && c != [] ==> |base + e| < |c + e|;
    }
  }

  /** From a directory written with a separator at its end, the relative path can go one level too high. */
  lemma RelativeAstray() returns (p: string, q: string)
    ensures IsAbs(p) && IsAbs(q) && NoDots(Components(p))
    ensures Resolve(Components(q), Components(Relative(p, q))) != Components(p)
  {
    p, q := "/a/b", "/a/c/";
    FromSeps(p, 0, 1);
    FromName(p, 1, 2);
    FromSeps(p, 2, 3);
    FromName(p, 3, 4);
    AtTheEnd(p);
    FromSeps(q, 0, 1);
    FromName(q, 1, 2);
    FromSeps(q, 2, 3);
    FromName(q, 3, 4);
    FromSeps(q, 4, 5);
    AtTheEnd(q);
    hide From;
    assert p[1..2] == q[1..2] == "a" && p[3..4] == "b" && q[3..4] == "c";
    assert Components(p) == ["a", "b"] && Components(q) == ["a", "c"];
    assert Components(q)[1] != Components(p)[1];
    RelativeLeadsThere(p, q);
  }

  // ----- the code

  /** path_skip_separator on the text from start to the end. */
  method SkipSeparator(p: string, start: nat) returns (n: nat)
    requires start <= |p|
    ensures n == SepEnd(p, start)
  {
    n := start;
    while n < |p| && p[n] == SEP
      invariant start <= n <= |p| && forall k :: start <= k < n ==> p[k] == SEP
    {
      n := n + 1;
    }
    SepEndAt(p, start, n);
  }

  /** path_skip_component on the text from start to the end. */
  method SkipComponent(p: string, start: nat) returns (n: nat)
    requires start <= |p|
    ensures n == NameEnd(p, start)
  {
    n := start;
    while n < |p| && p[n] != SEP
      invariant start <= n <= |p| && forall k :: start <= k < n ==> p[k] != SEP
    {
      n := n + 1;
    }
    NameEndAt(p, start, n);
  }

  /** path_common_prefix. */
  method CommonPrefix(s: string, t: string) returns (sz1: nat, sz2: nat)
    ensures (sz1, sz2) == Common(s, 0, t, 0)
  {
    sz1, sz2 := 0, 0;
    while sz1 != |s| && sz2 != |t|
      invariant sz1 <= |s| && sz2 <= |t| && Common(s, sz1, t, sz2) == Common(s, 0, t, 0)
      decreases |s| - sz1
    {
      var i1 := SkipSeparator(s, sz1);
      var i2 := SkipSeparator(t, sz2);
      if (i1 > sz1) != (i2 > sz2) {
        break;
      }
      ghost var at := (sz1, sz2);
      sz1, sz2 := i1, i2;
      i1 := SkipComponent(s, sz1);
      i2 := SkipComponent(t, sz2);
      assert |s[sz1..i1]| == i1 - sz1 && |t[sz2..i2]| == i2 - sz2;
      if i1 - sz1 != i2 - sz2 {
        return;
      }
      if s[sz1..i1] != t[sz2..i2] {
        return;
      }
      sz1, sz2 := i1, i2;
    }
  }

  lemma UpsStep(t: string, j: nat)
    requires j < |t|
    ensures Ups(t, j) == "../" + Ups(t, NameEnd(t, SepEnd(t, j))) && NameEnd(t, SepEnd(t, j)) > j
  {
  }

  lemma UpsDone(t: string)
    ensures Ups(t, |t|) == ""
  {
  }

  /** path_relative_b. Text that is in the buffer already stays in front of what is written. */
  method PathRelative(s: string, t: string, db: string) returns (out: string)
    ensures out == if Written(s, t) == "" then Trimmed(db) else db + Relative(s, t)
  {
    hide Common, Ups;
    var sz1, sz2 := CommonPrefix(s, t);
    out := db;
    ghost var from := sz2;
    while sz2 < |t|
      invariant sz2 <= |t| && out + Ups(t, sz2) == db + Ups(t, from)
    {
      var i := SkipSeparator(t, sz2);
      i := SkipComponent(t, i);
      UpsStep(t, sz2);
      Regroup(out, "../", Ups(t, i));
      out := out + "../";
      sz2 := i;
    }
    UpsDone(t);
    var i := SkipSeparator(s, sz1);
    Regroup(db, Ups(t, from), s[i..]);
    out := out + s[i..];
    assert out == db + Written(s, t);
    TrimmedBehind(db, Written(s, t));
    if |out| == 0 {
      out := ".";
    } else if out[|out|-1] == SEP {
      out := out[..|out|-1];
    }
  }

  lemma TrimmedBehind(db: string, u: string)
    ensures Trimmed(db + u) == if u == "" then Trimmed(db) else db + Trimmed(u)
  {
    if u == "" {
      assert db + u == db;
    } else if EndsSep(u) {
      assert (db + u)[..|db + u|-1] == db + u[..|u|-1];
    }
  }
}
