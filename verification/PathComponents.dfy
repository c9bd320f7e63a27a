/** Paths as text and as lists of components. */
module PathComponents {

  const SEP: char := '/'
  const DOTDOT: string := ".."

  /** The first position from i on that is not a separator. */
  function SepEnd(s: string, i: nat): (n: nat)
    requires i <= |s|
    ensures i <= n <= |s| && (n < |s| ==> s[n] != SEP)
    ensures forall k :: i <= k < n ==> s[k] == SEP
    decreases |s| - i
  {
    if i == |s| || s[i] != SEP then i else SepEnd(s, i + 1)
  }

  /** The first position from i on that is a separator. */
  function NameEnd(s: string, i: nat): (n: nat)
    requires i <= |s|
    ensures i <= n <= |s| && (n < |s| ==> s[n] == SEP)
    ensures forall k :: i <= k < n ==> s[k] != SEP
    decreases |s| - i
  {
    if i == |s| || s[i] == SEP then i else NameEnd(s, i + 1)
  }

  /** The maximal runs of other characters than the separator, from position i on. */
  function From(s: string, i: nat): (cs: seq<string>)
    requires i <= |s|
    ensures forall k :: 0 <= k < |cs| ==> cs[k] != "" && SEP !in cs[k]
    decreases |s| - i
  {
    if i == |s| then []
    else if s[i] == SEP then From(s, i + 1)
    else [s[i..NameEnd(s, i)]] + From(s, NameEnd(s, i))
  }

  function Components(s: string): seq<string> {
    From(s, 0)
  }

  predicate EndsSep(s: string) {
    s != "" && s[|s|-1] == SEP
  }

  predicate IsAbs(s: string) {
    s != "" && s[0] == SEP
  }

  lemma SepEndAt(s: string, i: nat, n: nat)
    requires i <= n <= |s| && (n < |s| ==> s[n] != SEP) && forall k :: i <= k < n ==> s[k] == SEP
    ensures SepEnd(s, i) == n
  {
  }

  lemma NameEndAt(s: string, i: nat, n: nat)
    requires i <= n <= |s| && (n < |s| ==> s[n] == SEP) && forall k :: i <= k < n ==> s[k] != SEP
    ensures NameEnd(s, i) == n
  {
  }

  lemma AtTheEnd(s: string)
    ensures From(s, |s|) == []
  {
  }

  /** Separators do not count. */
  lemma {:induction false} FromSeps(s: string, i: nat, n: nat)
    requires i <= n <= |s| && forall k :: i <= k < n ==> s[k] == SEP
    ensures From(s, i) == From(s, n)
    decreases n - i
  {
    if i < n { FromSeps(s, i + 1, n); }
  }

  /** A name, delimited on the right. */
  lemma FromName(s: string, i: nat, n: nat)
    requires i < n <= |s| && (n < |s| ==> s[n] == SEP) && forall k :: i <= k < n ==> s[k] != SEP
    ensures From(s, i) == [s[i..n]] + From(s, n)
  {
    NameEndAt(s, i, n);
  }

  /** Text in front does not matter. */
  lemma {:induction false} FromShift(a: string, b: string, j: nat)
    requires j <= |b|
    ensures From(a + b, |a| + j) == From(b, j)
    decreases |b| - j
  {
    if j < |b| {
      if b[j] == SEP {
        FromShift(a, b, j + 1);
      } else {
        var n := NameEnd(b, j);
        NameEndAt(a + b, |a| + j, |a| + n);
        assert (a + b)[|a|+j..|a|+n] == b[j..n];
        FromShift(a, b, n);
      }
    }
  }

  /** Between two pieces of text that do not meet inside a name, the components just add up. */
  lemma {:induction false} FromConcat(a: string, b: string, i: nat)
    requires i <= |a| && (b == "" || EndsSep(a) || b[0] == SEP || i == |a|)
    ensures From(a + b, i) == From(a, i) + Components(b)
    decreases |a| - i
  {
    if i == |a| {
      FromShift(a, b, 0);
    } else if a[i] == SEP {
      FromConcat(a, b, i + 1);
    } else {
      var n := NameEnd(a, i);
      NameEndAt(a + b, i, n);
      assert (a + b)[i..n] == a[i..n];
      FromConcat(a, b, n);
    }
  }

  lemma ComponentsConcat(a: string, b: string)
    requires a == "" || b == "" || EndsSep(a) || b[0] == SEP
    ensures Components(a + b) == Components(a) + Components(b)
  {
    FromConcat(a, b, 0);
  }

  /** The components from i on are those of the text from i on. */
  lemma FromIsSuffix(s: string, i: nat)
    requires i <= |s|
    ensures From(s, i) == Components(s[i..])
  {
    assert s == s[..i] + s[i..];
    FromShift(s[..i], s[i..], 0);
  }

  lemma OneComponent(s: string)
    requires s != "" && SEP !in s
    ensures Components(s) == [s]
  {
    FromName(s, 0, |s|);
    assert s[0..|s|] == s;
  }

  /** A trailing separator does not count. */
  lemma DropLastSep(s: string)
    requires EndsSep(s)
    ensures Components(s[..|s|-1]) == Components(s)
  {
    assert s == s[..|s|-1] + [SEP];
    FromSeps([SEP], 0, 1);
    ComponentsConcat(s[..|s|-1], [SEP]);
  }

  lemma {:induction false} NoneLeft(s: string, i: nat)
    requires i <= |s|
    ensures From(s, i) == [] <==> SepEnd(s, i) == |s|
    decreases |s| - i
  {
    if i < |s| && s[i] == SEP { NoneLeft(s, i + 1); }
  }

  /** The components with one separator between any two. */
  function Join(cs: seq<string>): string {
    if cs == [] then "" else if |cs| == 1 then cs[0] else cs[0] + "/" + Join(cs[1..])
  }

  lemma JoinOne(x: string)
    ensures Join([x]) == x
  {
  }

  lemma {:induction false} JoinBehind(ds: seq<string>, x: string)
    requires ds != []
    ensures Join(ds + [x]) == Join(ds) + "/" + x
  {
    assert (ds + [x])[1..] == ds[1..] + [x];
    if |ds| > 1 {
      JoinBehind(ds[1..], x);
    }
  }

  ghost predicate NoDoubleSep(s: string) {
    forall j, k :: 0 <= j < k < |s| && k == j + 1 ==> s[j] != SEP || s[k] != SEP
  }

  /** No separator at either end, and no two side by side. */
  ghost predicate Tidy(s: string) {
    !IsAbs(s) && !EndsSep(s) && NoDoubleSep(s)
  }

  /** Text is its components joined if and only if it is tidy. */
  lemma {:induction false} TidyExactly(s: string)
    ensures s == Join(Components(s)) <==> Tidy(s)
    decreases |s|
  {
    if s == "" {
      assert Components(s) == [];
    } else if s[0] == SEP {
      JoinBegins(Components(s));
    } else {
      hide From, Join, Tidy;
      var n := NameEnd(s, 0);
      FromName(s, 0, n);
      if n == |s| {
        OneName(s);
      } else {
        var c, t := s[0..n], s[n+1..];
        FromSeps(s, n, n + 1);
        FromIsSuffix(s, n + 1);
        TidyExactly(t);
        JoinStep(s, c, t);
        TidyStep(s, n);
      }
    }
  }

  lemma JoinBegins(cs: seq<string>)
    requires forall k :: 0 <= k < |cs| ==> cs[k] != "" && SEP !in cs[k]
    ensures !IsAbs(Join(cs)) && (cs != [] ==> Join(cs) != "")
  {
    if cs != [] {
      assert cs[0][0] in cs[0];
    }
  }

  lemma OneName(s: string)
    requires s != "" && NameEnd(s, 0) == |s|
    ensures s == Join(Components(s)) && Tidy(s)
  {
    OneComponent(s);
  }

  lemma JoinStep(s: string, c: string, t: string)
    requires s == c + "/" + t && c != "" && Components(s) == [c] + Components(t)
    ensures t != "" ==> (s == Join(Components(s)) <==> t == Join(Components(t)))
    ensures t == "" ==> s != Join(Components(s))
  {
    var cs := Components(s);
    assert cs[1..] == Components(t);
    if Components(t) != [] {
      var u := Join(Components(t));
      assert (c + "/" + u)[|c|+1..] == u && s[|c|+1..] == t;
    } else {
      assert Components(t) == [] && t == "" ==> cs == [c];
    }
  }

  lemma TidyStep(s: string, n: nat)
    requires 0 < n < |s| && s[n] == SEP && forall k :: 0 <= k < n ==> s[k] != SEP
    ensures Tidy(s) <==> s[n+1..] != "" && Tidy(s[n+1..])
  {
    var t := s[n+1..];
    assert forall k :: 0 <= k < |t| ==> t[k] == s[n+1+k];
    if t != "" && Tidy(t) {
      forall j, k | 0 <= j < k < |s| && k == j + 1 ensures s[j] != SEP || s[k] != SEP {
        if j > n { assert t[j-n-1] == s[j] && t[k-n-1] == s[k]; }
      }
    }
    if Tidy(s) {
      forall j, k | 0 <= j < k < |t| && k == j + 1 ensures t[j] != SEP || t[k] != SEP {
        assert s[n+1+j] != SEP || s[n+1+k] != SEP;
      }
    }
  }

  /** Following one component from a directory: ".." goes up and stops at the root. */
  function Step(base: seq<string>, c: string): seq<string> {
    if c == "." then base
    else if c == DOTDOT then (if base == [] then [] else base[..|base|-1])
    else base + [c]
  }

  function Resolve(base: seq<string>, cs: seq<string>): seq<string>
    decreases |cs|
  {
    if cs == [] then base else Resolve(Step(base, cs[0]), cs[1..])
  }

  ghost predicate NoDots(cs: seq<string>) {
    forall i :: 0 <= i < |cs| ==> cs[i] != "." && cs[i] != DOTDOT
  }

  lemma {:induction false} ResolvePlain(base: seq<string>, cs: seq<string>)
    requires NoDots(cs)
    ensures Resolve(base, cs) == base + cs
    decreases |cs|
  {
    if cs == [] {
      assert base + [] == base;
    } else {
      ResolvePlain(base + [cs[0]], cs[1..]);
      assert (base + [cs[0]]) + cs[1..] == base + cs;
    }
  }
}
