/** For which texts inlining a definition is invisible whatever the definitions are. */
module LexerInlining {
  import opened Basics
  import opened LexerExpand

  // ----- closed is closed under any definitions

  /** A scan that meets no open '{' lands behind the first '}' ahead of it, one way or another. */
  lemma {:induction false} Lands(t: string, i: nat, e: nat)
    requires Closed([], t, i) && i <= e < |t| && t[e] == '}' && forall k :: i <= k < e ==> t[k] != '}'
    ensures Closed([], t, e + 1)
    decreases |t| - i
  {
    if i < e && !(t[i] == '\\' && i + 1 == e) {
      Lands(t, NextAt([], t, i), e);
    }
  }

  lemma {:induction false} ClosedAnyway(defs: seq<Definition>, t: string, i: nat)
    requires Closed([], t, i)
    ensures Closed(defs, t, i)
    decreases |t| - i
  {
    if i < |t| {
      if RefAt(defs, t, i) < |defs| {
        Lands(t, i, Find(t, i, '}'));
      }
      ClosedAnyway(defs, t, NextAt(defs, t, i));
    }
  }

  // ----- taking a text apart

  lemma {:induction false} Unshift(defs: seq<Definition>, rank: seq<nat>, bound: nat, a: string, b: string, i: nat)
    requires Ranked(defs, rank) && i <= |b|
    requires RefsBelow(defs, rank, a + b, |a| + i, bound) && Whole(defs, a + b, |a| + i)
    ensures RefsBelow(defs, rank, b, i, bound) && Whole(defs, b, i)
    decreases |b| - i
  {
    hide Expand, RefAt, NextAt, Find, Lookup, RefsBelow, Whole, Ranked, Part;
    if i == |b| {
      ExpandEnd(defs, rank, bound, b);
    } else {
      ExpandByParts(defs, rank, bound, a + b, |a| + i);
      StepShift(defs, a, b, i);
      Unshift(defs, rank, bound, a, b, NextAt(defs, b, i));
      StepBack(defs, rank, bound, b, i);
    }
  }

  lemma {:induction false} Unconcat(defs: seq<Definition>, rank: seq<nat>, bound: nat, a: string, u: string, i: nat)
    requires Ranked(defs, rank) && i <= |a| && Seamless(defs, a, u, i)
    requires RefsBelow(defs, rank, a + u, i, bound) && Whole(defs, a + u, i)
    ensures RefsBelow(defs, rank, a, i, bound) && Whole(defs, a, i)
    ensures RefsBelow(defs, rank, u, 0, bound) && Whole(defs, u, 0)
    decreases |a| - i
  {
    SeamlessStep(defs, a, u, i);
    hide Expand, RefAt, NextAt, Find, Lookup, RefsBelow, Whole, Ranked, Part, Seamless;
    if i == |a| {
      ExpandEnd(defs, rank, bound, a);
      Unshift(defs, rank, bound, a, u, 0);
    } else {
      SameStep(defs, a, u, i);
      ExpandByParts(defs, rank, bound, a + u, i);
      Unconcat(defs, rank, bound, a, u, NextAt(defs, a, i));
      StepBack(defs, rank, bound, a, i);
    }
  }

  // ----- texts without references

  function Rep(c: char, n: nat): (s: string)
    ensures |s| == n && forall i :: 0 <= i < n ==> s[i] == c
  {
    seq(n, _ => c)
  }

  /** Read literally, the scan gets from i to k. */
  predicate Scanned(t: string, i: nat, k: nat)
    decreases |t| - i
  {
    i == k || (i < k && i < |t| && Scanned(t, i + (if t[i] == '\\' then 2 else 1), k))
  }

  ghost predicate NoRefs(defs: seq<Definition>, t: string, k: nat) {
    k <= |t| && forall j: nat :: j < k ==> RefAt(defs, t, j) == |defs|
  }

  lemma {:induction false} WholeIsScanned(t: string, i: nat)
    requires Whole([], t, i) && i <= |t|
    ensures Scanned(t, i, |t|)
    decreases |t| - i
  {
    if i < |t| { WholeIsScanned(t, NextAt([], t, i)); }
  }

  lemma {:induction false} ScannedAhead(t: string, u: string, i: nat, k: nat)
    requires Scanned(t, i, k) && k <= |t|
    ensures Scanned(t + u, i, k)
    decreases |t| - i
  {
    if i < k { ScannedAhead(t, u, i + (if t[i] == '\\' then 2 else 1), k); }
  }

  lemma {:induction false} PlainIsScanned(t: string, i: nat)
    requires '\\' !in t && i <= |t|
    ensures Scanned(t, i, |t|)
    decreases |t| - i
  {
    if i < |t| { PlainIsScanned(t, i + 1); }
  }

  lemma {:induction false} LiteralBelow(defs: seq<Definition>, rank: seq<nat>, bound: nat, t: string, i: nat)
    requires Scanned(t, i, |t|) && NoRefs(defs, t, |t|)
    ensures RefsBelow(defs, rank, t, i, bound) && Whole(defs, t, i)
    decreases |t| - i
  {
    if i < |t| {
      assert RefAt(defs, t, i) == |defs|;
      LiteralBelow(defs, rank, bound, t, NextAt(defs, t, i));
    }
  }

  lemma {:induction false} Literal(defs: seq<Definition>, rank: seq<nat>, bound: nat, t: string, i: nat, k: nat)
    requires Ranked(defs, rank) && Scanned(t, i, k) && NoRefs(defs, t, k)
    requires RefsBelow(defs, rank, t, k, bound) && Whole(defs, t, k)
    ensures i <= k && RefsBelow(defs, rank, t, i, bound) && Whole(defs, t, i)
    ensures Expand(defs, rank, bound, t, i) == t[i..k] + Expand(defs, rank, bound, t, k)
    decreases |t| - i
  {
    if i == k {
      assert t[i..k] == "";
    } else {
      LiteralNext(defs, t, i, k);
      hide Expand, RefAt, NextAt, Find, Lookup, RefsBelow, Whole, Ranked, NoRefs, Scanned;
      var j := NextAt(defs, t, i);
      Literal(defs, rank, bound, t, j, k);
      StepBack(defs, rank, bound, t, i);
      ExpandStep(defs, rank, bound, t, i);
      Joined(t, i, j, k);
      Regroup(t[i..j], t[j..k], Expand(defs, rank, bound, t, k));
    }
  }

  lemma LiteralNext(defs: seq<Definition>, t: string, i: nat, k: nat)
    requires Scanned(t, i, k) && NoRefs(defs, t, k) && i != k
    ensures i < k && RefAt(defs, t, i) == |defs| && Scanned(t, NextAt(defs, t, i), k)
    ensures NextAt(defs, t, i) <= k
  {
    if NextAt(defs, t, i) != k {
      assert Scanned(t, NextAt(defs, t, i), k);
    }
  }

  /** A text without references expands to itself. */
  lemma LiteralText(defs: seq<Definition>, rank: seq<nat>, bound: nat, t: string)
    requires Ranked(defs, rank) && Scanned(t, 0, |t|) && NoRefs(defs, t, |t|)
    ensures RefsBelow(defs, rank, t, 0, bound) && Whole(defs, t, 0) && Expand(defs, rank, bound, t, 0) == t
  {
    ExpandEnd(defs, rank, bound, t);
    Literal(defs, rank, bound, t, 0, |t|);
    assert t[0..|t|] + "" == t;
  }

  lemma ShortHasNone(defs: seq<Definition>, t: string)
    requires forall d :: 0 <= d < |defs| ==> |defs[d].name| >= |t|
    ensures NoRefs(defs, t, |t|)
  {
  }

  lemma BracelessHasNone(defs: seq<Definition>, t: string)
    requires '{' !in t
    ensures NoRefs(defs, t, |t|)
  {
    forall j: nat | j < |t| ensures RefAt(defs, t, j) == |defs| {
      assert t[j] in t;
    }
  }

  // ----- an open '{' and the name it can be made to begin

  /** The first '{' met by the scan of x that is not closed. */
  ghost predicate OpenAt(x: string, k: nat) {
    k < |x| && x[k] == '{' && Scanned(x, 0, k) && forall j :: k <= j < |x| ==> x[j] != '}'
  }

  lemma {:induction false} FirstOpen(x: string, i: nat) returns (k: nat)
    requires Whole([], x, i) && !Closed([], x, i)
    ensures i <= k < |x| && x[k] == '{' && Scanned(x, i, k) && forall j :: k <= j < |x| ==> x[j] != '}'
    decreases |x| - i
  {
    if x[i] == '{' && Find(x, i, '}') == |x| {
      return i;
    }
    k := FirstOpen(x, NextAt([], x, i));
  }

  lemma OpenOne(x: string) returns (k: nat)
    requires Whole([], x, 0) && !Closed([], x, 0)
    ensures OpenAt(x, k)
  {
    k := FirstOpen(x, 0);
  }

  /** With w and a '}' behind it, the open '{' begins a reference to the definition of that name. */
  lemma OpenSwallows(defs: seq<Definition>, rank: seq<nat>, bound: nat, x: string, w: string, k: nat, m: nat)
    requires Ranked(defs, rank) && OpenAt(x, k) && '}' !in w
    requires m < |defs| && Lookup(defs, x[k+1..] + w) == m && rank[m] < bound
    requires forall d :: 0 <= d < |defs| ==> |x| <= |defs[d].name| <= |x| - k - 1 + |w|
    ensures var t := x + (w + "}");
            && RefsBelow(defs, rank, t, 0, bound) && Whole(defs, t, 0)
            && Expand(defs, rank, bound, t, 0) == x[..k] + Expand(defs, rank, rank[m], defs[m].expr, 0)
  {
    var t := x + (w + "}");
    OpenRef(defs, x, w, k);
    OtherRefs(defs, x, w, k);
    assert t[0..k] == x[..k];
    ScannedAhead(x, w + "}", 0, k);
    hide Expand, RefAt, NextAt, Find, Lookup, RefsBelow, Whole, NoRefs, Scanned, OpenAt;
    ExpandEnd(defs, rank, bound, t);
    StepBack(defs, rank, bound, t, k);
    ExpandStep(defs, rank, bound, t, k);
    Literal(defs, rank, bound, t, 0, k);
    assert Expand(defs, rank, rank[m], defs[m].expr, 0) + "" == Expand(defs, rank, rank[m], defs[m].expr, 0);
  }

  lemma Behind(x: string, w: string)
    ensures var t := x + (w + "}");
            && |t| == |x| + |w| + 1 && t[|x| + |w|] == '}'
            && (forall j :: 0 <= j < |x| ==> t[j] == x[j])
            && ('}' !in w ==> forall j :: |x| <= j < |x| + |w| ==> t[j] != '}')
  {
    var t := x + (w + "}");
    forall j | |x| <= j < |x| + |w| && '}' !in w ensures t[j] != '}' {
      assert t[j] == w[j - |x|] && w[j - |x|] in w;
    }
  }

  lemma {:induction false} OpenRef(defs: seq<Definition>, x: string, w: string, k: nat)
    requires OpenAt(x, k) && '}' !in w && Lookup(defs, x[k+1..] + w) < |defs|
    ensures var t := x + (w + "}");
            RefAt(defs, t, k) == Lookup(defs, x[k+1..] + w) && NextAt(defs, t, k) == |t|
  {
    var t := x + (w + "}");
    Behind(x, w);
    FindAt(t, k, '}', |x| + |w|);
    Between(x, w, k + 1);
  }

  lemma Between(x: string, w: string, i: nat)
    requires i <= |x|
    ensures (x + (w + "}"))[i..|x|+|w|] == x[i..] + w
  {
  }

  lemma OtherRefs(defs: seq<Definition>, x: string, w: string, k: nat)
    requires OpenAt(x, k) && '}' !in w
    requires forall d :: 0 <= d < |defs| ==> |x| <= |defs[d].name| <= |x| - k - 1 + |w|
    ensures NoRefs(defs, x + (w + "}"), k)
  {
    hide Scanned;
    var t := x + (w + "}");
    Behind(x, w);
    forall j: nat | j < k ensures RefAt(defs, t, j) == |defs| {
      var e := Find(t, j, '}');
      assert e < |x| || e == |x| + |w|;
    }
  }

  // ----- the two visible cases

  /** Two definitions with long names: of the expression, and of what an open '{' can be made to name. */
  function Two(n: string, expr: string, m: string, z: nat): seq<Definition> {
    [Definition(n, expr), Definition(m, Rep('z', z))]
  }

  lemma TwoRanked(n: string, expr: string, m: string, z: nat)
    requires |n| >= |expr| && |m| >= |expr| && n != m && Whole([], expr, 0)
    ensures Ranked(Two(n, expr, m, z), [0, 0])
    ensures Lookup(Two(n, expr, m, z), n) == 0 && Lookup(Two(n, expr, m, z), m) == 1
    ensures var defs := Two(n, expr, m, z);
            |defs| == 2 && defs[0].name == n && defs[0].expr == expr && defs[1].name == m && defs[1].expr == Rep('z', z)
    ensures Expand(Two(n, expr, m, z), [0, 0], 0, expr, 0) == expr
    ensures Expand(Two(n, expr, m, z), [0, 0], 0, Rep('z', z), 0) == Rep('z', z)
  {
    var defs, rank: seq<nat>, last := Two(n, expr, m, z), [0, 0], Rep('z', z);
    WholeIsScanned(expr, 0);
    PlainIsScanned(last, 0);
    ShortHasNone(defs, expr);
    BracelessHasNone(defs, last);
    LiteralBelow(defs, rank, 0, expr, 0);
    LiteralBelow(defs, rank, 0, last, 0);
    assert defs[1..][0] == defs[1];
    LiteralText(defs, rank, 0, expr);
    LiteralText(defs, rank, 0, last);
  }

  /** What has to be known of definitions, a text a, a definition and a text b, to compare the text with
      the reference and the text with the expression: both can be expanded. */
  ghost predicate Setting(defs: seq<Definition>, rank: seq<nat>, bound: nat, a: string, d: nat, b: string) {
    && Ranked(defs, rank) && d < |defs| && Lookup(defs, defs[d].name) == d && '}' !in defs[d].name && rank[d] < bound
    && RefsBelow(defs, rank, Before(defs, a, d, b), 0, bound) && Whole(defs, Before(defs, a, d, b), 0)
    && RefsBelow(defs, rank, Inlined(defs, a, d, b), 0, bound) && Whole(defs, Inlined(defs, a, d, b), 0)
  }

  ghost predicate Same(defs: seq<Definition>, rank: seq<nat>, bound: nat, a: string, d: nat, b: string)
    requires Setting(defs, rank, bound, a, d, b)
  {
    Expand(defs, rank, bound, Before(defs, a, d, b), 0) == Expand(defs, rank, bound, Inlined(defs, a, d, b), 0)
  }

  /** Inlining expr behind a is never visible. */
  ghost predicate AlwaysInvisible(a: string, expr: string) {
    forall defs: seq<Definition>, rank, bound: nat, d: nat, b ::
      Setting(defs, rank, bound, a, d, b) && defs[d].expr == expr ==> Same(defs, rank, bound, a, d, b)
  }

  lemma WholeConcat(a: string, u: string)
    requires Whole([], a, 0) && Whole([], u, 0)
    ensures Scanned(a + u, 0, |a + u|)
  {
    WholeIsScanned(a, 0);
    WholeIsScanned(u, 0);
    ScannedAhead(a, u, 0, |a|);
    ScannedOn(a, u, 0);
    ScannedTwice(a + u, 0, |a|, |a + u|);
  }

  lemma {:induction false} ScannedOn(a: string, u: string, i: nat)
    requires Scanned(u, i, |u|) && i <= |u|
    ensures Scanned(a + u, |a| + i, |a + u|)
    decreases |u| - i
  {
    if i < |u| {
      var j := i + (if u[i] == '\\' then 2 else 1);
      assert j <= |u|;
      assert (a + u)[|a| + i] == u[i];
      ScannedOn(a, u, j);
    }
  }

  lemma {:induction false} ScannedTwice(t: string, i: nat, j: nat, k: nat)
    requires Scanned(t, i, j) && Scanned(t, j, k) && i <= j <= k
    ensures Scanned(t, i, k)
    decreases |t| - i
  {
    if i < j {
      var n := i + (if t[i] == '\\' then 2 else 1);
      assert n <= j;
      ScannedTwice(t, n, j, k);
    }
  }

  /** Behind an open '{' the reference can be swallowed, name and all. */
  lemma {:induction false} OpenTextShows(a: string, expr: string)
    requires Whole([], a, 0) && Whole([], expr, 0) && !Closed([], a, 0)
    ensures !AlwaysInvisible(a, expr)
  {
    var k := OpenOne(a);
    var len := |a| + |expr| + 1;
    var n := Rep('n', len);
    var m := a[k+1..] + ("{" + n);
    var defs, rank: seq<nat> := Two(n, expr, m, 2 * len), [0, 0];
    TwoRanked(n, expr, m, 2 * len);
    WholeConcat(a, expr);
    hide Expand, Lookup, RefsBelow, Whole, Ranked, Find, Scanned, OpenAt, Two, Rep, Before, Inlined, Same, Setting;
    OpenSwallows(defs, rank, 1, a, "{" + n, k, 1);
    NothingBehind(defs, a);
    ShortHasNone(defs, a + expr);
    LiteralText(defs, rank, 1, a + expr);
    Shows(defs, rank, 1, a, 0, "", k + 2 * len, |a| + |expr|);
  }

  lemma NothingBehind(defs: seq<Definition>, a: string)
    requires |defs| > 0
    ensures Before(defs, a, 0, "") == a + ("{" + defs[0].name + "}") && Inlined(defs, a, 0, "") == a + defs[0].expr
  {
    assert "{" + defs[0].name + "}" + "" == "{" + defs[0].name + "}";
    assert defs[0].expr + "" == defs[0].expr;
  }

  /** Two expansions of different lengths. */
  lemma {:induction false} Shows(defs: seq<Definition>, rank: seq<nat>, bound: nat,
                                 a: string, d: nat, b: string, x: nat, y: nat)
    requires Setting(defs, rank, bound, a, d, b) && x != y
    requires |Expand(defs, rank, bound, Before(defs, a, d, b), 0)| == x
    requires |Expand(defs, rank, bound, Inlined(defs, a, d, b), 0)| == y
    ensures !AlwaysInvisible(a, defs[d].expr)
  {
    hide Expand, Setting;
    assert !Same(defs, rank, bound, a, d, b);
  }

  /** An open '{' of the expression can swallow what follows the reference. */
  lemma OpenExpressionShows(a: string, expr: string)
    requires Whole([], a, 0) && Whole([], expr, 0) && Closed([], a, 0) && !Closed([], expr, 0)
    ensures !AlwaysInvisible(a, expr)
  {
    var k := OpenOne(expr);
    var len := |a| + |expr| + 1;
    var n, w := Rep('n', len), Rep('p', len);
    var m := expr[k+1..] + w;
    assert m[|m| - 1] == 'p' && n[|n| - 1] == 'n';
    assert '}' !in n && '}' !in w && '{' !in w && '\\' !in w;
    var defs, rank: seq<nat> := Two(n, expr, m, 4 * len), [0, 0];
    TwoRanked(n, expr, m, 4 * len);
    hide Expand, Lookup, RefsBelow, Whole, Ranked, Closed, OpenAt, Two, Rep, Before, Inlined;
    ReferenceStays(defs, rank, a, w);
    ExpressionSwallows(defs, rank, a, w, k);
    Shows(defs, rank, 1, a, 0, w + "}", |a| + |expr| + len + 1, |a| + k + 4 * len);
  }

  /** The text with the reference: a, the expression, and what follows. */
  lemma ReferenceStays(defs: seq<Definition>, rank: seq<nat>, a: string, w: string)
    requires Ranked(defs, rank) && |defs| > 0 && Lookup(defs, defs[0].name) == 0 && '}' !in defs[0].name
    requires Whole([], a, 0) && Closed([], a, 0) && '{' !in w && '\\' !in w
    requires rank[0] == 0 && Expand(defs, rank, 0, defs[0].expr, 0) == defs[0].expr
    requires forall d :: 0 <= d < |defs| ==> |a| <= |defs[d].name|
    ensures var t := Before(defs, a, 0, w + "}");
            && RefsBelow(defs, rank, t, 0, 1) && Whole(defs, t, 0)
            && |Expand(defs, rank, 1, t, 0)| == |a| + |defs[0].expr| + |w| + 1
  {
    var b := w + "}";
    LiteralPart(defs, rank, a);
    PlainIsScanned(b, 0);
    BracelessHasNone(defs, b);
    ClosedAnyway(defs, a, 0);
    ClosedIsSeamless(defs, a, "{" + defs[0].name + "}" + b, 0);
    hide Expand, Lookup, RefsBelow, Whole, Ranked, Closed, Seamless, NoRefs, Scanned;
    LiteralText(defs, rank, 1, b);
    RefExpands(defs, rank, 1, 0, b);
    ExpandConcat(defs, rank, 1, a, "{" + defs[0].name + "}" + b, 0);
  }

  lemma {:induction false} LiteralPart(defs: seq<Definition>, rank: seq<nat>, a: string)
    requires Ranked(defs, rank) && Whole([], a, 0) && forall d :: 0 <= d < |defs| ==> |a| <= |defs[d].name|
    ensures RefsBelow(defs, rank, a, 0, 1) && Whole(defs, a, 0) && Expand(defs, rank, 1, a, 0) == a
  {
    WholeIsScanned(a, 0);
    ShortHasNone(defs, a);
    LiteralText(defs, rank, 1, a);
  }

  /** The text with the expression: a, the expression up to its open '{', and the last definition. */
  lemma {:induction false} ExpressionSwallows(defs: seq<Definition>, rank: seq<nat>, a: string, w: string, k: nat)
    requires Ranked(defs, rank) && |defs| == 2 && OpenAt(defs[0].expr, k) && '}' !in w
    requires Whole([], a, 0) && Closed([], a, 0)
    requires rank[1] == 0 && Lookup(defs, defs[0].expr[k+1..] + w) == 1
    requires Expand(defs, rank, 0, defs[1].expr, 0) == defs[1].expr
    requires forall d :: 0 <= d < |defs| ==>
               |a| <= |defs[d].name| && |defs[0].expr| <= |defs[d].name| <= |defs[0].expr| - k - 1 + |w|
    ensures var t := Inlined(defs, a, 0, w + "}");
            && RefsBelow(defs, rank, t, 0, 1) && Whole(defs, t, 0)
            && |Expand(defs, rank, 1, t, 0)| == |a| + k + |defs[1].expr|
  {
    var expr, b := defs[0].expr, w + "}";
    LiteralPart(defs, rank, a);
    ClosedAnyway(defs, a, 0);
    ClosedIsSeamless(defs, a, expr + b, 0);
    hide Expand, Lookup, RefsBelow, Whole, Ranked, Closed, Seamless, Scanned;
    OpenSwallows(defs, rank, 1, expr, w, k, 1);
    ExpandConcat(defs, rank, 1, a, expr + b, 0);
  }

  /** Closed texts stay apart from whatever is put behind them. */
  lemma {:induction false} ClosedHides(defs: seq<Definition>, rank: seq<nat>, bound: nat, a: string, d: nat, b: string)
    requires Setting(defs, rank, bound, a, d, b) && Closed([], a, 0) && Closed([], defs[d].expr, 0)
    ensures Same(defs, rank, bound, a, d, b)
  {
    var r, expr := "{" + defs[d].name + "}", defs[d].expr;
    ClosedAnyway(defs, a, 0);
    ClosedAnyway(defs, expr, 0);
    ClosedIsSeamless(defs, a, r + b, 0);
    ClosedIsSeamless(defs, a, expr + b, 0);
    ClosedIsSeamless(defs, expr, b, 0);
    RefThere(defs, d, b);
    hide Expand, Lookup, RefsBelow, Whole, Ranked, Find, RefAt, NextAt, Seamless, Closed;
    Unconcat(defs, rank, bound, a, r + b, 0);
    ExpandByParts(defs, rank, bound, r + b, 0);
    Unshift(defs, rank, bound, r, b, 0);
    InliningIsInvisible(defs, rank, bound, a, d, b);
  }

  /** Inlining is invisible under all definitions and before all texts if and only if the text in front
      and the inlined expression leave no '{' open. */
  lemma InvisibleExactly(a: string, expr: string)
    requires Whole([], a, 0) && Whole([], expr, 0)
    ensures AlwaysInvisible(a, expr) <==> Closed([], a, 0) && Closed([], expr, 0)
  {
    if !Closed([], a, 0) {
      OpenTextShows(a, expr);
    } else if !Closed([], expr, 0) {
      OpenExpressionShows(a, expr);
    } else {
      hide Expand, Lookup, RefsBelow, Whole, Ranked, Closed, Same;
      forall defs: seq<Definition>, rank, bound: nat, d: nat, b
        | Setting(defs, rank, bound, a, d, b) && defs[d].expr == expr
        ensures Same(defs, rank, bound, a, d, b)
      {
        ClosedHides(defs, rank, bound, a, d, b);
      }
    }
  }
}
