/** Macro expansion of lexer rules: {name} stands for the expression of a definition. */
module LexerExpand {
  import opened Basics

  datatype Definition = Definition(name: string, expr: string)

  /** lexer_find_definition: the first definition of that name, or the number of definitions. */
  function Lookup(defs: seq<Definition>, name: string): (d: nat)
    ensures d <= |defs| && (d < |defs| ==> defs[d].name == name)
    ensures forall j :: 0 <= j < d ==> defs[j].name != name
  {
    if defs == [] || defs[0].name == name then 0 else 1 + Lookup(defs[1..], name)
  }

  /** The definition the text refers to at i, or the number of definitions. */
  function RefAt(defs: seq<Definition>, t: string, i: nat): (d: nat)
    requires i < |t|
    ensures d <= |defs|
    ensures d < |defs| ==> t[i] == '{' && Find(t, i, '}') < |t|
  {
    var e := Find(t, i, '}');
    if t[i] == '{' && e < |t| then Lookup(defs, t[i+1..e]) else |defs|
  }

  /** Where the scan goes on behind what stands at i. */
  function NextAt(defs: seq<Definition>, t: string, i: nat): (j: nat)
    requires i < |t|
    ensures j > i
  {
    if RefAt(defs, t, i) < |defs| then Find(t, i, '}') + 1 else if t[i] == '\\' then i + 2 else i + 1
  }

  /** The scan from i does not run past the end, as it does on a last, lone backslash. */
  predicate Whole(defs: seq<Definition>, t: string, i: nat)
    decreases |t| - i
  {
    i < |t| ==> NextAt(defs, t, i) <= |t| && Whole(defs, t, NextAt(defs, t, i))
  }

  /** Nor does it meet a '{' that is not closed later on. */
  predicate Closed(defs: seq<Definition>, t: string, i: nat)
    decreases |t| - i
  {
    i < |t| ==>
      && NextAt(defs, t, i) <= |t| && (t[i] == '{' ==> Find(t, i, '}') < |t|)
      && Closed(defs, t, NextAt(defs, t, i))
  }

  /** No reference that begins in t ends in the text u behind it: the name from a '{' still open in t
      up to the first '}' of u is not defined. */
  predicate Seamless(defs: seq<Definition>, t: string, u: string, i: nat)
    decreases |t| - i
  {
    i < |t| ==>
      && NextAt(defs, t, i) <= |t| && RefAt(defs, t + u, i) == RefAt(defs, t, i)
      && Seamless(defs, t, u, NextAt(defs, t, i))
  }

  /** Every reference the scan meets is to a definition ranked below bound. */
  predicate RefsBelow(defs: seq<Definition>, rank: seq<nat>, t: string, i: nat, bound: nat)
    decreases |t| - i
  {
    i < |t| ==>
      && (RefAt(defs, t, i) < |defs| == |rank| ==> rank[RefAt(defs, t, i)] < bound)
      && RefsBelow(defs, rank, t, NextAt(defs, t, i), bound)
  }

  /** Every definition refers to lower-ranked ones only and can be scanned to its end. */
  predicate Ranked(defs: seq<Definition>, rank: seq<nat>) {
    && |rank| == |defs|
    && forall d :: 0 <= d < |defs| ==> RefsBelow(defs, rank, defs[d].expr, 0, rank[d]) && Whole(defs, defs[d].expr, 0)
  }

  /** The expansion of the text from i on. */
  function Expand(defs: seq<Definition>, rank: seq<nat>, bound: nat, t: string, i: nat): string
    requires Ranked(defs, rank) && RefsBelow(defs, rank, t, i, bound) && Whole(defs, t, i)
    decreases bound, |t| - i
  {
    if i >= |t| then ""
    else
      var d, j := RefAt(defs, t, i), NextAt(defs, t, i);
      (if d < |defs| then Expand(defs, rank, rank[d], defs[d].expr, 0) else t[i..j]) + Expand(defs, rank, bound, t, j)
  }

  /** One step of the scan. */
  lemma ExpandStep(defs: seq<Definition>, rank: seq<nat>, bound: nat, t: string, i: nat)
    requires Ranked(defs, rank) && RefsBelow(defs, rank, t, i, bound) && Whole(defs, t, i) && i < |t|
    ensures var d, j := RefAt(defs, t, i), NextAt(defs, t, i);
            && i < j <= |t| && RefsBelow(defs, rank, t, j, bound) && Whole(defs, t, j)
            && (d < |defs| ==> && |rank| == |defs| && rank[d] < bound
                               && RefsBelow(defs, rank, defs[d].expr, 0, rank[d]) && Whole(defs, defs[d].expr, 0)
                               && Expand(defs, rank, bound, t, i)
                                  == Expand(defs, rank, rank[d], defs[d].expr, 0) + Expand(defs, rank, bound, t, j))
            && (d == |defs| ==> Expand(defs, rank, bound, t, i) == t[i..j] + Expand(defs, rank, bound, t, j))
  {
  }

  /** And back: a step onto a position that is in order. */
  lemma {:induction false} StepBack(defs: seq<Definition>, rank: seq<nat>, bound: nat, t: string, i: nat)
    requires Ranked(defs, rank) && i < |t|
    requires var d, j := RefAt(defs, t, i), NextAt(defs, t, i);
             && j <= |t| && RefsBelow(defs, rank, t, j, bound) && Whole(defs, t, j)
             && (d < |defs| == |rank| ==> rank[d] < bound)
    ensures RefsBelow(defs, rank, t, i, bound) && Whole(defs, t, i)
  {
  }

  /** What one step contributes. */
  ghost function Part(defs: seq<Definition>, rank: seq<nat>, bound: nat, t: string, i: nat): string
    requires Ranked(defs, rank) && RefsBelow(defs, rank, t, i, bound) && Whole(defs, t, i) && i < |t|
  {
    var d, j := RefAt(defs, t, i), NextAt(defs, t, i);
    if d < |defs| then Expand(defs, rank, rank[d], defs[d].expr, 0) else t[i..j]
  }

  lemma ExpandByParts(defs: seq<Definition>, rank: seq<nat>, bound: nat, t: string, i: nat)
    requires Ranked(defs, rank) && RefsBelow(defs, rank, t, i, bound) && Whole(defs, t, i) && i < |t|
    ensures var d, j := RefAt(defs, t, i), NextAt(defs, t, i);
            && i < j <= |t| && RefsBelow(defs, rank, t, j, bound) && Whole(defs, t, j)
            && (d < |defs| == |rank| ==> rank[d] < bound)
            && Expand(defs, rank, bound, t, i) == Part(defs, rank, bound, t, i) + Expand(defs, rank, bound, t, j)
  {
  }

  lemma ExpandEnd(defs: seq<Definition>, rank: seq<nat>, bound: nat, t: string)
    requires Ranked(defs, rank)
    ensures RefsBelow(defs, rank, t, |t|, bound) && Whole(defs, t, |t|) && Expand(defs, rank, bound, t, |t|) == ""
  {
  }

  /** Equal steps contribute equally. */
  lemma SamePart(defs: seq<Definition>, rank: seq<nat>, bound: nat, t: string, i: nat, u: string, k: nat)
    requires Ranked(defs, rank) && i < |t| && k < |u|
    requires RefsBelow(defs, rank, t, i, bound) && Whole(defs, t, i)
    requires RefsBelow(defs, rank, u, k, bound) && Whole(defs, u, k)
    requires RefAt(defs, t, i) == RefAt(defs, u, k) && t[i..NextAt(defs, t, i)] == u[k..NextAt(defs, u, k)]
    ensures Part(defs, rank, bound, t, i) == Part(defs, rank, bound, u, k)
  {
  }

  /** The bound is there for termination only. */
  lemma {:induction false} BoundDoesNotMatter(defs: seq<Definition>, rank: seq<nat>, b: nat, c: nat, t: string, i: nat)
    requires Ranked(defs, rank) && Whole(defs, t, i)
    requires RefsBelow(defs, rank, t, i, b) && RefsBelow(defs, rank, t, i, c)
    ensures Expand(defs, rank, b, t, i) == Expand(defs, rank, c, t, i)
    decreases |t| - i
  {
    if i < |t| {
      ExpandStep(defs, rank, b, t, i);
      ExpandStep(defs, rank, c, t, i);
      BoundDoesNotMatter(defs, rank, b, c, t, NextAt(defs, t, i));
    }
  }

  /** Text that refers to nothing stays as it is. */
  lemma {:induction false} PlainExpands(defs: seq<Definition>, rank: seq<nat>, bound: nat, t: string, i: nat)
    requires Ranked(defs, rank) && RefsBelow(defs, rank, t, i, bound) && Whole(defs, t, i) && i <= |t|
    requires forall k, e :: i <= k < e < |t| && t[k] == '{' && t[e] == '}' ==>
               forall d :: 0 <= d < |defs| ==> defs[d].name != t[k+1..e]
    ensures Expand(defs, rank, bound, t, i) == t[i..]
    decreases |t| - i
  {
    if i < |t| {
      assert RefAt(defs, t, i) == |defs|;
      ExpandStep(defs, rank, bound, t, i);
      var j := NextAt(defs, t, i);
      PlainExpands(defs, rank, bound, t, j);
      assert t[i..] == t[i..j] + t[j..];
    }
  }

  /** What stands behind a backslash is passed over with it, an opening brace too. */
  lemma BackslashPasses(defs: seq<Definition>, rank: seq<nat>, bound: nat, t: string, i: nat)
    requires Ranked(defs, rank) && RefsBelow(defs, rank, t, i, bound) && Whole(defs, t, i)
    requires i < |t| && t[i] == '\\'
    ensures i + 2 <= |t| && RefsBelow(defs, rank, t, i + 2, bound) && Whole(defs, t, i + 2)
    ensures Expand(defs, rank, bound, t, i) == ['\\', t[i+1]] + Expand(defs, rank, bound, t, i + 2)
  {
    ExpandStep(defs, rank, bound, t, i);
    assert i + 2 <= |t| ==> t[i..i+2] == ['\\', t[i+1]];
  }

  // ----- concatenation

  lemma FindAt(t: string, i: nat, c: char, k: nat)
    requires i <= k <= |t| && (k < |t| ==> t[k] == c) && forall j :: i <= j < k ==> t[j] != c
    ensures Find(t, i, c) == k
  {
  }

  /** What can stand at a position, in terms of names. */
  lemma StepCases(defs: seq<Definition>, t: string, i: nat)
    requires i < |t|
    ensures var d, e := RefAt(defs, t, i), Find(t, i, '}');
            && (d < |defs| <==> t[i] == '{' && e < |t| && Lookup(defs, t[i+1..e]) < |defs|)
            && (d < |defs| ==> d == Lookup(defs, t[i+1..e]) && NextAt(defs, t, i) == e + 1)
            && (d == |defs| ==> NextAt(defs, t, i) == if t[i] == '\\' then i + 2 else i + 1)
  {
  }

  /** Where no reference crosses the seam the scan does not see what follows. */
  lemma SameStep(defs: seq<Definition>, a: string, b: string, i: nat)
    requires i < |a| && Seamless(defs, a, b, i)
    ensures RefAt(defs, a + b, i) == RefAt(defs, a, i) && NextAt(defs, a + b, i) == NextAt(defs, a, i)
    ensures (a + b)[i..NextAt(defs, a, i)] == a[i..NextAt(defs, a, i)]
  {
    if Find(a, i, '}') < |a| {
      FindAt(a + b, i, '}', Find(a, i, '}'));
    }
  }

  /** A reference crosses the seam at i exactly where a '{' is open and the name from there up to the
      first '}' of the text behind is defined. */
  lemma {:induction false} CrossesAt(defs: seq<Definition>, t: string, u: string, i: nat)
    requires i < |t|
    ensures RefAt(defs, t + u, i) != RefAt(defs, t, i)
       <==> t[i] == '{' && Find(t, i, '}') == |t| && Find(u, 0, '}') < |u|
            && Lookup(defs, Crossing(t, u, i)) < |defs|
  {
    StepCases(defs, t, i);
    StepCases(defs, t + u, i);
    hide Find, Lookup, RefAt, NextAt, Crossing;
    var e := Find(t, i, '}');
    FindConcat(t, u, i, '}');
    if t[i] == '{' {
      if e < |t| {
        Within(t, u, i + 1, e);
      } else {
        Across(t, u, i);
      }
    }
  }

  /** The name that crosses the seam from i on. */
  function Crossing(t: string, u: string, i: nat): string
    requires i < |t|
  {
    t[i+1..] + u[..Find(u, 0, '}')]
  }

  lemma {:induction false} FindConcat(t: string, u: string, i: nat, c: char)
    requires i <= |t|
    ensures Find(t + u, i, c) == if Find(t, i, c) < |t| then Find(t, i, c) else |t| + Find(u, 0, c)
    ensures i < |t| ==> (t + u)[i] == t[i]
    decreases |t| - i
  {
    if i < |t| {
      FindConcat(t, u, i + 1, c);
    } else {
      FindShift(t, u, 0, c);
    }
  }

  lemma {:induction false} FindShift(t: string, u: string, i: nat, c: char)
    requires i <= |u|
    ensures Find(t + u, |t| + i, c) == |t| + Find(u, i, c)
    decreases |u| - i
  {
    if i < |u| { FindShift(t, u, i + 1, c); }
  }

  lemma Within(t: string, u: string, i: nat, j: nat)
    requires i <= j <= |t|
    ensures (t + u)[i..j] == t[i..j]
  {
  }

  lemma Across(t: string, u: string, i: nat)
    requires i < |t|
    ensures (t + u)[i+1..|t|+Find(u, 0, '}')] == Crossing(t, u, i)
  {
  }

  lemma {:induction false} SeamlessIsWhole(defs: seq<Definition>, t: string, u: string, i: nat)
    requires Seamless(defs, t, u, i)
    ensures Whole(defs, t, i)
    decreases |t| - i
  {
    if i < |t| { SeamlessIsWhole(defs, t, u, NextAt(defs, t, i)); }
  }

  lemma SeamlessStep(defs: seq<Definition>, t: string, u: string, i: nat)
    requires Seamless(defs, t, u, i)
    ensures i < |t| ==> NextAt(defs, t, i) <= |t| && Seamless(defs, t, u, NextAt(defs, t, i))
  {
  }

  /** From a closed text no reference can cross. */
  lemma {:induction false} ClosedIsSeamless(defs: seq<Definition>, t: string, u: string, i: nat)
    requires Closed(defs, t, i)
    ensures Seamless(defs, t, u, i)
    decreases |t| - i
  {
    if i < |t| {
      if t[i] == '{' {
        var e := Find(t, i, '}');
        FindAt(t + u, i, '}', e);
        assert (t + u)[i+1..e] == t[i+1..e];
      }
      ClosedIsSeamless(defs, t, u, NextAt(defs, t, i));
    }
  }

  /** Text in front does not matter. */
  lemma StepShift(defs: seq<Definition>, a: string, b: string, i: nat)
    requires i < |b|
    ensures var t, k := a + b, |a| + i;
            && RefAt(defs, t, k) == RefAt(defs, b, i) && NextAt(defs, t, k) == |a| + NextAt(defs, b, i)
            && (NextAt(defs, b, i) <= |b| ==> t[k..NextAt(defs, t, k)] == b[i..NextAt(defs, b, i)])
  {
    RefShift(defs, a, b, i);
    hide RefAt, NextAt;
    if NextAt(defs, b, i) <= |b| { SliceShift(a, b, i, NextAt(defs, b, i)); }
  }

  lemma RefShift(defs: seq<Definition>, a: string, b: string, i: nat)
    requires i < |b|
    ensures RefAt(defs, a + b, |a| + i) == RefAt(defs, b, i)
    ensures NextAt(defs, a + b, |a| + i) == |a| + NextAt(defs, b, i)
  {
    StepCases(defs, b, i);
    StepCases(defs, a + b, |a| + i);
    FindShift(a, b, i, '}');
    hide Find, Lookup, RefAt, NextAt;
    if Find(b, i, '}') < |b| && b[i] == '{' { SliceShift(a, b, i + 1, Find(b, i, '}')); }
  }

  lemma SliceShift(a: string, b: string, i: nat, j: nat)
    requires i <= j <= |b|
    ensures (a + b)[|a|+i..|a|+j] == b[i..j]
  {
  }

  lemma {:induction false} ExpandShift(defs: seq<Definition>, rank: seq<nat>, bound: nat, a: string, b: string,
                                       i: nat, t: string, k: nat)
    requires Ranked(defs, rank) && i <= |b| && RefsBelow(defs, rank, b, i, bound) && Whole(defs, b, i)
    requires t == a + b && k == |a| + i
    ensures RefsBelow(defs, rank, t, k, bound) && Whole(defs, t, k)
    ensures Expand(defs, rank, bound, t, k) == Expand(defs, rank, bound, b, i)
    decreases |b| - i
  {
    hide Expand, RefAt, NextAt, Find, Lookup, RefsBelow, Whole, Ranked, Part;
    if i == |b| {
      ExpandEnd(defs, rank, bound, b);
      ExpandEnd(defs, rank, bound, t);
    } else {
      ExpandByParts(defs, rank, bound, b, i);
      StepShift(defs, a, b, i);
      ExpandShift(defs, rank, bound, a, b, NextAt(defs, b, i), t, NextAt(defs, t, k));
      StepBack(defs, rank, bound, t, k);
      ExpandByParts(defs, rank, bound, t, k);
      SamePart(defs, rank, bound, b, i, t, k);
    }
  }

  /** Where no reference crosses the seam the expansions just add up. */
  lemma {:induction false} ExpandConcat(defs: seq<Definition>, rank: seq<nat>, bound: nat, a: string, b: string, i: nat)
    requires Ranked(defs, rank) && i <= |a| && Seamless(defs, a, b, i) && Whole(defs, b, 0)
    requires RefsBelow(defs, rank, a, i, bound) && RefsBelow(defs, rank, b, 0, bound)
    ensures Whole(defs, a, i) && Whole(defs, a + b, i) && RefsBelow(defs, rank, a + b, i, bound)
    ensures Expand(defs, rank, bound, a + b, i) == Expand(defs, rank, bound, a, i) + Expand(defs, rank, bound, b, 0)
    decreases |a| - i
  {
    SeamlessIsWhole(defs, a, b, i);
    SeamlessStep(defs, a, b, i);
    hide Expand, RefAt, NextAt, Find, Lookup, RefsBelow, Whole, Ranked, Part, Seamless;
    if i == |a| {
      ExpandShift(defs, rank, bound, a, b, 0, a + b, |a|);
      ExpandEnd(defs, rank, bound, a);
      assert "" + Expand(defs, rank, bound, b, 0) == Expand(defs, rank, bound, b, 0);
    } else {
      var t, j := a + b, NextAt(defs, a, i);
      SameStep(defs, a, b, i);
      ExpandByParts(defs, rank, bound, a, i);
      ExpandConcat(defs, rank, bound, a, b, j);
      StepBack(defs, rank, bound, t, i);
      ExpandByParts(defs, rank, bound, t, i);
      SamePart(defs, rank, bound, a, i, t, i);
      Regroup(Part(defs, rank, bound, a, i), Expand(defs, rank, bound, a, j), Expand(defs, rank, bound, b, 0));
    }
  }

  /** A reference expands to the expansion of its definition, the rest following. */
  lemma {:induction false} RefExpands(defs: seq<Definition>, rank: seq<nat>, bound: nat, d: nat, b: string)
    requires Ranked(defs, rank) && d < |defs| && Lookup(defs, defs[d].name) == d && '}' !in defs[d].name
    requires rank[d] < bound && RefsBelow(defs, rank, b, 0, bound) && Whole(defs, b, 0)
    ensures var r := "{" + defs[d].name + "}";
            && RefsBelow(defs, rank, r + b, 0, bound) && Whole(defs, r + b, 0)
            && Expand(defs, rank, bound, r + b, 0)
               == Expand(defs, rank, rank[d], defs[d].expr, 0) + Expand(defs, rank, bound, b, 0)
  {
    hide Expand, RefsBelow, Whole, Ranked, Find, Lookup, RefAt, NextAt;
    var r := "{" + defs[d].name + "}";
    RefThere(defs, d, b);
    ExpandShift(defs, rank, bound, r, b, 0, r + b, |r|);
    RankedSize(defs, rank);
    StepBack(defs, rank, bound, r + b, 0);
    ExpandStep(defs, rank, bound, r + b, 0);
  }

  lemma RankedSize(defs: seq<Definition>, rank: seq<nat>)
    requires Ranked(defs, rank)
    ensures |rank| == |defs|
  {
  }

  lemma RefThere(defs: seq<Definition>, d: nat, b: string)
    requires d < |defs| && Lookup(defs, defs[d].name) == d && '}' !in defs[d].name
    ensures var t := "{" + defs[d].name + "}" + b;
            RefAt(defs, t, 0) == d && NextAt(defs, t, 0) == |defs[d].name| + 2
  {
    var name := defs[d].name;
    var t := "{" + name + "}" + b;
    forall j | 0 <= j < |name| + 1 ensures t[j] != '}' {
      if j > 0 { assert t[j] == name[j-1] && name[j-1] in name; }
    }
    FindAt(t, 0, '}', |name| + 1);
    assert t[1..|name|+1] == name;
  }

  function Before(defs: seq<Definition>, a: string, d: nat, b: string): string
    requires d < |defs|
  {
    a + ("{" + defs[d].name + "}" + b)
  }

  function Inlined(defs: seq<Definition>, a: string, d: nat, b: string): string
    requires d < |defs|
  {
    a + (defs[d].expr + b)
  }

  /** Inlining one reference does not change the expansion, when no reference crosses a seam: neither
      from the text before it, with the reference or with the inlined expression behind, nor from
      that expression into the text that follows. */
  lemma {:induction false} InliningIsInvisible(defs: seq<Definition>, rank: seq<nat>, bound: nat,
                                               a: string, d: nat, b: string)
    requires Ranked(defs, rank) && d < |defs| && Lookup(defs, defs[d].name) == d && '}' !in defs[d].name
    requires rank[d] < bound && Whole(defs, b, 0)
    requires Seamless(defs, a, "{" + defs[d].name + "}" + b, 0)
    requires Seamless(defs, a, defs[d].expr + b, 0) && Seamless(defs, defs[d].expr, b, 0)
    requires RefsBelow(defs, rank, a, 0, bound) && RefsBelow(defs, rank, b, 0, bound)
    ensures var before, after := Before(defs, a, d, b), Inlined(defs, a, d, b);
            && RefsBelow(defs, rank, before, 0, bound) && Whole(defs, before, 0)
            && RefsBelow(defs, rank, after, 0, bound) && Whole(defs, after, 0)
            && Expand(defs, rank, bound, before, 0) == Expand(defs, rank, bound, after, 0)
  {
    var expr := defs[d].expr;
    RefsRaise(defs, rank, expr, 0, rank[d], bound);
    BoundDoesNotMatter(defs, rank, rank[d], bound, expr, 0);
    RefExpands(defs, rank, bound, d, b);
    hide Seamless, RefsBelow, Whole, Ranked, Expand, Lookup;
    ExpandConcat(defs, rank, bound, expr, b, 0);
    ExpandConcat(defs, rank, bound, a, "{" + defs[d].name + "}" + b, 0);
    ExpandConcat(defs, rank, bound, a, expr + b, 0);
  }

  lemma {:induction false} RefsRaise(defs: seq<Definition>, rank: seq<nat>, t: string, i: nat, b: nat, c: nat)
    requires RefsBelow(defs, rank, t, i, b) && b <= c
    ensures RefsBelow(defs, rank, t, i, c)
    decreases |t| - i
  {
    if i < |t| { RefsRaise(defs, rank, t, NextAt(defs, t, i), b, c); }
  }

  const UNCLOSED: seq<Definition> := [Definition("n", "y"), Definition("xy", "z")]

  lemma UnclosedScan()
    ensures Ranked(UNCLOSED, [0, 0]) && !Closed(UNCLOSED, "{x", 0)
    ensures var s := "{x{n}}";
            && RefAt(UNCLOSED, s, 0) == RefAt(UNCLOSED, s, 1) == RefAt(UNCLOSED, s, 5) == 2
            && RefAt(UNCLOSED, s, 2) == 0
            && NextAt(UNCLOSED, s, 0) == 1 && NextAt(UNCLOSED, s, 1) == 2
            && NextAt(UNCLOSED, s, 2) == 5 && NextAt(UNCLOSED, s, 5) == 6
    ensures RefAt(UNCLOSED, "{xy}", 0) == 1 && NextAt(UNCLOSED, "{xy}", 0) == 4
    ensures RefAt(UNCLOSED, "z", 0) == 2 && NextAt(UNCLOSED, "z", 0) == 1
  {
    var s, t := "{x{n}}", "{xy}";
    FindAt(s, 0, '}', 4);
    FindAt(s, 2, '}', 4);
    FindAt(t, 0, '}', 3);
    assert s[1..4] == "x{n" && s[3..4] == "n" && t[1..3] == "xy";
    assert Lookup(UNCLOSED, "x{n") == 2 && Lookup(UNCLOSED, "n") == 0 && Lookup(UNCLOSED, "xy") == 1;
  }

  /** Behind a '{' that is still open, inlining can make a reference that was none:
      with n = y and xy = z, {x{n}} expands to {xy}, but {xy} to z. */
  lemma InliningUnclosed() returns (defs: seq<Definition>, rank: seq<nat>, a: string, before: string, after: string)
    ensures Ranked(defs, rank) && |defs| > 0 && !Closed(defs, a, 0)
    ensures before == Before(defs, a, 0, "}") && after == Inlined(defs, a, 0, "}")
    ensures RefsBelow(defs, rank, before, 0, 1) && Whole(defs, before, 0)
    ensures RefsBelow(defs, rank, after, 0, 1) && Whole(defs, after, 0)
    ensures Expand(defs, rank, 1, before, 0) != Expand(defs, rank, 1, after, 0)
  {
    hide Expand, RefsBelow, Whole, Ranked, RefAt, NextAt, Find, Lookup, Closed;
    defs, rank, a, before, after := UNCLOSED, [0, 0], "{x", "{x{n}}", "{xy}";
    UnclosedScan();
    ExpandEnd(defs, rank, 1, before);
    StepBack(defs, rank, 1, before, 5);
    StepBack(defs, rank, 1, before, 2);
    StepBack(defs, rank, 1, before, 1);
    StepBack(defs, rank, 1, before, 0);
    ExpandStep(defs, rank, 1, before, 0);
    ExpandEnd(defs, rank, 1, after);
    StepBack(defs, rank, 1, after, 0);
    ExpandStep(defs, rank, 1, after, 0);
    ExpandStep(defs, rank, 0, "z", 0);
    ExpandEnd(defs, rank, 0, "z");
    assert Expand(defs, rank, 1, after, 0)[0] == 'z' && Expand(defs, rank, 1, before, 0)[0] == '{';
  }

  // ----- the code

  /** lexer_rule_expand: the expansion of the text is appended to the buffer. */
  method RuleExpand(defs: seq<Definition>, ghost rank: seq<nat>, ghost bound: nat, p: string, db: string)
    returns (out: string)
    requires Ranked(defs, rank) && RefsBelow(defs, rank, p, 0, bound) && Whole(defs, p, 0)
    ensures out == db + Expand(defs, rank, bound, p, 0)
    decreases bound
  {
    hide Expand, RefAt, NextAt, Find, Lookup, Ranked, RefsBelow, Whole;
    out := db;
    var i := 0;
    while i < |p|
      invariant i <= |p| && RefsBelow(defs, rank, p, i, bound) && Whole(defs, p, i)
      invariant out + Expand(defs, rank, bound, p, i) == db + Expand(defs, rank, bound, p, 0)
      decreases |p| - i
    {
      ExpandStep(defs, rank, bound, p, i);
      ghost var was, rest := out, Expand(defs, rank, bound, p, NextAt(defs, p, i));
      ghost var piece := p[i..NextAt(defs, p, i)];
      StepCases(defs, p, i);
      if p[i] == '{' {
        var e := Find(p, i, '}');
        if e < |p| {
          var d := Lookup(defs, p[i+1..e]);
          if d < |defs| {
            out := RuleExpand(defs, rank, rank[d], defs[d].expr, out);
            i := e + 1;
            continue;
          }
        }
      }
      if p[i] == '\\' {
        out := out + [p[i]];
        i := i + 1;
      }
      out := out + [p[i]];
      i := i + 1;
      assert out == was + piece;
      Regroup(was, piece, rest);
    }
    ExpandEnd(defs, rank, bound, p);
  }
}
