/** path_normalize with its symbolic links left aside: every component is taken not to be one. */
module PathNormalize {

  import opened PathComponents
  import opened Basics

  predicate EndsBackslash(c: string) {
    c != "" && c[|c|-1] == '\\'
  }

  /** A drive letter; a separator is put behind it at once. */
  predicate Drive(c: string) {
    |c| == 2 && c[1] == ':'
  }

  /** path_right: the separator before the last name, or -1, which as a size_t is no size at all. */
  function PathRight(s: string): (p: int)
    ensures -1 <= p < |s|
  {
    NameStart(s, SepStart(s, |s|))
  }

  /** The last position before n that is not a separator. */
  function SepStart(s: string, n: nat): (p: int)
    requires n <= |s|
    ensures -1 <= p < n && (p >= 0 ==> s[p] != SEP)
    ensures forall k :: p < k < n ==> s[k] == SEP
  {
    if n == 0 || s[n-1] != SEP then n - 1 else SepStart(s, n - 1)
  }

  /** The last position up to p that is a separator. */
  function NameStart(s: string, p: int): (q: int)
    requires -1 <= p < |s|
    ensures -1 <= q <= p && (q >= 0 ==> s[q] == SEP)
    ensures forall k :: q < k <= p ==> s[k] != SEP
    decreases p + 1
  {
    if p < 0 || s[p] == SEP then p else NameStart(s, p - 1)
  }

  /** What one component does to the output; None when ".." finds no separator to go back to. */
  function Put(out: string, c: string): Option<string> {
    if c == "." then Some(out)
    else if c == DOTDOT then (if PathRight(out) < 0 then None else Some(out[..PathRight(out)]))
    else
      var glue := if out != "" && !EndsSep(out) && !EndsBackslash(out) then "/" else "";
      Some(out + glue + c + (if Drive(c) then "/" else ""))
  }

  function PutAll(out: string, cs: seq<string>): Option<string>
    decreases |cs|
  {
    if cs == [] then Some(out)
    else match Put(out, cs[0])
         case Some(o) => PutAll(o, cs[1..])
         case None => None
  }

  function Normalized(path: string): Option<string> {
    match PutAll(if IsAbs(path) then "/" else "", Components(path))
    case Some(o) => Some(if o == "" then "/" else o)
    case None => None
  }

  /** The same, behind text that is in the buffer already. */
  function NormalizedOnto(db: string, path: string): Option<string> {
    match PutAll(db + (if IsAbs(path) then "/" else ""), Components(path))
    case Some(o) => Some(if o == "" then "/" else o)
    case None => None
  }

  // ----- the text of a component list

  function Render(base: seq<string>): (s: string)
    ensures s != ""
  {
    if base == [] then "/"
    else
      var r, c := Render(base[..|base|-1]), base[|base|-1];
      (if EndsSep(r) then r else r + "/") + c + (if Drive(c) then "/" else "")
  }

  /** The same, with the separator behind a drive letter taken back by "..". */
  function RenderAs(base: seq<string>, popped: bool): string {
    if popped && base != [] && Drive(base[|base|-1]) then Render(base)[..|Render(base)|-1] else Render(base)
  }

  /** Names, of which only the last may end in a backslash. */
  ghost predicate Names(base: seq<string>) {
    && (forall i :: 0 <= i < |base| ==> base[i] != "" && SEP !in base[i] && base[i] != "." && base[i] != DOTDOT)
    && (forall i :: 0 <= i < |base| - 1 ==> !EndsBackslash(base[i]))
  }

  lemma RenderEnd(base: seq<string>)
    requires Names(base)
    ensures EndsSep(Render(base)) <==> base == [] || Drive(base[|base|-1])
    ensures base != [] && !Drive(base[|base|-1]) ==>
              (EndsBackslash(Render(base)) <==> EndsBackslash(base[|base|-1]))
  {
    if base != [] {
      var c := base[|base|-1];
      var s := Render(base);
      if !Drive(c) { assert s[|s|-1] == c[|c|-1]; }
    }
  }

  lemma {:induction false} RenderComponents(base: seq<string>)
    requires Names(base)
    ensures Components(Render(base)) == base && IsAbs(Render(base))
  {
    if base == [] {
      FromSeps("/", 0, 1);
    } else {
      var init, c := base[..|base|-1], base[|base|-1];
      RenderComponents(init);
      Appended(Render(init), c);
      assert base == init + [c];
    }
  }

  lemma Appended(r: string, c: string)
    requires r != "" && c != "" && SEP !in c
    ensures var s := (if EndsSep(r) then r else r + "/") + c + (if Drive(c) then "/" else "");
            Components(s) == Components(r) + [c] && s[0] == r[0]
  {
    var glued := if EndsSep(r) then r else r + "/";
    FromSeps("/", 0, 1);
    ComponentsConcat(r, "/");
    assert Components(r) + [] == Components(r);
    OneComponent(c);
    ComponentsConcat(glued, c);
    ComponentsConcat(glued + c, "/");
    assert Components(glued + c) + [] == Components(glued + c);
    assert glued + c + "" == glued + c;
  }

  /** Text with a name appended behind a separator. */
  lemma PutName(base: seq<string>, popped: bool, c: string)
    requires Names(base) && Names([c]) && (base != [] ==> !EndsBackslash(base[|base|-1]))
    ensures Put(RenderAs(base, popped), c) == Some(RenderAs(base + [c], false))
  {
    RenderEnd(base);
    var r, out := Render(base), RenderAs(base, popped);
    var longer := base + [c];
    assert longer[..|longer|-1] == base && longer[|longer|-1] == c;
    assert [c][0] == c;
    assert out + "" == out;
    if popped && base != [] && Drive(base[|base|-1]) {
      DriveEnd(base);
      assert out[|out|-1] == ':' && out + "/" == r;
    }
  }

  lemma DriveEnd(base: seq<string>)
    requires Names(base) && base != [] && Drive(base[|base|-1])
    ensures var r := Render(base);
            |r| > 2 && r[|r|-1] == SEP && r[|r|-2] == ':' && r == r[..|r|-1] + "/"
  {
  }

  lemma PathRightAt(s: string, q: nat, p: nat)
    requires q < p < |s| && s[q] == SEP && s[p] != SEP
    requires forall k :: q < k <= p ==> s[k] != SEP
    requires forall k :: p < k < |s| ==> s[k] == SEP
    ensures PathRight(s) == q
  {
  }

  lemma PutSlash()
    ensures Put("/", DOTDOT) == None
  {
    assert PathRight("/") == -1;
  }

  /** The text of a list, with a separator for the next name to stand behind. */
  function Glued(base: seq<string>): string {
    if EndsSep(Render(base)) then Render(base) else Render(base) + "/"
  }

  lemma LastGlued(base: seq<string>, popped: bool)
    requires Names(base) && base != []
    ensures var g, c, out := Glued(base[..|base|-1]), base[|base|-1], RenderAs(base, popped);
            EndsSep(g) && (out == g + c || out == g + c + "/")
  {
    var g, c := Glued(base[..|base|-1]), base[|base|-1];
    if popped && Drive(c) {
      DriveEnd(base);
      assert Render(base) == g + c + "/";
    } else if !Drive(c) {
      assert g + c + "" == g + c;
    }
  }

  lemma GluedCut(base: seq<string>)
    requires Names(base)
    ensures Glued(base)[..|Glued(base)|-1] == if base == [] then "" else RenderAs(base, true)
  {
    RenderEnd(base);
    if !EndsSep(Render(base)) {
      assert (Render(base) + "/")[..|Render(base)|] == Render(base);
    }
  }

  /** ".." takes the last name away, and the separator before it. */
  lemma PutDotDot(base: seq<string>, popped: bool)
    requires Names(base)
    ensures base == [] ==> Put(RenderAs(base, popped), DOTDOT) == None
    ensures |base| == 1 ==> Put(RenderAs(base, popped), DOTDOT) == Some("")
    ensures |base| > 1 ==> Put(RenderAs(base, popped), DOTDOT) == Some(RenderAs(base[..|base|-1], true))
  {
    PutSlash();
    if base != [] {
      var init, c := base[..|base|-1], base[|base|-1];
      assert c == base[|init|];
      LastGlued(base, popped);
      GluedCut(init);
      hide Put, PathRight, RenderAs, Render, Glued;
      CutName(Glued(init), c, RenderAs(base, popped));
    }
  }

  lemma CutName(glued: string, c: string, out: string)
    requires EndsSep(glued) && c != "" && SEP !in c && (out == glued + c || out == glued + c + "/")
    ensures Put(out, DOTDOT) == Some(glued[..|glued|-1])
  {
    var q := |glued| - 1;
    forall k | q < k <= q + |c| ensures out[k] != SEP {
      assert out[k] == c[k-q-1] && c[k-q-1] in c;
    }
    PathRightAt(out, q, q + |c|);
    assert out[..q] == glued[..q];
  }

  // ----- which paths are normalized

  predicate OnlyDots(cs: seq<string>) {
    forall i :: 0 <= i < |cs| ==> cs[i] == "."
  }

  /** With the names of base in the output, the components cs go well: no ".." takes away the last name
      unless nothing but dots follows, and no name is put behind one that ends in a backslash. */
  predicate Safe(base: seq<string>, cs: seq<string>)
    decreases |cs|
  {
    cs != [] ==>
      if cs[0] == "." then Safe(base, cs[1..])
      else if cs[0] == DOTDOT then
        base != [] && (|base| == 1 ==> OnlyDots(cs[1..])) && Safe(base[..|base|-1], cs[1..])
      else (base != [] ==> !EndsBackslash(base[|base|-1])) && Safe(base + [cs[0]], cs[1..])
  }

  /** Is the last component other than "." a ".."? */
  predicate LastIsDotDot(cs: seq<string>, otherwise: bool)
    decreases |cs|
  {
    if cs == [] then otherwise
    else LastIsDotDot(cs[1..], if cs[0] == "." then otherwise else cs[0] == DOTDOT)
  }

  predicate Proper(cs: seq<string>) {
    forall i :: 0 <= i < |cs| ==> cs[i] != "" && SEP !in cs[i]
  }

  function RootIfEmpty(o: string): string {
    if o == "" then "/" else o
  }

  lemma {:induction false} DotsChangeNothing(out: string, base: seq<string>, cs: seq<string>, otherwise: bool)
    requires OnlyDots(cs)
    ensures PutAll(out, cs) == Some(out) && Resolve(base, cs) == base && LastIsDotDot(cs, otherwise) == otherwise
    decreases |cs|
  {
    if cs != [] { DotsChangeNothing(out, base, cs[1..], otherwise); }
  }

  /** Safe components end in the text of the reduced list. */
  lemma {:induction false} SafeRun(base: seq<string>, popped: bool, cs: seq<string>)
    requires Names(base) && Proper(cs) && Safe(base, cs)
    ensures var r := PutAll(RenderAs(base, popped), cs);
            && Names(Resolve(base, cs))
            && r.Some? && RootIfEmpty(r.value) == RenderAs(Resolve(base, cs), LastIsDotDot(cs, popped))
    decreases |cs|
  {
    hide RenderAs, Render;
    if cs == [] {
      RenderAsNonempty(base, popped);
    } else {
      var c, rest := cs[0], cs[1..];
      if c == "." {
        SafeRun(base, popped, rest);
      } else if c == DOTDOT {
        PutDotDot(base, popped);
        if |base| == 1 {
          DotsChangeNothing("", [], rest, true);
          assert base[..0] == [];
          RootText();
        } else {
          SafeRun(base[..|base|-1], true, rest);
        }
      } else {
        PutName(base, popped, c);
        SafeRun(base + [c], false, rest);
      }
    }
  }

  lemma {:induction false} RenderAsNonempty(base: seq<string>, popped: bool)
    requires Names(base)
    ensures RenderAs(base, popped) != "" && RenderAs(base, false) == Render(base)
    ensures base != [] && Drive(base[|base|-1]) ==> RenderAs(base, true) != Render(base)
    ensures !(base != [] && Drive(base[|base|-1])) ==> RenderAs(base, popped) == Render(base)
    ensures IsAbs(RenderAs(base, popped)) && Components(RenderAs(base, popped)) == base
  {
    RenderComponents(base);
    if popped && base != [] && Drive(base[|base|-1]) {
      DriveEnd(base);
      DropLastSep(Render(base));
    }
  }

  lemma RootText()
    ensures RenderAs([], true) == "/"
  {
  }

  /** Text that does not start at the root never will. */
  lemma {:induction false} Unrooted(out: string, cs: seq<string>)
    requires out != "" && !IsAbs(out)
    ensures var r := PutAll(out, cs); r.Some? ==> r.value != "" && !IsAbs(r.value)
    decreases |cs|
  {
    if cs != [] && Put(out, cs[0]).Some? {
      Unrooted(Put(out, cs[0]).value, cs[1..]);
    }
  }

  /** Once the root is gone, any further name or ".." spoils the result. */
  lemma {:induction false} AfterTheRoot(cs: seq<string>)
    requires Proper(cs) && !OnlyDots(cs)
    ensures var r := PutAll("", cs); r.Some? ==> r.value != "" && !IsAbs(r.value)
    decreases |cs|
  {
    if cs[0] == "." {
      AfterTheRoot(cs[1..]);
    } else if cs[0] == DOTDOT {
      assert PathRight("") == -1;
    } else {
      var o := Put("", cs[0]).value;
      assert o[0] == cs[0][0] && cs[0][0] in cs[0];
      Unrooted(o, cs[1..]);
    }
  }

  /** A separator, a name, and nothing but separators. */
  lemma LastName(s: string, q: nat, p: nat)
    requires q < p < |s| && s[q] == SEP
    requires forall k :: q < k <= p ==> s[k] != SEP
    requires forall k :: p < k < |s| ==> s[k] == SEP
    ensures From(s, q) == [s[q + 1..p + 1]]
  {
    hide From;
    FromSeps(s, q, q + 1);
    FromName(s, q + 1, p + 1);
    FromSeps(s, p + 1, |s|);
    AtTheEnd(s);
  }

  lemma PathRightComponents(s: string)
    requires PathRight(s) >= 0
    ensures exists c :: Components(s) == Components(s[..PathRight(s)]) + [c]
  {
    var q := PathRight(s);
    LastName(s, q, SepStart(s, |s|));
    hide PathRight, From, Components, IsAbs;
    assert s == s[..q] + s[q..];
    ComponentsConcat(s[..q], s[q..]);
    FromIsSuffix(s, q);
  }

  /** A name appended without a separator between does not add a component. */
  lemma GluedCount(s: string, c: string)
    requires s != "" && !EndsSep(s) && SEP !in c
    ensures |Components(s + c)| == |Components(s)|
  {
    var q := NameStart(s, |s| - 1) + 1;
    var t := s + c;
    forall k | q <= k < |t| ensures t[k] != SEP {
      if k >= |s| { assert t[k] == c[k-|s|] && c[k-|s|] in c; }
    }
    FromName(s, q, |s|);
    FromName(t, q, |t|);
    assert s == s[..q] + s[q..] && t == s[..q] + t[q..];
    ComponentsConcat(s[..q], s[q..]);
    ComponentsConcat(s[..q], t[q..]);
    FromIsSuffix(s, q);
    FromIsSuffix(t, q);
  }

  lemma NameCount(out: string, c: string)
    requires Names([c])
    ensures Put(out, c).Some?
    ensures |Components(Put(out, c).value)| <= |Components(out)| + 1
    ensures out != "" && EndsBackslash(out) ==> |Components(Put(out, c).value)| == |Components(out)|
  {
    assert [c][0] == c;
    var o := Put(out, c).value;
    var glue := if out != "" && !EndsSep(out) && !EndsBackslash(out) then "/" else "";
    var drive := if Drive(c) then "/" else "";
    OneComponent(c);
    FromSeps("/", 0, 1);
    assert Components("") == [];
    ComponentsConcat(out, glue);
    if out == "" || EndsSep(out + glue) {
      ComponentsConcat(out + glue, c);
    } else {
      assert out + "" == out;
      GluedCount(out, c);
    }
    ComponentsConcat(out + glue + c, drive);
  }

  /** Text with too few components keeps too few. */
  lemma {:induction false} Short(out: string, base: seq<string>, cs: seq<string>)
    requires Proper(cs) && |Components(out)| < |base|
    ensures var r := PutAll(out, cs); r.Some? ==> |Components(r.value)| < |Resolve(base, cs)|
    decreases |cs|
  {
    if cs != [] && Put(out, cs[0]).Some? {
      var o := Put(out, cs[0]).value;
      if cs[0] == DOTDOT {
        PathRightComponents(out);
        assert |Components(o)| + 1 == |Components(out)|;
      } else if cs[0] != "." {
        NameCount(out, cs[0]);
      }
      Short(o, Step(base, cs[0]), cs[1..]);
    }
  }

  /** Unsafe components fault, or end in text that is not absolute or has the wrong components. */
  lemma {:induction false} UnsafeRun(base: seq<string>, popped: bool, cs: seq<string>)
    requires Names(base) && Proper(cs) && !Safe(base, cs)
    ensures var r := PutAll(RenderAs(base, popped), cs);
            r.Some? ==> !IsAbs(RootIfEmpty(r.value)) || Components(RootIfEmpty(r.value)) != Resolve(base, cs)
    decreases |cs|
  {
    hide RenderAs, Render;
    var c, rest, out := cs[0], cs[1..], RenderAs(base, popped);
    if c == "." {
      UnsafeRun(base, popped, rest);
    } else if c == DOTDOT {
      PutDotDot(base, popped);
      if |base| == 1 {
        if OnlyDots(rest) { SafeDots(base[..0], rest); }
        AfterTheRoot(rest);
      } else if |base| > 1 {
        UnsafeRun(base[..|base|-1], true, rest);
      }
    } else if base != [] && EndsBackslash(base[|base|-1]) {
      RenderAsNonempty(base, popped);
      RenderEnd(base);
      assert !Drive(base[|base|-1]);
      NameCount(out, c);
      var o := Put(out, c).value;
      Short(o, base + [c], rest);
      FromSeps("/", 0, 1);
    } else {
      PutName(base, popped, c);
      UnsafeRun(base + [c], false, rest);
    }
  }

  lemma {:induction false} SafeDots(base: seq<string>, cs: seq<string>)
    requires OnlyDots(cs)
    ensures Safe(base, cs)
    decreases |cs|
  {
    if cs != [] { SafeDots(base, cs[1..]); }
  }

  /** An absolute path is turned into absolute text for its reduced component list if and only if it
      is safe. */
  lemma NormalizeExact(path: string)
    requires IsAbs(path)
    ensures (var r := Normalized(path);
             r.Some? && IsAbs(r.value) && Components(r.value) == Resolve([], Components(path)))
       <==> Safe([], Components(path))
  {
    var cs := Components(path);
    assert RenderAs([], false) == "/";
    if Safe([], cs) {
      SafeRun([], false, cs);
      RenderAsNonempty(Resolve([], cs), LastIsDotDot(cs, false));
    } else {
      UnsafeRun([], false, cs);
    }
  }

  // ----- relative paths

  lemma RightOfRooted(x: string)
    requires x != "" && !IsAbs(x)
    ensures PathRight("/" + x) == PathRight(x) + 1
  {
    hide SepStart, NameStart;
    var t, p, q := "/" + x, SepStart(x, |x|), PathRight(x);
    assert p >= 0 && forall k :: 0 <= k < |x| ==> t[k + 1] == x[k];
    assert forall k :: q + 1 < k <= p + 1 ==> t[k] == x[k - 1];
    assert forall k :: p + 1 < k < |t| ==> t[k] == x[k - 1];
    PathRightAt(t, q + 1, p + 1);
  }

  /** A component does to relative text what it does to the same text behind a root, until ".." meets
      the first name: then there is nothing to go back to, or the root goes. */
  lemma RootedStep(x: string, c: string)
    requires !IsAbs(x) && c != "" && SEP !in c
    ensures var r, a := Put(x, c), Put("/" + x, c);
            && (r.Some? ==> !IsAbs(r.value) && a == Some("/" + r.value))
            && (r.None? ==> c == DOTDOT && (a == None || a == Some("")))
  {
    PutSlash();
    if c == DOTDOT && x != "" {
      RightOfRooted(x);
      hide PathRight;
      assert PathRight(x) >= 0 ==> ("/" + x)[..PathRight(x) + 1] == "/" + x[..PathRight(x)];
    } else if c != "." && c != DOTDOT {
      assert c[0] in c;
      RootedName(x, c, if Drive(c) then "/" else "");
    } else if c == DOTDOT {
      assert "/" + x == "/";
    }
  }

  lemma RootedName(x: string, c: string, d: string)
    requires !IsAbs(x) && c != "" && c[0] != SEP
    ensures EndsSep("/" + x) == (x == "" || EndsSep(x))
    ensures x != "" ==> EndsBackslash("/" + x) == EndsBackslash(x)
    ensures "/" + x + "" + c + d == "/" + (x + "" + c + d) && "/" + x + "/" + c + d == "/" + (x + "/" + c + d)
    ensures !IsAbs(x + "" + c + d) && (x != "" ==> !IsAbs(x + "/" + c + d))
  {
  }

  lemma {:induction false} RootedRun(x: string, cs: seq<string>)
    requires !IsAbs(x) && Proper(cs)
    ensures var r, a := PutAll(x, cs), PutAll("/" + x, cs);
            && (r.Some? ==> !IsAbs(r.value) && a == Some("/" + r.value))
            && (r.None? && a.Some? ==> !IsAbs(a.value))
    decreases |cs|
  {
    if cs != [] {
      hide Put;
      RootedStep(x, cs[0]);
      if Put(x, cs[0]).Some? {
        RootedRun(Put(x, cs[0]).value, cs[1..]);
      } else if OnlyDots(cs[1..]) {
        DotsChangeNothing("", [], cs[1..], false);
      } else {
        AfterTheRoot(cs[1..]);
      }
    }
  }

  lemma ComponentsBehindRoot(x: string)
    ensures Components("/" + x) == Components(x)
    ensures !IsAbs(x) && x != "" ==> Components(x) != []
  {
    FromSeps("/", 0, 1);
    ComponentsConcat("/", x);
    assert [] + Components(x) == Components(x);
    NoneLeft(x, 0);
  }

  /** A relative path is turned into relative text for its reduced component list if and only if it is
      safe and something of it is left. */
  lemma NormalizeRelativeExact(path: string)
    requires !IsAbs(path)
    ensures (var r := Normalized(path);
             r.Some? && !IsAbs(r.value) && Components(r.value) == Resolve([], Components(path)))
       <==> Safe([], Components(path)) && Resolve([], Components(path)) != []
  {
    var cs := Components(path);
    ComponentsBehindRoot(path);
    NormalizeExact("/" + path);
    RootedRun("", cs);
    assert "/" + "" == "/";
    hide PutAll, Safe, Resolve, From;
    if PutAll("", cs).Some? {
      ComponentsBehindRoot(PutAll("", cs).value);
    }
    ComponentsBehindRoot("");
    assert "/" + "" == "/";
    AtTheEnd("");
  }

  /** A relative path is normalized as if a root were in front, when either result is not lost. */
  lemma {:induction false} RootedResult(path: string)
    requires !IsAbs(path)
    ensures var r, a := Normalized(path), Normalized("/" + path);
            && (r.Some? && !IsAbs(r.value) ==> r.value != "" && a == Some("/" + r.value))
            && (a.Some? && IsAbs(a.value) && a.value != "/" ==> r.Some? && !IsAbs(r.value))
  {
    ComponentsBehindRoot(path);
    RootedRun("", Components(path));
    assert "/" + "" == "/";
  }

  lemma {:induction false} RenderText(base: seq<string>)
    requires Names(base)
    ensures Render(base) == "/" + Join(base) + if base != [] && Drive(base[|base|-1]) then "/" else ""
  {
    if base != [] {
      var init, c := base[..|base|-1], base[|base|-1];
      RenderText(init);
      RenderEnd(init);
      RenderLast(base, init, c);
      JoinLast(init, c);
      assert base == init + [c];
      hide *;
      GlueName(Render(init), init == [], Join(init), init != [] && Drive(init[|init|-1]), c);
    }
  }

  lemma GlueName(r: string, first: bool, j: string, drive: bool, c: string)
    requires r == "/" + j + (if drive then "/" else "") && (EndsSep(r) <==> first || drive)
    requires first ==> j == "" && !drive
    ensures (if EndsSep(r) then r else r + "/") + c == "/" + if first then c else j + "/" + c
  {
  }

  lemma RenderLast(base: seq<string>, init: seq<string>, c: string)
    requires base == init + [c]
    ensures var r := Render(init);
            Render(base) == (if EndsSep(r) then r else r + "/") + c + (if Drive(c) then "/" else "")
  {
    assert base[..|base|-1] == init;
  }

  lemma JoinLast(init: seq<string>, c: string)
    ensures Join(init + [c]) == if init == [] then c else Join(init) + "/" + c
    ensures Join([]) == ""
  {
    if init == [] {
      JoinOne(c);
      assert init + [c] == [c];
    } else {
      JoinBehind(init, c);
    }
  }

  /** Then the text is tidy: the names left with one separator between any two, behind one if the path has a
      root, and before one if a drive letter comes last that ".." has not gone back to. */
  lemma NormalizeText(path: string)
    requires Safe([], Components(path)) && (!IsAbs(path) ==> Resolve([], Components(path)) != [])
    ensures var base := Resolve([], Components(path));
            Normalized(path)
            == Some((if IsAbs(path) then "/" else "") + Join(base)
                    + if base != [] && Drive(base[|base|-1]) && !LastIsDotDot(Components(path), false) then "/"
                      else "")
  {
    hide From, Safe, Resolve, Join, Normalized;
    if IsAbs(path) {
      AbsoluteText(path);
    } else {
      ComponentsBehindRoot(path);
      AbsoluteText("/" + path);
      NormalizeRelativeExact(path);
      RootedResult(path);
      var r := Normalized(path).value;
      assert ("/" + r)[1..] == r;
      var base := Resolve([], Components(path));
      var tail := if Drive(base[|base|-1]) && !LastIsDotDot(Components(path), false) then "/" else "";
      assert ("/" + Join(base) + tail)[1..] == Join(base) + tail;
      assert "" + Join(base) + tail == Join(base) + tail;
    }
  }

  lemma AbsoluteText(path: string)
    requires IsAbs(path) && Safe([], Components(path))
    ensures var base := Resolve([], Components(path));
            Normalized(path)
            == Some("/" + Join(base) + if base != [] && Drive(base[|base|-1]) && !LastIsDotDot(Components(path), false)
                                       then "/" else "")
  {
    var cs := Components(path);
    var base, popped := Resolve([], cs), LastIsDotDot(cs, false);
    assert RenderAs([], false) == "/";
    SafeRun([], false, cs);
    hide Render, Safe, Resolve, From, Join, PutAll;
    RenderText(base);
    RenderAsNonempty(base, popped);
    var o := "/" + Join(base);
    assert (o + "/")[..|o + "/"|-1] == o && o + "" == o;
  }

  // ----- paths on which it goes wrong

  /** A relative path of which nothing is left becomes the root. */
  lemma RelativeLost()
    ensures Normalized("") == Some("/") && Safe([], Components("")) && Resolve([], Components("")) == []
    ensures Normalized(".") == Some("/") && Safe([], Components(".")) && Resolve([], Components(".")) == []
  {
    OneComponent(".");
    hide From;
    AtTheEnd("");
    assert ["."][1..] == [];
    assert PutAll("", ["."]) == PutAll("", ["."][1..]);
    assert Resolve([], ["."]) == Resolve([], ["."][1..]) && Safe([], ["."][1..]);
  }

  lemma BackAndOn(path: string)
    requires path == "/a/../b" || path == "a/../b"
    ensures Components(path) == ["a", DOTDOT, "b"]
  {
    var i := |path| - 6;
    FromSeps(path, 0, i);
    FromName(path, i, i + 1);
    FromSeps(path, i + 1, i + 2);
    FromName(path, i + 2, i + 4);
    FromSeps(path, i + 4, i + 5);
    FromName(path, i + 5, i + 6);
    AtTheEnd(path);
    hide From;
    assert path[i..i+1] == "a" && path[i+2..i+4] == DOTDOT && path[i+5..i+6] == "b";
  }

  /** Going back from the only component takes the root away too: /a/../b becomes b, which is not
      absolute; and from a/../b nothing at all comes. */
  lemma RootLost()
    ensures Normalized("/a/../b") == Some("b") && !IsAbs("b") && !Safe([], Components("/a/../b"))
    ensures Normalized("a/../b") == None
  {
    BackAndOn("/a/../b");
    BackAndOn("a/../b");
    hide From;
    BackRuns(["a", DOTDOT, "b"]);
  }

  lemma BackRuns(cs: seq<string>)
    requires cs == ["a", DOTDOT, "b"]
    ensures PutAll("/", cs) == Some("b") && PutAll("", cs) == None && !Safe([], cs)
  {
    BackSteps();
    hide Put;
    assert cs[1..] == [DOTDOT, "b"] && cs[1..][1..] == ["b"] && cs[1..][1..][1..] == [];
    assert PutAll("/", cs) == PutAll("/a", cs[1..]) == PutAll("", cs[1..][1..]) == PutAll("b", cs[1..][1..][1..]);
    assert PutAll("", cs) == PutAll("a", cs[1..]) == None;
    assert "a"[0] != DOTDOT[0] == "."[0] && "b"[0] != DOTDOT[0] && |"."| != |DOTDOT|;
    assert !OnlyDots(["b"]);
    assert [] + ["a"] == ["a"] && Safe([], cs) ==> Safe(["a"], cs[1..]);
  }

  lemma BackSteps()
    ensures Put("/", "a") == Some("/a") && Put("/a", DOTDOT) == Some("") && Put("", "b") == Some("b")
    ensures Put("", "a") == Some("a") && Put("a", DOTDOT) == None
  {
    PathRightAt("/a", 0, 1);
    assert PathRight("a") == -1;
    hide PathRight;
    assert "a"[0] != DOTDOT[0] == "."[0] && "b"[0] != DOTDOT[0] && |"."| != |DOTDOT|;
    assert "/" + "" + "a" + "" == "/a" && "/a"[..0] == "" && "" + "" + "b" + "" == "b" && "" + "" + "a" + "" == "a";
  }

  lemma {:induction false} SafeNames(base: seq<string>, cs: seq<string>)
    requires Names(base + cs)
    ensures Safe(base, cs) && !LastIsDotDot(cs, false)
    decreases |cs|
  {
    if cs != [] {
      assert base + cs == (base + [cs[0]]) + cs[1..];
      assert (base + cs)[|base|] == cs[0];
      if base != [] { assert (base + cs)[|base|-1] == base[|base|-1]; }
      SafeNames(base + [cs[0]], cs[1..]);
    }
  }

  /** Normalizing a second time changes nothing, except that a drive letter ".." has gone back to gets
      its separator again. */
  lemma NormalizeTwice(path: string)
    requires IsAbs(path) && Safe([], Components(path))
    ensures Normalized(path).Some?
    ensures var base := Resolve([], Components(path));
            var o := Normalized(path).value;
            && Normalized(o).Some? && IsAbs(Normalized(o).value)
            && Components(Normalized(o).value) == base
            && (Normalized(o) == Some(o)
                <==> !(base != [] && Drive(base[|base|-1]) && LastIsDotDot(Components(path), false)))
  {
    var cs := Components(path);
    var base, popped := Resolve([], cs), LastIsDotDot(cs, false);
    assert RenderAs([], false) == "/";
    SafeRun([], false, cs);
    RenderAsNonempty(base, popped);
    RenderAsNonempty(base, false);
    hide RenderAs, Render, PutAll, Resolve, From;
    SecondPass(RenderAs(base, popped), base);
  }

  lemma {:induction false} SecondPass(o: string, base: seq<string>)
    requires Names(base) && IsAbs(o) && Components(o) == base
    ensures Normalized(o) == Some(RenderAs(base, false))
  {
    assert RenderAs([], false) == "/";
    RenderAsNonempty(base, false);
    hide RenderAs, Render, Put, From;
    assert [] + base == base;
    SafeNames([], base);
    ResolvePlain([], base);
    SafeRun([], false, base);
  }

  /** The same for relative paths that stay relative. */
  lemma {:induction false} NormalizeTwiceRelative(path: string)
    requires !IsAbs(path) && Safe([], Components(path)) && Resolve([], Components(path)) != []
    ensures Normalized(path).Some?
    ensures var base := Resolve([], Components(path));
            var o := Normalized(path).value;
            && Normalized(o).Some? && !IsAbs(Normalized(o).value)
            && Components(Normalized(o).value) == base
            && (Normalized(o) == Some(o)
                <==> !(Drive(base[|base|-1]) && LastIsDotDot(Components(path), false)))
  {
    hide Normalized, Safe, Resolve, From;
    ComponentsBehindRoot(path);
    NormalizeRelativeExact(path);
    NormalizeTwice("/" + path);
    RootedResult(path);
    var o := Normalized(path).value;
    var a := Normalized("/" + o).value;
    assert a != "/" by { ComponentsBehindRoot(""); AtTheEnd(""); assert "/" + "" == "/"; }
    RootedResult(o);
    var r := Normalized(o).value;
    ComponentsBehindRoot(r);
    assert ("/" + r)[1..] == r && ("/" + o)[1..] == o;
  }

  /** Back to a drive letter: the second pass puts a separator behind it. */
  lemma DriveChanges()
    ensures IsAbs("/c:/x/..") && Safe([], Components("/c:/x/.."))
    ensures var r := Normalized("/c:/x/..");
            r.Some? && Normalized(r.value) != r
  {
    var path, cs := "/c:/x/..", ["c:", "x", DOTDOT];
    FromSeps(path, 0, 1);
    FromName(path, 1, 3);
    FromSeps(path, 3, 4);
    FromName(path, 4, 5);
    FromSeps(path, 5, 6);
    FromName(path, 6, 8);
    AtTheEnd(path);
    hide From;
    assert path[1..3] == "c:" && path[4..5] == "x" && path[6..8] == DOTDOT;
    assert Components(path) == cs;
    DriveRun(cs);
    NormalizeTwice(path);
  }

  lemma DriveRun(cs: seq<string>)
    requires cs == ["c:", "x", DOTDOT]
    ensures Safe([], cs) && Resolve([], cs) == ["c:"] && LastIsDotDot(cs, false) && Drive("c:")
  {
    assert "c:"[0] == 'c' && "x"[0] == 'x' && DOTDOT[0] == '.' && "."[0] == '.' && |"."| == 1;
    assert [] + ["c:"] == ["c:"] && ["c:"] + ["x"] == ["c:", "x"] && ["c:", "x"][..1] == ["c:"];
    assert cs[1..] == ["x", DOTDOT] && cs[1..][1..] == [DOTDOT] && cs[1..][1..][1..] == [];
    assert Safe(["c:", "x"], [DOTDOT]) && Safe(["c:"], ["x", DOTDOT]);
    assert [DOTDOT][1..] == [] && ["x", DOTDOT][1..] == [DOTDOT];
    assert Resolve(["c:", "x"], [DOTDOT]) == Resolve(["c:"], [DOTDOT][1..]) == ["c:"];
    assert Resolve(["c:"], ["x", DOTDOT]) == Resolve(["c:", "x"], ["x", DOTDOT][1..]) == ["c:"];
    assert LastIsDotDot([DOTDOT], false) && LastIsDotDot(["x", DOTDOT], false);
  }

  // ----- the code

  /** path_right. */
  method Right(s: string) returns (p: int)
    ensures p == PathRight(s)
  {
    p := |s| - 1;
    while p >= 0 && s[p] == SEP
      invariant -1 <= p < |s| && SepStart(s, p + 1) == SepStart(s, |s|)
    {
      p := p - 1;
    }
    ghost var name := p;
    while p >= 0 && s[p] != SEP
      invariant -1 <= p <= name && NameStart(s, p) == NameStart(s, name)
    {
      p := p - 1;
    }
  }

  /** path_normalize into an empty buffer; None once the buffer size has wrapped around. */
  method Normalize(path: string, db0: string) returns (r: Option<string>)
    ensures r == NormalizedOnto(db0, path)
    ensures db0 == "" ==> r == Normalized(path)
  {
    hide Put, PutAll, From;
    var db, i := db0, 0;
    assert db0 == "" ==> db0 + "/" == "/" && db0 + "" == "";
    assert db0 + "" == db0;
    if IsAbs(path) {
      db, i := db + "/", 1;
      FromFirst(path);
    }
    ghost var start := db;
    while i < |path|
      invariant i <= |path| && PutAll(db, From(path, i)) == PutAll(start, Components(path))
      decreases |path| - i
    {
      ghost var i0 := i;
      while i < |path| && path[i] == SEP
        invariant i0 <= i <= |path| && From(path, i) == From(path, i0)
      {
        FromSeps(path, i, i + 1);
        i := i + 1;
      }
      if i < |path| && path[i] == '.' {
        if i + 1 == |path| || path[i+1] == SEP {
          PutStep(db, path, i, i + 1);
          i := i + 1;
          continue;
        }
        if path[i+1] == '.' && (i + 2 == |path| || path[i+2] == SEP) {
          PutStep(db, path, i, i + 2);
          var right := Right(db);
          if right < 0 {
            return None;
          }
          db := db[..right];
          i := i + 2;
          continue;
        }
      }
      if i == |path| {
        break;
      }
      var end := i;
      while end < |path| && path[end] != SEP
        invariant i <= end <= |path| && forall k :: i <= k < end ==> path[k] != SEP
      {
        end := end + 1;
      }
      PutStep(db, path, i, end);
      if |db| > 0 && db[|db|-1] != SEP && db[|db|-1] != '\\' {
        db := db + "/";
      }
      db := db + path[i..end];
      assert db + "" == db;
      if end - i == 2 && path[i+1] == ':' {
        db := db + "/";
      }
      i := end;
    }
    NothingLeft(db, path);
    if |db| == 0 {
      db := "/";
    }
    return Some(db);
  }

  lemma FromFirst(path: string)
    ensures IsAbs(path) ==> From(path, 1) == Components(path)
  {
  }

  lemma NothingLeft(db: string, path: string)
    ensures PutAll(db, From(path, |path|)) == Some(db)
  {
  }

  /** One component of the path, and what it does to the output. */
  lemma PutStep(db: string, path: string, i: nat, end: nat)
    requires i < end <= |path| && (end < |path| ==> path[end] == SEP) && forall k :: i <= k < end ==> path[k] != SEP
    ensures var c := path[i..end];
            && PutAll(db, From(path, i))
               == (match Put(db, c) case Some(o) => PutAll(o, From(path, end)) case None => None)
            && (c == "." <==> end == i + 1 && path[i] == '.')
            && (c == DOTDOT <==> end == i + 2 && path[i] == '.' && path[i+1] == '.')
            && (c == "." ==> Put(db, c) == Some(db))
            && (c == DOTDOT ==> Put(db, c) == if PathRight(db) < 0 then None else Some(db[..PathRight(db)]))
            && (c != "." && c != DOTDOT ==>
                  Put(db, c) == Some((if |db| > 0 && db[|db|-1] != SEP && db[|db|-1] != '\\' then db + "/" else db)
                                     + c + (if Drive(c) then "/" else "")))
  {
    var c := path[i..end];
    FromName(path, i, end);
    assert c[0] == path[i] && (|c| > 1 ==> c[1] == path[i+1]);
    assert db + "" == db;
  }
}
