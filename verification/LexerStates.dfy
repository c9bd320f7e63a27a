/** The lexer's start conditions: the table of their names, and the stack of states. */
module LexerStates {
  import opened Basics

  predicate IsAlnum(c: char) { '0' <= c <= '9' || 'A' <= c <= 'Z' || 'a' <= c <= 'z' }

  /** The name in a condition, which may stand in angle brackets with more text behind. */
  function Named(condition: string): string {
    var s := if condition != "" && condition[0] == '<' then condition[1..] else condition;
    s[..Find(s, 0, '>')]
  }

  /** Whether a rule's text begins with a condition: a nonempty name of letters and digits in brackets. */
  ghost predicate HasCondition(expr: string) {
    expr != "" && expr[0] == '<' && Find(expr, 0, '>') < |expr|
    && Named(expr) != "" && forall i :: 0 <= i < |Named(expr)| ==> IsAlnum(Named(expr)[i])
  }

  /** A condition in front of other text is the name in the brackets; without brackets all of it is the name. */
  lemma ConditionIs(n: string, rest: string)
    requires '>' !in n
    ensures Named("<" + n + ">" + rest) == n && (n == "" || n[0] != '<' ==> Named(n) == n)
    ensures HasCondition("<" + n + ">" + rest) <==> n != "" && forall i :: 0 <= i < |n| ==> IsAlnum(n[i])
  {
    var t := "<" + n + ">" + rest;
    var u := n + ">" + rest;
    assert t[1..] == u && u[..|n|] == n && n[..|n|] == n;
    FirstAt(u, |n|);
    FirstAt(n, |n|);
    assert t[|n|+1] == '>';
  }

  lemma FirstAt(s: string, k: nat)
    requires k <= |s| && (k < |s| ==> s[k] == '>') && forall i :: 0 <= i < k ==> s[i] != '>'
    ensures Find(s, 0, '>') == k
  {
  }

  datatype Rule = Rule(expr: string, state: int, mask: bv64)

  const MASK_ALL: bv64 := 0xffff_ffff_ffff_ffff

  ghost predicate Distinct(names: seq<string>) { forall i, j :: 0 <= i < j < |names| ==> names[i] != names[j] }

  // ----- the stack over whole runs

  datatype Op = PushOp(id: int) | PopOp

  /** The current state on top of the saved ones, after some pushes and pops; None if a pop finds nothing saved. */
  function Run(tops: seq<int>, ops: seq<Op>): Option<seq<int>>
    requires tops != []
    decreases |ops|
  {
    if ops == [] then Some(tops)
    else if ops[0].PushOp? then Run([ops[0].id] + tops, ops[1..])
    else if |tops| == 1 then None
    else Run(tops[1..], ops[1..])
  }

  /** Every push is popped again, and with depth more pops to come nothing else is. */
  predicate Nested(ops: seq<Op>, depth: nat)
    decreases |ops|
  {
    if ops == [] then depth == 0
    else if ops[0].PushOp? then Nested(ops[1..], depth + 1)
    else depth > 0 && Nested(ops[1..], depth - 1)
  }

  /** Nested use of the stack never fails and leaves state and stack as they were. */
  lemma {:induction false} NestedRun(above: seq<int>, tops: seq<int>, ops: seq<Op>)
    requires tops != [] && Nested(ops, |above|)
    ensures Run(above + tops, ops) == Some(tops)
    decreases |ops|
  {
    if ops == [] {
      assert above + tops == tops;
    } else if ops[0].PushOp? {
      assert [ops[0].id] + (above + tops) == ([ops[0].id] + above) + tops;
      NestedRun([ops[0].id] + above, tops, ops[1..]);
    } else {
      assert (above + tops)[1..] == above[1..] + tops;
      NestedRun(above[1..], tops, ops[1..]);
    }
  }

  /** The part of the lexer that deals with states. */
  class StateTable {
    var state: int
    var states: seq<string>
    var stateStack: seq<int>
    var rules: seq<Rule>

    /** All state numbers in use have a name, the names are distinct, and the first state is INITIAL. */
    ghost predicate Valid()
      reads this
    {
      && states != [] && states[0] == "INITIAL" && Distinct(states)
      && 0 <= state < |states|
      && (forall i :: 0 <= i < |stateStack| ==> 0 <= stateStack[i] < |states|)
      && (forall i :: 0 <= i < |rules| ==> 0 <= rules[i].state < |states|)
    }

    /** The current state, then the saved ones, latest first. */
    ghost function Tops(): (t: seq<int>)
      reads this
      ensures |t| == |stateStack| + 1
    {
      seq(|stateStack| + 1, i requires 0 <= i <= |stateStack| reads this =>
        if i == 0 then state else stateStack[|stateStack| - i])
    }

    /** lexer_init. */
    constructor ()
      ensures Valid() && Tops() == [0] && states == ["INITIAL"] && rules == []
    {
      state, states, stateStack, rules := 0, ["INITIAL"], [], [];
    }

    /** lexer_state_find. */
    method FindState(condition: string) returns (ret: int)
      requires Valid()
      ensures -1 <= ret < |states|
      ensures ret == -1 <==> Named(condition) !in states
      ensures ret >= 0 ==> states[ret] == Named(condition)
    {
      for i := 0 to |states|
        invariant Named(condition) !in states[..i]
      {
        if states[i] == Named(condition) {
          return i;
        }
      }
      return -1;
    }

    /** lexer_state_parse: the length of the name, 0 if there is no condition. */
    method Parse(name: string) returns (slen: nat)
      ensures slen > 0 <==> HasCondition(name)
      ensures slen > 0 ==> slen == |Named(name)| && name[1..1 + slen] == Named(name)
    {
      if name == "" || name[0] != '<' {
        return 0;
      }
      InBrackets(name);
      var end := Find(name, 0, '>');
      if end == |name| {
        return 0;
      }
      for i := 1 to end
        invariant forall k :: 1 <= k < i ==> IsAlnum(name[k])
      {
        if !IsAlnum(name[i]) {
          assert Named(name)[i - 1] == name[i];
          return 0;
        }
      }
      return end - 1;
    }

    /** lexer_state_new, for a condition: its state, which is made if need be; numbers in use keep their names. */
    method New(name: string) returns (ret: int)
      requires Valid() && HasCondition(name)
      modifies this`states
      ensures Valid() && 0 <= ret < |states| && states[ret] == Named(name)
      ensures states == if Named(name) in old(states) then old(states) else old(states) + [Named(name)]
    {
      ret := FindState(name);
      if ret != -1 {
        return;
      }
      var slen := Parse(name);
      ret := |states|;
      states := states + [name[1..1 + slen]];
    }

    /** lexer_rule_add: a rule belongs to the state its condition names, or else to INITIAL, and has the
        mask of the rule before it. */
    method RuleAdd(expr: string) returns (ret: nat)
      requires Valid()
      modifies this`states, this`rules
      ensures Valid() && ret == |old(rules)| && |rules| == ret + 1 && rules[..ret] == old(rules)
      ensures rules[ret].expr == expr
      ensures rules[ret].mask == if ret == 0 then MASK_ALL else rules[ret - 1].mask
      ensures states[rules[ret].state] == if HasCondition(expr) then Named(expr) else "INITIAL"
      ensures old(states) <= states
    {
      ret := |rules|;
      var id, mask := 0, MASK_ALL;
      if ret != 0 {
        mask := rules[ret - 1].mask;
      }
      var slen := Parse(expr);
      if slen > 0 {
        id := New(expr);
      }
      rules := rules + [Rule(expr, id, mask)];
    }

    /** lexer_state_push; -1 stands for its failing assertion. */
    method Push(condition: string) returns (id: int)
      requires Valid()
      modifies this`state, this`stateStack
      ensures Valid() && (id == -1 <==> Named(condition) !in states)
      ensures id == -1 ==> Tops() == old(Tops())
      ensures id != -1 ==> 0 <= id < |states| && states[id] == Named(condition)
      ensures id != -1 ==> Run(old(Tops()), [PushOp(id)]) == Some(Tops())
    {
      id := FindState(condition);
      if id >= 0 {
        stateStack := stateStack + [state];
        state := id;
        assert Tops() == [id] + old(Tops());
        assert [PushOp(id)][1..] == [];
      }
    }

    /** lexer_state_pop: the state that was current. */
    method Pop() returns (id: int)
      requires Valid() && stateStack != []
      modifies this`state, this`stateStack
      ensures Valid() && id == old(state)
      ensures Run(old(Tops()), [PopOp]) == Some(Tops())
    {
      id := state;
      state := stateStack[|stateStack| - 1];
      stateStack := stateStack[..|stateStack| - 1];
      assert Tops() == old(Tops())[1..];
      assert [PopOp][1..] == [];
    }

    /** lexer_state_top: the current state, or a saved one, or -1. */
    method Top(i: nat) returns (id: int)
      requires Valid()
      ensures id == if i < |Tops()| then Tops()[i] else -1
    {
      if i == 0 {
        return state;
      }
      var sz := |stateStack|;
      if i - 1 >= sz {
        return -1;
      }
      return stateStack[sz - i];
    }
  }

  lemma {:induction false} FindBehind(s: string, i: nat, c: char)
    requires 0 < i <= |s|
    ensures Find(s[1..], i - 1, c) == Find(s, i, c) - 1
    decreases |s| - i
  {
    if i < |s| { FindBehind(s, i + 1, c); }
  }

  lemma {:induction false} InBrackets(name: string)
    requires name != "" && name[0] == '<'
    ensures Find(name[1..], 0, '>') == Find(name, 0, '>') - 1
    ensures Named(name) == name[1..Find(name, 0, '>')]
  {
    FindBehind(name, 1, '>');
  }
}
