/**
 The macro expander as it runs: strings are scanned by position, variables count how often
 they are being expanded, and environment variables that were used are remembered.
 */
module Preprocess {
  import opened Expr
  import opened Macro
  import opened MacroLaws

  class Preprocessor {
    const world: World
    var variables: seq<Var>
    /** The environment variables used so far, with their values. */
    var used: seq<(string, string)>

    constructor (world: World)
      ensures this.world == world && variables == [] && used == [] && UsedOk()
    {
      this.world, variables, used := world, [], [];
    }

    /** Every used environment variable is remembered once, with the value it has. */
    ghost predicate UsedOk()
      reads this
    {
      && (forall e :: e in used ==> EnvValue(e.0, world) == Some(e.1))
      && forall i, j :: 0 <= i < j < |used| ==> used[i].0 != used[j].0
    }

    method EnvExpand(name: string) returns (r: Option<string>)
      requires UsedOk()
      modifies this`used
      ensures UsedOk() && old(used) <= used
      ensures r == EnvValue(name, world) && (r.Some? ==> (name, r.value) in used)
    {
      if name == "" {
        return None;
      }
      for i := 0 to |used|
        invariant forall j :: 0 <= j < i ==> used[j].0 != name
      {
        if used[i].0 == name {
          assert used[i] in used;
          return Some(used[i].1);
        }
      }
      if name !in world.env {
        return None;
      }
      r := Some(world.env[name]);
      used := used + [(name, r.value)];
    }

    method FunctionExpand(name: string, args: seq<string>) returns (r: Result<Option<string>>)
      ensures r == Builtin(name, args, world)
    {
      var table := [("error-if", 2), ("filename", 0), ("info", 1), ("lineno", 0), ("shell", 1), ("warning-if", 2)];
      for i := 0 to |table|
        invariant forall j :: 0 <= j < i ==> table[j].0 != name
      {
        if table[i].0 == name {
          if |args| < table[i].1 {
            return Err(TooFewFor(name));
          }
          if |args| > table[i].1 {
            return Err(TooManyFor(name));
          }
          r := Call(name, args);
          return;
        }
      }
      assert table[0].0 != name && table[1].0 != name && table[2].0 != name;
      assert table[3].0 != name && table[4].0 != name && table[5].0 != name;
      r := Ok(None);
    }

    method Call(name: string, args: seq<string>) returns (r: Result<Option<string>>)
      requires Arity(name) == Some(|args|)
      ensures r == Builtin(name, args, world)
    {
      if name == "error-if" {
        r := if args[0] == "y" then Err(Raised(args[1])) else Ok(None);
      } else if name == "filename" {
        r := Ok(Some(world.filename));
      } else if name == "lineno" {
        r := Ok(Some(world.lineno));
      } else if name == "shell" {
        r := Ok(Some(world.shell(args[0])));
      } else {
        r := Ok(Some(""));
      }
    }

    method VariableLookup(name: string) returns (i: nat)
      ensures i == Lookup(variables, name)
    {
      i := 0;
      while i < |variables| && variables[i].name != name
        invariant i <= |variables| && forall j :: 0 <= j < i ==> variables[j].name != name
      {
        i := i + 1;
      }
    }

    /** The expansion of a variable; if it succeeds, all counters are as they were. */
    method VariableExpand(i: nat, args: seq<string>) returns (r: Result<string>)
      requires i < |variables| && UsedOk()
      modifies this
      ensures r == Macro.VariableExpand(i, args, old(variables), world)
      ensures r.Ok? ==> variables == old(variables) && UsedOk() && old(used) <= used
      decreases Budget(variables), 0, 0
    {
      hide Expand, Budget;
      var v := variables[i];
      if args == [] && v.expCount > 0 {
        return Err(SelfReference(v.name));
      }
      if v.expCount > DEPTH {
        return Err(TooDeep);
      }
      if v.value.None? {
        return Err(Undefined);
      }
      BudgetSpent(variables, i);
      variables := variables[i := v.(expCount := v.expCount + 1)];
      if v.flavor == Recursive {
        var e := ExpandString(v.value.value, AtEnd, args);
        if e.Err? {
          return Err(e.error);
        }
        r := Ok(e.value.0);
      } else {
        r := Ok(v.value.value);
      }
      variables := variables[i := v.(expCount := variables[i].expCount - 1)];
      assert variables == old(variables);
    }

    /** The expansion of a text, and the position where it ended. */
    method ExpandString(s: string, stop: Stop, args: seq<string>) returns (r: Result<(string, nat)>)
      requires UsedOk()
      modifies this
      ensures r.Ok? ==> r.value.1 <= |s|
      ensures Expand(s, stop, args, old(variables), world)
              == if r.Err? then Err(r.error) else Ok((r.value.0, s[r.value.1..]))
      ensures r.Ok? ==> variables == old(variables) && UsedOk() && old(used) <= used
      decreases Budget(variables), |s|, 1
    {
      hide Dollar, Budget;
      var out, start, p := "", 0, 0;
      assert s[0..] == s && out + s[0..0] == "";
      AfterNothing(Expand(s, stop, args, variables, world));
      while true
        invariant start <= p <= |s|
        invariant variables == old(variables) && UsedOk() && old(used) <= used
        invariant Expand(s, stop, args, variables, world)
                  == After(out + s[start..p], Expand(s[p..], stop, args, variables, world))
        decreases |s| - p
      {
        assert p < |s| ==> s[p..][0] == s[p] && s[p..][1..] == s[p + 1..];
        if p < |s| && s[p] == '$' {
          var d := ExpandDollar(s, p + 1, args);
          if d.Err? {
            return Err(d.error);
          }
          AfterAfter(out + s[start..p], d.value.0, Expand(s[d.value.1..], stop, args, variables, world));
          out := out + s[start..p] + d.value.0;
          p := d.value.1;
          start := p;
          assert out + s[start..p] == out;
        } else {
          if p == |s| || Ends(stop, s[p]) {
            break;
          }
          AfterAfter(out + s[start..p], [s[p]], Expand(s[p + 1..], stop, args, variables, world));
          assert out + s[start..p + 1] == out + s[start..p] + [s[p]];
          p := p + 1;
        }
      }
      out := out + s[start..p];
      assert out + "" == out;
      r := Ok((out, p));
    }

    /** What follows the dollar sign before position p, and the position after it. */
    method ExpandDollar(s: string, p: nat, args: seq<string>) returns (r: Result<(string, nat)>)
      requires p <= |s| && UsedOk()
      modifies this
      ensures r.Ok? ==> p <= r.value.1 <= |s|
      ensures Dollar(s[p..], args, old(variables), world)
              == if r.Err? then Err(r.error) else Ok((r.value.0, s[r.value.1..]))
      ensures r.Ok? ==> variables == old(variables) && UsedOk() && old(used) <= used
      decreases Budget(variables), |s| - p, 0
    {
      hide Macro.EvalClause, Budget, Close;
      if p == |s| || s[p] != '(' {
        return Ok(("$", p));
      }
      var first := p + 1;
      assert s[p..][1..] == s[first..];
      var q := FindClose(s, first);
      if q == |s| {
        return Err(Unterminated(s[first..]));
      }
      assert s[first..][..q - first] == s[first..q] && s[first..][q - first + 1..] == s[q + 1..];
      var e := EvalClause(s[first..q], args);
      if e.Err? {
        return Err(e.error);
      }
      r := Ok((e.value, q + 1));
    }

    /** The position of the closing parenthesis, or the end of the text. */
    method FindClose(s: string, first: nat) returns (q: nat)
      requires first <= |s|
      ensures first <= q <= |s|
      ensures Close(s[first..], 0) == if q == |s| then None else Some(q - first)
    {
      hide Close;
      q := first;
      var nest: nat := 0;
      ShiftedNothing(Close(s[first..], 0));
      while q < |s| && !(s[q] == ')' && nest == 0)
        invariant first <= q <= |s|
        invariant Close(s[first..], 0) == Shifted(Close(s[q..], nest), q - first)
      {
        CloseStep(s, q, nest);
        if s[q] == '(' {
          nest := nest + 1;
        } else if s[q] == ')' {
          nest := nest - 1;
        }
        q := q + 1;
      }
      CloseEnds(s, q, nest);
    }

    /** The parts of a clause; None if there are too many commas. */
    method SplitClause(clause: string) returns (r: Option<seq<string>>)
      ensures r == if |Split(clause, 0)| > FUNCTION_MAX_ARGS + 1 then None else Some(Split(clause, 0))
    {
      hide Split, Glued;
      var parts: seq<string> := [];
      var prev, p, nest := 0, 0, 0;
      assert clause[0..] == clause && clause[0..0] == "";
      GluedNothing(Split(clause, 0));
      while p < |clause|
        invariant prev <= p <= |clause| && |parts| <= FUNCTION_MAX_ARGS
        invariant Split(clause, 0) == parts + Glued(clause[prev..p], Split(clause[p..], nest))
      {
        SplitStep(clause, prev, p, nest, parts);
        if nest == 0 && clause[p] == ',' {
          if |parts| >= FUNCTION_MAX_ARGS {
            return None;
          }
          parts := parts + [clause[prev..p]];
          prev := p + 1;
        } else if clause[p] == '(' {
          nest := nest + 1;
        } else if clause[p] == ')' {
          nest := nest - 1;
        }
        p := p + 1;
      }
      parts := parts + [clause[prev..]];
      SplitEnds(clause[prev..], nest);
      assert clause[prev..p] == clause[prev..] && clause[p..] == "";
      assert parts == Split(clause, 0);
      r := Some(parts);
    }

    /** The value of the text between the parentheses of a reference. */
    method EvalClause(clause: string, args: seq<string>) returns (r: Result<string>)
      requires UsedOk()
      modifies this
      ensures r == Macro.EvalClause(clause, args, old(variables), world)
      ensures r.Ok? ==> variables == old(variables) && UsedOk() && old(used) <= used
      decreases Budget(variables), |clause|, 3
    {
      hide ArgNumber, Split, Apply, Expand, Budget;
      var n := ArgNumber(clause);
      if 0 < n <= |args| {
        return Ok(args[n - 1]);
      }
      var parts := SplitClause(clause);
      if parts.None? {
        return Err(TooManyArguments);
      }
      var values: seq<string> := [];
      var i := 0;
      assert parts.value[0..] == parts.value;
      AfterAllNothing(ExpandAll(parts.value, |clause|, args, variables, world));
      while i < |parts.value|
        invariant i <= |parts.value| && |values| == i
        invariant variables == old(variables) && UsedOk() && old(used) <= used
        invariant ExpandAll(parts.value, |clause|, args, variables, world)
                  == AfterAll(values, ExpandAll(parts.value[i..], |clause|, args, variables, world))
      {
        assert parts.value[i] in parts.value && parts.value[i..][1..] == parts.value[i + 1..];
        var e := ExpandString(parts.value[i], AtEnd, args);
        if e.Err? {
          return Err(e.error);
        }
        AfterAllStep(values, e.value.0, ExpandAll(parts.value[i + 1..], |clause|, args, variables, world));
        values := values + [e.value.0];
        i := i + 1;
      }
      assert values + [] == values;
      r := ApplyName(values[0], values[1..]);
    }

    /** A variable, else a function, else an environment variable, else nothing. */
    method ApplyName(name: string, args: seq<string>) returns (r: Result<string>)
      requires UsedOk()
      modifies this
      ensures r == Apply(name, args, old(variables), world)
      ensures r.Ok? ==> variables == old(variables) && UsedOk() && old(used) <= used
      decreases Budget(variables), 0, 1
    {
      hide Builtin, Macro.VariableExpand;
      var i := VariableLookup(name);
      if i < |variables| {
        r := VariableExpand(i, args);
        return;
      }
      var f := FunctionExpand(name, args);
      if f.Err? {
        return Err(f.error);
      }
      if f.value.Some? {
        return Ok(f.value.value);
      }
      if args == [] {
        var v := EnvExpand(name);
        if v.Some? {
          return Ok(v.value);
        }
      }
      r := Ok("");
    }

    /** The definition of a variable. */
    method VariableAdd(name: string, value: string, flavor: Flavor) returns (error: Option<Error>)
      requires UsedOk()
      modifies this
      ensures match Added(old(variables), name, value, flavor, world)
              case Err(e) => error == Some(e)
              case Ok(vars) => error == None && variables == vars && UsedOk() && old(used) <= used
    {
      hide Expand, Lookup;
      var i := VariableLookup(name);
      var append := i < |variables| && flavor == Append;
      if i == |variables| {
        variables := variables + [Var(name, None, if flavor == Append then Recursive else flavor, 0)];
      } else if !append {
        variables := variables[i := variables[i].(value := None, flavor := flavor)];
      }
      assert variables == Opened(old(variables), name, flavor);
      var text := value;
      if variables[i].flavor == Simple {
        var e := ExpandString(value, AtEnd, []);
        if e.Err? {
          return Some(e.error);
        }
        text := e.value.0;
      }
      if append {
        if variables[i].value.None? {
          return Some(Undefined);
        }
        text := variables[i].value.value + " " + text;
      }
      variables := variables[i := variables[i].(value := Some(text))];
      error := None;
    }
  }

  function Shifted(r: Option<nat>, k: nat): Option<nat> {
    if r.None? then None else Some(r.value + k)
  }

  lemma ShiftedNothing(r: Option<nat>)
    ensures Shifted(r, 0) == r
  {
  }

  lemma GluedNothing(r: seq<string>)
    requires r != []
    ensures Glued("", r) == r
  {
    assert "" + r[0] == r[0] && [r[0]] + r[1..] == r;
  }

  lemma AfterAllNothing(r: Result<seq<string>>)
    ensures AfterAll([], r) == r
  {
    if r.Ok? {
      assert [] + r.value == r.value;
    }
  }

  /** More text at the front of the first part. */
  function Glued(t: string, r: seq<string>): seq<string>
    requires r != []
  {
    [t + r[0]] + r[1..]
  }

  /** One more character of a clause: its parts are still those found and those to come. */
  lemma SplitStep(clause: string, prev: nat, p: nat, nest: int, parts: seq<string>)
    requires prev <= p < |clause|
    ensures var all := parts + Glued(clause[prev..p], Split(clause[p..], nest));
            if nest == 0 && clause[p] == ',' then
              && all == parts + [clause[prev..p]] + Glued(clause[p + 1..p + 1], Split(clause[p + 1..], nest))
              && |all| > |parts| + 1
            else
              var next := if clause[p] == '(' then nest + 1 else if clause[p] == ')' then nest - 1 else nest;
              all == parts + Glued(clause[prev..p + 1], Split(clause[p + 1..], next))
  {
    hide Split, Glued;
    SplitHead(clause, p, nest);
    var (t, c) := (clause[prev..p], clause[p]);
    if nest == 0 && c == ',' {
      assert clause[p + 1..p + 1] == "";
      GluedComma(t, Split(clause[p + 1..], nest), parts);
    } else {
      assert clause[prev..p + 1] == t + [c];
      GluedChar(t, c, Split(clause[p + 1..], if c == '(' then nest + 1 else if c == ')' then nest - 1 else nest));
    }
  }

  lemma GluedChar(t: string, c: char, r: seq<string>)
    requires r != []
    ensures Glued(t, [[c] + r[0]] + r[1..]) == Glued(t + [c], r)
  {
    assert t + ([c] + r[0]) == t + [c] + r[0];
  }

  lemma GluedComma(t: string, r: seq<string>, parts: seq<string>)
    requires r != []
    ensures parts + Glued(t, [""] + r) == parts + [t] + Glued("", r)
    ensures |parts + [t] + Glued("", r)| > |parts| + 1
  {
    assert t + "" == t && ([""] + r)[1..] == r;
    GluedNothing(r);
  }

  lemma SplitHead(clause: string, p: nat, nest: int)
    requires p < |clause|
    ensures Split(clause[p..], nest)
            == if nest == 0 && clause[p] == ',' then [""] + Split(clause[p + 1..], nest)
               else
                 var next := if clause[p] == '(' then nest + 1 else if clause[p] == ')' then nest - 1 else nest;
                 var r := Split(clause[p + 1..], next);
                 [[clause[p]] + r[0]] + r[1..]
  {
    assert clause[p..][0] == clause[p] && clause[p..][1..] == clause[p + 1..];
  }

  lemma SplitEnds(t: string, nest: int)
    ensures Split("", nest) == [""] && Glued(t, [""]) == [t]
  {
    assert t + "" == t;
  }

  lemma CloseStep(s: string, q: nat, nest: nat)
    requires q < |s| && !(s[q] == ')' && nest == 0)
    ensures Close(s[q..], nest)
            == Shifted(Close(s[q + 1..], if s[q] == '(' then nest + 1 else if s[q] == ')' then nest - 1 else nest), 1)
  {
    assert s[q..][0] == s[q] && s[q..][1..] == s[q + 1..];
  }

  lemma CloseEnds(s: string, q: nat, nest: nat)
    requires q <= |s| && (q < |s| ==> s[q] == ')' && nest == 0)
    ensures Close(s[q..], nest) == if q == |s| then None else Some(0)
  {
  }

  function AfterAll(values: seq<string>, r: Result<seq<string>>): Result<seq<string>> {
    if r.Err? then r else Ok(values + r.value)
  }

  lemma AfterAllStep(values: seq<string>, v: string, r: Result<seq<string>>)
    ensures AfterAll(values, if r.Err? then r else Ok([v] + r.value)) == AfterAll(values + [v], r)
  {
    if r.Ok? {
      assert values + ([v] + r.value) == values + [v] + r.value;
    }
  }
}
