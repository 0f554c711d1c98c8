/**
 The macro language of Kconfig files: references $(name) and $(name,arg,...) in a text are
 replaced by what the variable, function or environment variable of that name yields.
 */
module Macro {
  import opened Expr

  datatype Flavor = Simple | Recursive | Append

  /** A variable.  Its value is None while there is no string it could be read from. */
  datatype Var = Var(name: string, value: Option<string>, flavor: Flavor, expCount: nat)

  /** What lies outside: the environment, the shell, and the place in the file. */
  datatype World = World(env: map<string, string>, shell: string -> string, filename: string, lineno: string)

  /** Every error ends the program, except Undefined: then a value is read that is not there. */
  datatype Error =
    | SelfReference(name: string)
    | TooDeep
    | TooManyArguments
    | Unterminated(reference: string)
    | TooFewFor(called: string)
    | TooManyFor(called: string)
    | Raised(message: string)
    | Undefined

  datatype Result<+T> = Ok(value: T) | Err(error: Error)

  const DEPTH := 1000
  const FUNCTION_MAX_ARGS := 16
  const ULONG_MAX := 0xFFFF_FFFF_FFFF_FFFF

  // ---------------------------------------------------------------- text

  /** Where the text of an expansion ends: at its end, or before the first character that
      cannot be part of a token. */
  datatype Stop = AtEnd | AtToken

  predicate TokenChar(c: char) {
    'a' <= c <= 'z' || 'A' <= c <= 'Z' || '0' <= c <= '9' || c == '_' || c == '-' || c == '.' || c == '/'
  }

  predicate Ends(stop: Stop, c: char) {
    stop.AtToken? && !TokenChar(c)
  }

  /** The closing parenthesis that matches nest + 1 opening ones before s. */
  function Close(s: string, nest: nat): (r: Option<nat>)
    ensures r.Some? ==> r.value < |s|
  {
    if s == "" then None
    else if s[0] == ')' && nest == 0 then Some(0)
    else
      var r := Close(s[1..], if s[0] == '(' then nest + 1 else if s[0] == ')' then nest - 1 else nest);
      if r.None? then None else Some(r.value + 1)
  }

  /** Opening minus closing parentheses. */
  function Depth(s: string): int {
    if s == "" then 0 else (if s[0] == '(' then 1 else if s[0] == ')' then -1 else 0) + Depth(s[1..])
  }

  /** The first closing parenthesis before which as many are closed as are opened. */
  lemma {:induction false} CloseMatches(s: string, nest: nat, k: nat)
    ensures Close(s, nest) == Some(k) <==>
              && k < |s| && s[k] == ')' && nest + Depth(s[..k]) == 0
              && (forall j :: 0 <= j < k ==> !(s[j] == ')' && nest + Depth(s[..j]) == 0))
    decreases |s|
  {
    if s != "" {
      var here := if s[0] == '(' then 1 else if s[0] == ')' then -1 else 0;
      if s[0] == ')' && nest == 0 {
        assert s[..0] == "";
      } else {
        if 0 < k {
          CloseMatches(s[1..], nest + here, k - 1);
        }
        assert s[..0] == "";
        forall j | 1 <= j <= |s| ensures Depth(s[..j]) == here + Depth(s[1..][..j - 1]) {
          assert s[..j][1..] == s[1..][..j - 1];
        }
        assert forall j :: 1 <= j < |s| ==> s[j] == s[1..][j - 1];
        if 0 < k && k < |s| && Close(s, nest) != Some(k) && s[k] == ')' && nest + Depth(s[..k]) == 0 {
          var j :| 0 <= j < k - 1 && s[1..][j] == ')' && nest + here + Depth(s[1..][..j]) == 0;
          assert s[j + 1] == ')' && nest + Depth(s[..j + 1]) == 0;
        }
      }
    }
  }

  /** The parts of a clause between the commas that are outside all parentheses. */
  function Split(s: string, nest: int): (r: seq<string>)
    ensures 1 <= |r| && forall t :: t in r ==> |t| <= |s|
  {
    if s == "" then [""]
    else if s[0] == ',' && nest == 0 then [""] + Split(s[1..], nest)
    else
      var r := Split(s[1..], if s[0] == '(' then nest + 1 else if s[0] == ')' then nest - 1 else nest);
      [[s[0]] + r[0]] + r[1..]
  }

  function Join(parts: seq<string>): string {
    if parts == [] then "" else if |parts| == 1 then parts[0] else parts[0] + "," + Join(parts[1..])
  }

  lemma JoinFront(c: char, r: seq<string>)
    requires r != []
    ensures Join([[c] + r[0]] + r[1..]) == [c] + Join(r)
  {
    var f := [[c] + r[0]] + r[1..];
    assert f[1..] == r[1..] && f[0] == [c] + r[0];
    if |r| > 1 {
      JoinUnfold(f);
      JoinUnfold(r);
      Regroup3([c], r[0], ",", Join(r[1..]));
    }
  }

  lemma JoinUnfold(r: seq<string>)
    requires |r| > 1
    ensures Join(r) == r[0] + "," + Join(r[1..])
  {
  }

  lemma Regroup3(a: string, b: string, c: string, d: string)
    ensures a + b + c + d == a + (b + c + d)
  {
  }

  lemma JoinComma(r: seq<string>)
    requires r != []
    ensures Join([""] + r) == "," + Join(r)
  {
    assert ([""] + r)[1..] == r;
    JoinUnfold([""] + r);
    assert "" + "," == ",";
  }

  /** Nothing of a clause is lost by splitting it. */
  lemma {:induction false} SplitJoins(s: string, nest: int)
    ensures Join(Split(s, nest)) == s
  {
    hide Join;
    if s == "" {
      assert Join([""]) == "" by {
        JoinOne("");
      }
    } else {
      var cut := s[0] == ',' && nest == 0;
      var next := if cut then nest else if s[0] == '(' then nest + 1 else if s[0] == ')' then nest - 1 else nest;
      SplitJoins(s[1..], next);
      if cut {
        JoinComma(Split(s[1..], next));
      } else {
        JoinFront(s[0], Split(s[1..], next));
      }
      assert [s[0]] + s[1..] == s;
    }
  }

  lemma JoinOne(t: string)
    ensures Join([t]) == t
  {
  }

  predicate Digits(s: string) {
    s == "" || ('0' <= s[0] <= '9' && Digits(s[1..]))
  }

  function Decimal(s: string): nat
    requires Digits(s)
    decreases |s|
  {
    if s == "" then 0
    else
      DigitsPrefix(s);
      Decimal(s[..|s| - 1]) * 10 + (s[|s| - 1] as nat - '0' as nat)
  }

  lemma {:induction false} DigitsPrefix(s: string)
    requires s != "" && Digits(s)
    ensures Digits(s[..|s| - 1]) && '0' <= s[|s| - 1] <= '9'
  {
    if |s| > 1 {
      DigitsPrefix(s[1..]);
      assert s[..|s| - 1][1..] == s[1..][..|s| - 2];
    }
  }

  function SkipSpace(s: string): (r: string)
    ensures |r| <= |s|
  {
    if s != "" && (s[0] == ' ' || '\t' <= s[0] <= '\r') then SkipSpace(s[1..]) else s
  }

  /** The number that a whole clause is, as strtoul reads it: after white space and a sign,
      of which a minus wraps around; 0 if it is no number. */
  function ArgNumber(s: string): nat {
    var t := SkipSpace(s);
    var signed := t != "" && (t[0] == '-' || t[0] == '+');
    var d := if signed then t[1..] else t;
    if d == "" || !Digits(d) then 0
    else if Decimal(d) > ULONG_MAX then ULONG_MAX
    else if signed && t[0] == '-' then (ULONG_MAX + 1 - Decimal(d)) % (ULONG_MAX + 1)
    else Decimal(d)
  }

  // ---------------------------------------------------------------- built-in functions

  /** Some result if there is a function of that name. */
  function Builtin(name: string, args: seq<string>, w: World): Result<Option<string>> {
    var arity := Arity(name);
    if arity.None? then Ok(None)
    else if |args| < arity.value then Err(TooFewFor(name))
    else if |args| > arity.value then Err(TooManyFor(name))
    else if name == "error-if" && args[0] == "y" then Err(Raised(args[1]))
    else if name == "error-if" then Ok(None)
    else if name == "filename" then Ok(Some(w.filename))
    else if name == "lineno" then Ok(Some(w.lineno))
    else if name == "shell" then Ok(Some(w.shell(args[0])))
    else Ok(Some(""))
  }

  function Arity(name: string): Option<nat> {
    if name == "error-if" || name == "warning-if" then Some(2)
    else if name == "info" || name == "shell" then Some(1)
    else if name == "filename" || name == "lineno" then Some(0)
    else None
  }

  function EnvValue(name: string, w: World): Option<string> {
    if name != "" && name in w.env then Some(w.env[name]) else None
  }

  // ---------------------------------------------------------------- variables

  /** The first variable of that name, or the number of variables. */
  function Lookup(vars: seq<Var>, name: string): (i: nat)
    ensures i <= |vars| && (i < |vars| ==> vars[i].name == name)
    ensures forall j :: 0 <= j < i ==> vars[j].name != name
  {
    if vars == [] || vars[0].name == name then 0 else Lookup(vars[1..], name) + 1
  }

  /** How many more expansions can be started inside each other. */
  function Budget(vars: seq<Var>): nat {
    if vars == [] then 0
    else (if vars[0].expCount <= DEPTH then DEPTH + 1 - vars[0].expCount else 0) + Budget(vars[1..])
  }

  function Entered(vars: seq<Var>, i: nat): (r: seq<Var>)
    requires i < |vars|
  {
    vars[i := vars[i].(expCount := vars[i].expCount + 1)]
  }

  lemma {:induction false} BudgetSpent(vars: seq<Var>, i: nat)
    requires i < |vars| && vars[i].expCount <= DEPTH
    ensures Budget(Entered(vars, i)) < Budget(vars)
  {
    if i == 0 {
      assert Entered(vars, 0)[1..] == vars[1..];
    } else {
      BudgetSpent(vars[1..], i - 1);
      assert Entered(vars, i)[1..] == Entered(vars[1..], i - 1);
    }
  }

  // ---------------------------------------------------------------- expansion

  /** The expansion of s up to where it ends, and the rest of s. */
  function Expand(s: string, stop: Stop, args: seq<string>, vars: seq<Var>, w: World): (r: Result<(string, string)>)
    ensures r.Ok? ==> |r.value.1| <= |s| && (stop.AtEnd? ==> r.value.1 == "")
    decreases Budget(vars), |s|, 1
  {
    if s == "" then Ok(("", ""))
    else if s[0] == '$' then
      var d := Dollar(s[1..], args, vars, w);
      if d.Err? then d else After(d.value.0, Expand(d.value.1, stop, args, vars, w))
    else if Ends(stop, s[0]) then Ok(("", s))
    else After([s[0]], Expand(s[1..], stop, args, vars, w))
  }

  function After(t: string, r: Result<(string, string)>): Result<(string, string)> {
    if r.Err? then r else Ok((t + r.value.0, r.value.1))
  }

  /** What follows a dollar sign: a reference, or else the sign stands for itself. */
  function Dollar(s: string, args: seq<string>, vars: seq<Var>, w: World): (r: Result<(string, string)>)
    ensures r.Ok? ==> |r.value.1| <= |s|
    decreases Budget(vars), |s|, 0
  {
    if s == "" || s[0] != '(' then Ok(("$", s))
    else
      var q := Close(s[1..], 0);
      if q.None? then Err(Unterminated(s[1..]))
      else
        var e := EvalClause(s[1..][..q.value], args, vars, w);
        if e.Err? then Err(e.error) else Ok((e.value, s[1..][q.value + 1..]))
  }

  /** The text between the parentheses of a reference. */
  function EvalClause(clause: string, args: seq<string>, vars: seq<Var>, w: World): Result<string>
    decreases Budget(vars), |clause|, 3
  {
    var n := ArgNumber(clause);
    if 0 < n <= |args| then Ok(args[n - 1])
    else
      var parts := Split(clause, 0);
      if |parts| > FUNCTION_MAX_ARGS + 1 then Err(TooManyArguments)
      else
        var values := ExpandAll(parts, |clause|, args, vars, w);
        if values.Err? then Err(values.error) else Apply(values.value[0], values.value[1..], vars, w)
  }

  function ExpandAll(parts: seq<string>, bound: nat, args: seq<string>, vars: seq<Var>, w: World)
    : (r: Result<seq<string>>)
    requires forall t :: t in parts ==> |t| <= bound
    ensures r.Ok? ==> |r.value| == |parts|
    decreases Budget(vars), bound, 2, |parts|
  {
    if parts == [] then Ok([])
    else
      var e := Expand(parts[0], AtEnd, args, vars, w);
      if e.Err? then Err(e.error)
      else
        var rest := ExpandAll(parts[1..], bound, args, vars, w);
        if rest.Err? then rest else Ok([e.value.0] + rest.value)
  }

  /** A variable, else a function, else an environment variable, else nothing. */
  function Apply(name: string, args: seq<string>, vars: seq<Var>, w: World): Result<string>
    decreases Budget(vars), 0, 1
  {
    var i := Lookup(vars, name);
    if i < |vars| then VariableExpand(i, args, vars, w)
    else
      var f := Builtin(name, args, w);
      if f.Err? then Err(f.error)
      else if f.value.Some? then Ok(f.value.value)
      else if args == [] && EnvValue(name, w).Some? then Ok(EnvValue(name, w).value)
      else Ok("")
  }

  function VariableExpand(i: nat, args: seq<string>, vars: seq<Var>, w: World): Result<string>
    requires i < |vars|
    decreases Budget(vars), 0, 0
  {
    var v := vars[i];
    if args == [] && v.expCount > 0 then Err(SelfReference(v.name))
    else if v.expCount > DEPTH then Err(TooDeep)
    else if v.value.None? then Err(Undefined)
    else if v.flavor.Recursive? then
      BudgetSpent(vars, i);
      var e := Expand(v.value.value, AtEnd, args, Entered(vars, i), w);
      if e.Err? then Err(e.error) else Ok(e.value.0)
    else Ok(v.value.value)
  }

  // ---------------------------------------------------------------- definition

  /** The variables while the value of name is being made: it has none that could be read. */
  function Opened(vars: seq<Var>, name: string, flavor: Flavor): (r: seq<Var>)
    ensures Lookup(vars, name) < |r|
  {
    var i := Lookup(vars, name);
    if i == |vars| then vars + [Var(name, None, if flavor.Append? then Recursive else flavor, 0)]
    else if flavor.Append? then vars
    else vars[i := vars[i].(value := None, flavor := flavor)]
  }

  /** name = value, name := value or name += value. */
  function Added(vars: seq<Var>, name: string, value: string, flavor: Flavor, w: World): Result<seq<Var>> {
    var i := Lookup(vars, name);
    var start := Opened(vars, name, flavor);
    var v := start[i];
    var made := if v.flavor.Simple? then Expand(value, AtEnd, [], start, w) else Ok((value, ""));
    if made.Err? then Err(made.error)
    else if i < |vars| && flavor.Append? then
      if v.value.None? then Err(Undefined)
      else Ok(start[i := v.(value := Some(v.value.value + " " + made.value.0))])
    else Ok(start[i := v.(value := Some(made.value.0))])
  }
}
