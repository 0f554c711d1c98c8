/**
 Laws of the macro language.
 */
module MacroLaws {
  import opened Expr
  import opened Macro
  import opened MacroText

  // ---------------------------------------------------------------- text and concatenation

  /** Text without a dollar sign stays as it is. */
  lemma {:induction false} PlainText(s: string, args: seq<string>, vars: seq<Var>, w: World)
    requires '$' !in s
    ensures Expand(s, AtEnd, args, vars, w) == Ok((s, ""))
  {
    if s != "" {
      PlainText(s[1..], args, vars, w);
      assert [s[0]] + s[1..] == s;
    }
  }

  /** As a token only the characters up to the first that cannot be part of one are taken. */
  lemma {:induction false} PlainToken(s: string, k: nat, args: seq<string>, vars: seq<Var>, w: World)
    requires k <= |s| && '$' !in s[..k]
    requires forall j :: 0 <= j < k ==> TokenChar(s[j])
    requires k < |s| ==> s[k] != '$' && !TokenChar(s[k])
    ensures Expand(s, AtToken, args, vars, w) == Ok((s[..k], s[k..]))
  {
    if k > 0 {
      assert s[..k] == [s[0]] + s[1..][..k - 1] && s[1..][k - 1..] == s[k..];
      PlainToken(s[1..], k - 1, args, vars, w);
    }
  }

  /** A dollar sign that no parenthesis follows stands for itself. */
  lemma LoneDollar(post: string, stop: Stop, args: seq<string>, vars: seq<Var>, w: World)
    requires post == "" || post[0] != '('
    ensures Expand("$" + post, stop, args, vars, w) == After("$", Expand(post, stop, args, vars, w))
  {
    assert ("$" + post)[1..] == post;
  }

  /** A reference that is not closed is an error. */
  lemma UnclosedFails(post: string, stop: Stop, args: seq<string>, vars: seq<Var>, w: World)
    requires forall k :: 0 <= k < |post| && post[k] == ')' ==> Depth(post[..k]) != 0
    ensures Expand("$(" + post, stop, args, vars, w) == Err(Unterminated(post))
  {
    assert ("$(" + post)[1..] == "(" + post && ("(" + post)[1..] == post;
    if Close(post, 0).Some? {
      CloseMatches(post, 0, Close(post, 0).value);
    }
  }

  lemma {:induction false} CloseInFront(s: string, t: string, nest: nat)
    requires Close(s, nest).Some?
    ensures Close(s + t, nest) == Close(s, nest)
  {
    assert (s + t)[0] == s[0] && (s + t)[1..] == s[1..] + t;
    if !(s[0] == ')' && nest == 0) {
      CloseInFront(s[1..], t, if s[0] == '(' then nest + 1 else if s[0] == ')' then nest - 1 else nest);
    }
  }

  /** The last sign of s and the first of t do not make a reference together. */
  predicate Apart(s: string, t: string) {
    s == "" || s[|s| - 1] != '$' || t == "" || t[0] != '('
  }

  lemma DollarReference(s: string, q: nat, args: seq<string>, vars: seq<Var>, w: World)
    requires s != "" && s[0] == '(' && q < |s| - 1 && Close(s[1..], 0) == Some(q)
    ensures Dollar(s, args, vars, w)
            == var e := EvalClause(s[1..q + 1], args, vars, w);
               if e.Err? then Err(e.error) else Ok((e.value, s[q + 2..]))
  {
    hide EvalClause, Close;
    assert s[1..][..q] == s[1..q + 1] && s[1..][q + 1..] == s[q + 2..];
  }

  lemma DollarInFront(s: string, t: string, args: seq<string>, vars: seq<Var>, w: World)
    requires Dollar(s, args, vars, w).Ok? && (s == "" ==> t == "" || t[0] != '(')
    ensures var (e, rest) := Dollar(s, args, vars, w).value;
            && Dollar(s + t, args, vars, w) == Ok((e, rest + t))
            && |rest| <= |s| && rest == s[|s| - |rest|..]
  {
    hide EvalClause, Close;
    if s == "" {
      assert s + t == t;
    } else if s[0] != '(' {
      assert (s + t)[0] == s[0];
    } else {
      var q := Close(s[1..], 0).value;
      CloseInFront(s[1..], t, 0);
      assert (s + t)[1..] == s[1..] + t;
      hide Dollar;
      DollarReference(s, q, args, vars, w);
      DollarReference(s + t, q, args, vars, w);
      assert (s + t)[1..q + 1] == s[1..q + 1] && (s + t)[q + 2..] == s[q + 2..] + t;
    }
  }

  /** Expansion goes piece by piece, wherever a text is cut but between $ and (. */
  lemma {:induction false} ExpandPieces(s: string, t: string, args: seq<string>, vars: seq<Var>, w: World)
    requires Apart(s, t) && Expand(s, AtEnd, args, vars, w).Ok?
    ensures Expand(s + t, AtEnd, args, vars, w)
            == After(Expand(s, AtEnd, args, vars, w).value.0, Expand(t, AtEnd, args, vars, w))
    decreases |s|
  {
    hide Dollar;
    if s == "" {
      assert s + t == t;
      AfterNothing(Expand(t, AtEnd, args, vars, w));
    } else {
      assert (s + t)[0] == s[0] && (s + t)[1..] == s[1..] + t;
      if s[0] == '$' {
        DollarInFront(s[1..], t, args, vars, w);
        var (e, rest) := Dollar(s[1..], args, vars, w).value;
        ExpandPieces(rest, t, args, vars, w);
        AfterAfter(e, Expand(rest, AtEnd, args, vars, w).value.0, Expand(t, AtEnd, args, vars, w));
      } else {
        ExpandPieces(s[1..], t, args, vars, w);
        AfterAfter([s[0]], Expand(s[1..], AtEnd, args, vars, w).value.0, Expand(t, AtEnd, args, vars, w));
      }
    }
  }

  lemma AfterNothing(r: Result<(string, string)>)
    ensures After("", r) == r
  {
    if r.Ok? {
      assert "" + r.value.0 == r.value.0;
    }
  }

  lemma AfterAfter(a: string, b: string, r: Result<(string, string)>)
    ensures After(a, After(b, r)) == After(a + b, r)
  {
    if r.Ok? {
      assert a + (b + r.value.0) == a + b + r.value.0;
    }
  }

  // ---------------------------------------------------------------- references

  /** A name that is read as it stands between the parentheses of a reference. */
  predicate PlainName(name: string) {
    forall j :: 0 <= j < |name| ==> name[j] != '$' && name[j] != '(' && name[j] != ')' && name[j] != ','
  }

  lemma {:induction false} ClosePlain(name: string, post: string)
    requires PlainName(name)
    ensures Close(name + ")" + post, 0) == Some(|name|)
  {
    var s := name + ")" + post;
    if name != "" {
      ClosePlain(name[1..], post);
      assert s[1..] == name[1..] + ")" + post && s[0] == name[0];
    }
  }

  lemma {:induction false} SplitPlain(name: string)
    requires PlainName(name)
    ensures Split(name, 0) == [name]
  {
    if name != "" {
      SplitPlain(name[1..]);
      assert [name[0]] + name[1..] == name;
    }
  }

  /** A clause that is the number of an argument stands for that argument. */
  ghost predicate IsArgument(clause: string, args: seq<string>) {
    exists k :: 0 < k <= |args| && Names(clause, k)
  }

  lemma ArgumentIs(clause: string, k: nat, args: seq<string>, vars: seq<Var>, w: World)
    requires 0 < k <= |args| < ULONG_MAX && Names(clause, k)
    ensures EvalClause(clause, args, vars, w) == Ok(args[k - 1])
  {
    hide ArgNumber, Names, Split;
    ArgNumberExactly(clause, k);
  }

  /** Any other clause is split, and its parts are expanded and looked up. */
  lemma OtherClauseIs(clause: string, args: seq<string>, vars: seq<Var>, w: World)
    requires |args| < ULONG_MAX && !IsArgument(clause, args)
    ensures var parts := Split(clause, 0);
            EvalClause(clause, args, vars, w)
            == if |parts| > FUNCTION_MAX_ARGS + 1 then Err(TooManyArguments)
               else
                 var values := ExpandAll(parts, |clause|, args, vars, w);
                 if values.Err? then Err(values.error) else Apply(values.value[0], values.value[1..], vars, w)
  {
    hide ArgNumber, Names, Split, ExpandAll, Apply;
    if 0 < ArgNumber(clause) <= |args| {
      ArgNumberExactly(clause, ArgNumber(clause));
    }
  }

  /** What a plain name stands for: an argument, or else whatever has that name. */
  ghost function Meaning(name: string, args: seq<string>, vars: seq<Var>, w: World): Result<string> {
    if IsArgument(name, args) then
      var k :| 0 < k <= |args| && Names(name, k);
      Ok(args[k - 1])
    else Apply(name, [], vars, w)
  }

  lemma ClauseIs(name: string, args: seq<string>, vars: seq<Var>, w: World)
    requires PlainName(name) && |args| < ULONG_MAX
    ensures EvalClause(name, args, vars, w) == Meaning(name, args, vars, w)
  {
    hide Apply, Expand, Split, EvalClause, Names;
    if IsArgument(name, args) {
      var k :| 0 < k <= |args| && Names(name, k) && Meaning(name, args, vars, w) == Ok(args[k - 1]);
      ArgumentIs(name, k, args, vars, w);
    } else {
      OtherClauseIs(name, args, vars, w);
      SplitPlain(name);
      assert '$' !in name;
      PlainText(name, args, vars, w);
      assert ExpandAll([name], |name|, args, vars, w) == Ok([name]) by {
        ExpandsAll([name], [name], |name|, args, vars, w);
      }
    }
  }

  lemma {:induction false} ExpandsAll(parts: seq<string>, values: seq<string>, bound: nat, args: seq<string>,
                                      vars: seq<Var>, w: World)
    requires |values| == |parts| && forall t :: t in parts ==> |t| <= bound
    requires forall i :: 0 <= i < |parts| ==> Expand(parts[i], AtEnd, args, vars, w) == Ok((values[i], ""))
    ensures ExpandAll(parts, bound, args, vars, w) == Ok(values)
  {
    hide Expand;
    if parts != [] {
      assert parts[0] in parts;
      ExpandsAll(parts[1..], values[1..], bound, args, vars, w);
      assert [values[0]] + values[1..] == values;
    }
  }

  lemma ReferenceOf(clause: string, post: string, args: seq<string>, vars: seq<Var>, w: World)
    requires Close(clause + (")" + post), 0) == Some(|clause|)
    ensures var r := EvalClause(clause, args, vars, w);
            Expand("$(" + clause + ")" + post, AtEnd, args, vars, w)
            == if r.Err? then Err(r.error) else After(r.value, Expand(post, AtEnd, args, vars, w))
  {
    hide EvalClause, Close;
    var s := "$(" + clause + ")" + post;
    assert s[0] == '$' && s[1..][0] == '(' && s[1..][1..] == clause + (")" + post);
    assert s[1..][1..][..|clause|] == clause && s[1..][1..][|clause| + 1..] == post;
  }

  /** What a reference stands for, in any text that goes on after it. */
  lemma ReferenceIs(name: string, post: string, args: seq<string>, vars: seq<Var>, w: World)
    requires PlainName(name) && |args| < ULONG_MAX
    ensures var r := Meaning(name, args, vars, w);
            Expand("$(" + name + ")" + post, AtEnd, args, vars, w)
            == if r.Err? then Err(r.error) else After(r.value, Expand(post, AtEnd, args, vars, w))
  {
    hide Meaning, EvalClause, Close, Expand;
    ClosePlain(name, post);
    assert name + ")" + post == name + (")" + post);
    ClauseIs(name, args, vars, w);
    ReferenceOf(name, post, args, vars, w);
  }

  /** A call: its parts are expanded, the first is looked up and the others are its arguments. */
  lemma CallIs(parts: seq<string>, values: seq<string>, post: string, args: seq<string>, vars: seq<Var>, w: World)
    requires 0 < |parts| == |values| <= 17 && forall t :: t in parts ==> Closed(t)
    requires forall i :: 0 <= i < |parts| ==> Expand(parts[i], AtEnd, args, vars, w) == Ok((values[i], ""))
    requires |args| < ULONG_MAX && !IsArgument(Join(parts), args)
    ensures var r := Apply(values[0], values[1..], vars, w);
            Expand("$(" + Join(parts) + ")" + post, AtEnd, args, vars, w)
            == if r.Err? then Err(r.error) else After(r.value, Expand(post, AtEnd, args, vars, w))
  {
    hide EvalClause, Close, Closed, Split, Join, IsArgument, Apply, ExpandAll, Expand;
    var clause := Join(parts);
    CloseOfJoin(parts, post);
    SplitOfJoin(parts);
    OtherClauseIs(clause, args, vars, w);
    ExpandsAll(parts, values, |clause|, args, vars, w);
    ReferenceOf(clause, post, args, vars, w);
  }

  /** A call of a recursive variable is the expansion of its text with the arguments of the call,
      also while the variable is being expanded. */
  lemma UserFunctionIs(i: nat, values: seq<string>, vars: seq<Var>, w: World)
    requires i < |vars| && i == Lookup(vars, vars[i].name) && values != []
    requires vars[i].flavor.Recursive? && vars[i].value.Some? && vars[i].expCount <= 1000
    ensures var e := Expand(vars[i].value.value, AtEnd, values, Entered(vars, i), w);
            Apply(vars[i].name, values, vars, w) == if e.Err? then Err(e.error) else Ok(e.value.0)
  {
    hide Expand;
  }

  /** The built-in functions, each with the number of arguments it takes. */
  const FUNCTIONS := map["error-if" := 2, "filename" := 0, "info" := 1, "lineno" := 0, "shell" := 1, "warning-if" := 2]

  /** A name of a function that no variable has calls the function, if the number of its arguments
      is right. */
  lemma FunctionIs(name: string, values: seq<string>, vars: seq<Var>, w: World)
    requires Lookup(vars, name) == |vars| && name in FUNCTIONS
    ensures Apply(name, values, vars, w)
            == if |values| < FUNCTIONS[name] then Err(TooFewFor(name))
               else if |values| > FUNCTIONS[name] then Err(TooManyFor(name))
               else match name
                    case "filename" => Ok(w.filename)
                    case "lineno" => Ok(w.lineno)
                    case "shell" => Ok(w.shell(values[0]))
                    case "error-if" => if values[0] == "y" then Err(Raised(values[1])) else Ok("")
                    case _ => Ok("")
  {
  }

  /** Any other name is that of an environment variable, if there are no arguments, or nothing. */
  lemma UnknownNameIs(name: string, values: seq<string>, vars: seq<Var>, w: World)
    requires Lookup(vars, name) == |vars| && name !in FUNCTIONS
    ensures Apply(name, values, vars, w) == Ok(if values == [] && name != "" && name in w.env then w.env[name] else "")
  {
  }

  /** More than a thousand such expansions inside each other are an error, ... */
  lemma TooDeepFails(i: nat, values: seq<string>, vars: seq<Var>, w: World)
    requires i < |vars| && i == Lookup(vars, vars[i].name) && values != [] && vars[i].expCount > 1000
    ensures Apply(vars[i].name, values, vars, w) == Err(TooDeep)
  {
    hide Expand;
  }

  /** ... and so are more than sixteen commas between the parts of a clause. */
  lemma TooManyFails(parts: seq<string>, post: string, args: seq<string>, vars: seq<Var>, w: World)
    requires |parts| > 17 && forall t :: t in parts ==> Closed(t)
    requires |args| < ULONG_MAX && !IsArgument(Join(parts), args)
    ensures Expand("$(" + Join(parts) + ")" + post, AtEnd, args, vars, w) == Err(TooManyArguments)
  {
    hide EvalClause, Close, Closed, Split, Join, IsArgument, Apply, ExpandAll, Expand;
    CloseOfJoin(parts, post);
    SplitOfJoin(parts);
    OtherClauseIs(Join(parts), args, vars, w);
    ReferenceOf(Join(parts), post, args, vars, w);
  }

  /** Without arguments, the name of a variable stands for that variable. */
  lemma VariableIs(i: nat, args: seq<string>, vars: seq<Var>, w: World)
    requires i < |vars| && i == Lookup(vars, vars[i].name)
    ensures Apply(vars[i].name, args, vars, w) == VariableExpand(i, args, vars, w)
    ensures Meaning(vars[i].name, [], vars, w) == Apply(vars[i].name, [], vars, w)
  {
    hide ArgNumber, VariableExpand;
  }

  /** A variable that expands to a text with a reference to itself ends in an error. */
  lemma SelfReferenceFails(i: nat, pre: string, post: string, vars: seq<Var>, w: World)
    requires i < |vars| && i == Lookup(vars, vars[i].name) && PlainName(vars[i].name)
    requires vars[i].flavor.Recursive? && vars[i].expCount == 0
    requires vars[i].value == Some(pre + ("$(" + vars[i].name + ")" + post))
    requires Expand(pre, AtEnd, [], Entered(vars, i), w).Ok?
    ensures Expand("$(" + vars[i].name + ")", AtEnd, [], vars, w) == Err(SelfReference(vars[i].name))
  {
    hide Expand, Apply, Meaning;
    var name := vars[i].name;
    var ref := "$(" + name + ")" + post;
    LookupEntered(vars, i, name);
    VariableIs(i, [], vars, w);
    VariableIs(i, [], Entered(vars, i), w);
    assert ref[0] == '$';
    ExpandPieces(pre, ref, [], Entered(vars, i), w);
    ReferenceIs(name, post, [], Entered(vars, i), w);
    ReferenceIs(name, "", [], vars, w);
    assert "$(" + name + ")" + "" == "$(" + name + ")";
  }

  lemma {:induction false} LookupEntered(vars: seq<Var>, i: nat, name: string)
    requires i < |vars|
    ensures Lookup(Entered(vars, i), name) == Lookup(vars, name)
  {
    var e := Entered(vars, i);
    if vars[0].name != name {
      if i == 0 {
        assert e[1..] == vars[1..];
      } else {
        assert e[1..] == Entered(vars[1..], i - 1);
        LookupEntered(vars[1..], i - 1, name);
      }
    }
  }

  // ---------------------------------------------------------------- what the counters do

  /** The errors by which an expansion is cut off. */
  predicate Cut<T>(r: Result<T>) {
    r.Err? && (r.error.SelfReference? || r.error.TooDeep? || r.error.Undefined?)
  }

  /** The same variables, but with fewer expansions under way and more values there. */
  predicate Freer(vars: seq<Var>, free: seq<Var>) {
    && |free| <= |vars|
    && (forall j :: |free| <= j < |vars| ==> vars[j].value.None?)
    && forall j :: 0 <= j < |free| ==>
         && free[j].name == vars[j].name && free[j].expCount <= vars[j].expCount
         && (vars[j].value.Some? ==> free[j].value == vars[j].value && free[j].flavor == vars[j].flavor)
  }

  lemma {:induction false} LookupFreer(vars: seq<Var>, free: seq<Var>, name: string)
    requires Freer(vars, free)
    ensures Lookup(vars, name) < |free| ==> Lookup(free, name) == Lookup(vars, name)
    ensures Lookup(vars, name) >= |free| ==> Lookup(free, name) == |free|
  {
    if free != [] && vars[0].name != name {
      LookupFreer(vars[1..], free[1..], name);
    }
  }

  /** The counters, and values that are not there, can cut an expansion off; they never
      change what it yields. */
  lemma {:induction false} CountersOnlyCut(s: string, stop: Stop, args: seq<string>, vars: seq<Var>, free: seq<Var>,
                                           w: World)
    requires Freer(vars, free)
    ensures Cut(Expand(s, stop, args, vars, w)) || Expand(s, stop, args, vars, w) == Expand(s, stop, args, free, w)
    decreases Budget(vars), |s|, 1
  {
    hide Dollar;
    if s != "" && s[0] == '$' {
      DollarOnlyCut(s[1..], args, vars, free, w);
      var d := Dollar(s[1..], args, vars, w);
      if d.Ok? {
        CountersOnlyCut(d.value.1, stop, args, vars, free, w);
      }
    } else if s != "" && !Ends(stop, s[0]) {
      CountersOnlyCut(s[1..], stop, args, vars, free, w);
    }
  }

  lemma {:induction false} DollarOnlyCut(s: string, args: seq<string>, vars: seq<Var>, free: seq<Var>, w: World)
    requires Freer(vars, free)
    ensures Cut(Dollar(s, args, vars, w)) || Dollar(s, args, vars, w) == Dollar(s, args, free, w)
    decreases Budget(vars), |s|, 0
  {
    hide EvalClause;
    if s != "" && s[0] == '(' && Close(s[1..], 0).Some? {
      ClauseOnlyCut(s[1..][..Close(s[1..], 0).value], args, vars, free, w);
    }
  }

  lemma {:induction false} ClauseOnlyCut(clause: string, args: seq<string>, vars: seq<Var>, free: seq<Var>, w: World)
    requires Freer(vars, free)
    ensures Cut(EvalClause(clause, args, vars, w))
            || EvalClause(clause, args, vars, w) == EvalClause(clause, args, free, w)
    decreases Budget(vars), |clause|, 3
  {
    hide ExpandAll, Apply, Split, ArgNumber;
    var parts := Split(clause, 0);
    AllOnlyCut(parts, |clause|, args, vars, free, w);
    var values := ExpandAll(parts, |clause|, args, vars, w);
    if values.Ok? {
      ApplyOnlyCut(values.value[0], values.value[1..], vars, free, w);
    }
  }

  lemma {:induction false} AllOnlyCut(parts: seq<string>, bound: nat, args: seq<string>, vars: seq<Var>,
                                      free: seq<Var>, w: World)
    requires Freer(vars, free) && forall t :: t in parts ==> |t| <= bound
    ensures Cut(ExpandAll(parts, bound, args, vars, w))
            || ExpandAll(parts, bound, args, vars, w) == ExpandAll(parts, bound, args, free, w)
    decreases Budget(vars), bound, 2, |parts|
  {
    hide Expand;
    if parts != [] {
      CountersOnlyCut(parts[0], AtEnd, args, vars, free, w);
      AllOnlyCut(parts[1..], bound, args, vars, free, w);
    }
  }

  lemma {:induction false} ApplyOnlyCut(name: string, args: seq<string>, vars: seq<Var>, free: seq<Var>, w: World)
    requires Freer(vars, free)
    ensures Cut(Apply(name, args, vars, w)) || Apply(name, args, vars, w) == Apply(name, args, free, w)
    decreases Budget(vars), 0, 0
  {
    hide Expand, Builtin;
    LookupFreer(vars, free, name);
    var i := Lookup(vars, name);
    if i < |free| {
      var v := vars[i];
      if !(args == [] && v.expCount > 0) && v.expCount <= DEPTH && v.value.Some? && v.flavor.Recursive? {
        BudgetSpent(vars, i);
        CountersOnlyCut(v.value.value, AtEnd, args, Entered(vars, i), Entered(free, i), w);
      }
    }
  }

  // ---------------------------------------------------------------- definitions

  lemma OpenedFreer(vars: seq<Var>, name: string, flavor: Flavor)
    ensures Freer(Opened(vars, name, flavor), vars)
  {
  }

  /** A := definition that succeeds gives the variable what its text expands to before it; from
      then on a reference to it yields that, whatever becomes of other variables. */
  lemma SimpleDefinition(vars: seq<Var>, name: string, value: string, w: World, later: seq<Var>, post: string)
    requires Added(vars, name, value, Simple, w).Ok? && PlainName(name)
    requires var i := Lookup(vars, name);
             && i < |later| && Lookup(later, name) == i && later[i].expCount == 0
             && later[i].value == Added(vars, name, value, Simple, w).value[i].value && later[i].flavor == Simple
    ensures var t := Expand(value, AtEnd, [], vars, w);
            && t.Ok?
            && Expand("$(" + name + ")" + post, AtEnd, [], later, w)
               == After(t.value.0, Expand(post, AtEnd, [], later, w))
  {
    hide Expand, Apply, Meaning;
    VariableIs(Lookup(vars, name), [], later, w);
    OpenedFreer(vars, name, Simple);
    CountersOnlyCut(value, AtEnd, [], Opened(vars, name, Simple), vars, w);
    ReferenceIs(name, post, [], later, w);
  }

  /** A definition that succeeds leaves every other variable as it was; the variable it makes, or
      makes anew, has the flavor of the definition, and += makes a new one recursive. */
  lemma DefinitionKeepsOthers(vars: seq<Var>, name: string, value: string, flavor: Flavor, w: World)
    requires Added(vars, name, value, flavor, w).Ok?
    ensures var (i, o) := (Lookup(vars, name), Added(vars, name, value, flavor, w).value);
            && |o| == (if i < |vars| then |vars| else |vars| + 1) && Lookup(o, name) == i
            && (forall j :: 0 <= j < |vars| && j != i ==> o[j] == vars[j])
            && o[i].name == name && o[i].expCount == (if i < |vars| then vars[i].expCount else 0)
            && o[i].flavor == (if !flavor.Append? then flavor else if i < |vars| then vars[i].flavor else Recursive)
  {
    hide Expand;
    LookupFirst(Added(vars, name, value, flavor, w).value, name, Lookup(vars, name));
  }

  /** A = definition stores its text as it is, whatever is in it. */
  lemma RecursiveDefinition(vars: seq<Var>, name: string, value: string, w: World)
    ensures var r := Added(vars, name, value, Recursive, w);
            r.Ok? && r.value[Lookup(vars, name)].value == Some(value)
  {
    hide Expand;
  }

  /** A reference to such a variable is the expansion of the text with the variables as they are
      at the reference, unless that is cut off because the variable is being expanded. */
  lemma RecursiveReference(i: nat, post: string, later: seq<Var>, w: World)
    requires i < |later| && Lookup(later, later[i].name) == i && PlainName(later[i].name)
    requires later[i].flavor.Recursive? && later[i].value.Some? && later[i].expCount == 0
    ensures var r := Expand("$(" + later[i].name + ")" + post, AtEnd, [], later, w);
            var e := Expand(later[i].value.value, AtEnd, [], later, w);
            || Cut(Expand(later[i].value.value, AtEnd, [], Entered(later, i), w))
            || r == if e.Err? then Err(e.error) else After(e.value.0, Expand(post, AtEnd, [], later, w))
  {
    hide Expand, Apply, Meaning;
    VariableIs(i, [], later, w);
    ReferenceIs(later[i].name, post, [], later, w);
    CountersOnlyCut(later[i].value.value, AtEnd, [], Entered(later, i), later, w);
  }

  /** A := definition whose text refers to the variable itself reads a value that is not there:
      the old value is already released, and a new variable has none yet. */
  lemma SimpleSelfReference(vars: seq<Var>, name: string, post: string, w: World)
    requires PlainName(name)
    requires var i := Lookup(vars, name); i < |vars| ==> vars[i].expCount == 0
    ensures Added(vars, name, "$(" + name + ")" + post, Simple, w) == Err(Undefined)
  {
    hide Expand, Apply, Meaning;
    var (i, o) := (Lookup(vars, name), Opened(vars, name, Simple));
    assert Lookup(o, name) == i by {
      LookupFirst(o, name, i);
    }
    VariableIs(i, [], o, w);
    ReferenceIs(name, post, [], o, w);
  }

  lemma {:induction false} LookupFirst(vars: seq<Var>, name: string, i: nat)
    requires i < |vars| && vars[i].name == name && forall j :: 0 <= j < i ==> vars[j].name != name
    ensures Lookup(vars, name) == i
  {
    if i > 0 {
      LookupFirst(vars[1..], name, i - 1);
    }
  }

  /** After += a recursive variable expands to what both of its parts expand to, with a space
      between them: no reference can reach across. */
  lemma AppendedParts(x: string, y: string, args: seq<string>, vars: seq<Var>, w: World)
    requires Expand(x, AtEnd, args, vars, w).Ok?
    ensures Expand(x + " " + y, AtEnd, args, vars, w)
            == After(Expand(x, AtEnd, args, vars, w).value.0 + " ", Expand(y, AtEnd, args, vars, w))
  {
    ExpandPieces(x, " " + y, args, vars, w);
    assert (" " + y)[1..] == y && x + (" " + y) == x + " " + y;
    AfterAfter(Expand(x, AtEnd, args, vars, w).value.0, " ", Expand(y, AtEnd, args, vars, w));
  }

  /** += keeps the flavor of a variable: a simple one gets the expansion, any other the text. */
  lemma AppendedValue(vars: seq<Var>, name: string, value: string, w: World)
    requires var i := Lookup(vars, name); i < |vars| && vars[i].value.Some?
    ensures var (i, r) := (Lookup(vars, name), Added(vars, name, value, Append, w));
            var v := vars[i];
            if v.flavor.Simple? then
              var t := Expand(value, AtEnd, [], vars, w);
              r == if t.Err? then Err(t.error) else Ok(vars[i := v.(value := Some(v.value.value + " " + t.value.0))])
            else
              r == Ok(vars[i := v.(value := Some(v.value.value + " " + value))])
  {
    hide Expand;
  }
}
