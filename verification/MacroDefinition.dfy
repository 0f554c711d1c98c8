/**
 When exactly a := definition is well defined: its text must not come to ask for the variable
 that is being defined, whose old value is already released and whose new one is not there.
 */
module MacroDefinition {
  import opened Expr
  import opened Macro
  import opened MacroLaws

  // ---------------------------------------------------------------- asking for a variable

  /** The expansion of s comes to apply name, directly or inside other variables, before it
      ends or fails otherwise; if bare, only applications without arguments count. */
  predicate Asks(s: string, stop: Stop, args: seq<string>, vars: seq<Var>, w: World, name: string, bare: bool)
    decreases Budget(vars), |s|, 1
  {
    s != "" &&
    if s[0] == '$' then
      var d := Dollar(s[1..], args, vars, w);
      DollarAsks(s[1..], args, vars, w, name, bare) || (d.Ok? && Asks(d.value.1, stop, args, vars, w, name, bare))
    else !Ends(stop, s[0]) && Asks(s[1..], stop, args, vars, w, name, bare)
  }

  predicate DollarAsks(s: string, args: seq<string>, vars: seq<Var>, w: World, name: string, bare: bool)
    decreases Budget(vars), |s|, 0
  {
    && s != "" && s[0] == '(' && Close(s[1..], 0).Some?
    && ClauseAsks(s[1..][..Close(s[1..], 0).value], args, vars, w, name, bare)
  }

  predicate ClauseAsks(clause: string, args: seq<string>, vars: seq<Var>, w: World, name: string, bare: bool)
    decreases Budget(vars), |clause|, 3
  {
    var parts := Split(clause, 0);
    && !(0 < ArgNumber(clause) <= |args|) && |parts| <= FUNCTION_MAX_ARGS + 1
    && (|| AllAsk(parts, |clause|, args, vars, w, name, bare)
        || (var values := ExpandAll(parts, |clause|, args, vars, w);
            values.Ok? && ApplyAsks(values.value[0], values.value[1..], vars, w, name, bare)))
  }

  predicate AllAsk(parts: seq<string>, bound: nat, args: seq<string>, vars: seq<Var>, w: World,
                   name: string, bare: bool)
    requires forall t :: t in parts ==> |t| <= bound
    decreases Budget(vars), bound, 2, |parts|
  {
    parts != [] &&
    (|| Asks(parts[0], AtEnd, args, vars, w, name, bare)
     || (Expand(parts[0], AtEnd, args, vars, w).Ok? && AllAsk(parts[1..], bound, args, vars, w, name, bare)))
  }

  predicate ApplyAsks(applied: string, args: seq<string>, vars: seq<Var>, w: World, name: string, bare: bool)
    decreases Budget(vars), 0, 1
  {
    || (applied == name && (bare ==> args == []))
    || (var i := Lookup(vars, applied); i < |vars| && VariableAsks(i, args, vars, w, name, bare))
  }

  predicate VariableAsks(i: nat, args: seq<string>, vars: seq<Var>, w: World, name: string, bare: bool)
    requires i < |vars|
    decreases Budget(vars), 0, 0
  {
    var v := vars[i];
    if (args == [] && v.expCount > 0) || v.expCount > DEPTH || v.value.None? || !v.flavor.Recursive? then false
    else
      BudgetSpent(vars, i);
      Asks(v.value.value, AtEnd, args, Entered(vars, i), w, name, bare)
  }

  // ---------------------------------------------------------------- asking is what fails

  /** o is vars with name having no value that could be read; every other value is there. */
  predicate Without(vars: seq<Var>, o: seq<Var>, name: string) {
    var i := Lookup(vars, name);
    && |o| == (if i < |vars| then |vars| else |vars| + 1)
    && o[i].name == name && o[i].value.None? && o[i].expCount == 0
    && forall j :: 0 <= j < |vars| && j != i ==> o[j] == vars[j] && vars[j].value.Some?
  }

  lemma LookupWithout(vars: seq<Var>, o: seq<Var>, name: string, other: string)
    requires Without(vars, o, name)
    ensures Lookup(o, name) == Lookup(vars, name)
    ensures other != name ==>
              Lookup(o, other) == if Lookup(vars, other) < |vars| then Lookup(vars, other) else |o|
  {
    var i := Lookup(vars, name);
    forall j | 0 <= j < |vars| ensures o[j].name == vars[j].name {
      assert j != i ==> o[j] == vars[j];
    }
    hide Lookup;
    LookupFirst(o, name, i);
    var j := Lookup(vars, other);
    if other != name && j < |vars| {
      LookupFirst(o, other, j);
    }
  }

  lemma EnteredWithout(vars: seq<Var>, o: seq<Var>, name: string, i: nat)
    requires Without(vars, o, name) && i < |vars| && i != Lookup(vars, name)
    ensures Without(Entered(vars, i), Entered(o, i), name)
  {
    LookupEntered(vars, i, name);
  }

  /** Without the value, an expansion that asks for it fails, and any other goes as before. */
  lemma {:induction false} AskingFails(s: string, stop: Stop, args: seq<string>, vars: seq<Var>, o: seq<Var>, w: World,
                                       name: string)
    requires Without(vars, o, name)
    ensures Expand(s, stop, args, o, w)
            == if Asks(s, stop, args, vars, w, name, false) then Err(Undefined) else Expand(s, stop, args, vars, w)
    ensures !Asks(s, stop, args, vars, w, name, false) ==> Expand(s, stop, args, vars, w) != Err(Undefined)
    decreases Budget(vars), |s|, 1
  {
    hide Dollar, DollarAsks, Without;
    if s != "" && s[0] == '$' {
      DollarAskingFails(s[1..], args, vars, o, w, name);
      var d := Dollar(s[1..], args, vars, w);
      if d.Ok? {
        AskingFails(d.value.1, stop, args, vars, o, w, name);
      }
    } else if s != "" && !Ends(stop, s[0]) {
      AskingFails(s[1..], stop, args, vars, o, w, name);
    }
  }

  lemma {:induction false} DollarAskingFails(s: string, args: seq<string>, vars: seq<Var>, o: seq<Var>, w: World,
                                             name: string)
    requires Without(vars, o, name)
    ensures Dollar(s, args, o, w)
            == if DollarAsks(s, args, vars, w, name, false) then Err(Undefined) else Dollar(s, args, vars, w)
    ensures !DollarAsks(s, args, vars, w, name, false) ==> Dollar(s, args, vars, w) != Err(Undefined)
    decreases Budget(vars), |s|, 0
  {
    hide EvalClause, ClauseAsks, Without;
    if s != "" && s[0] == '(' && Close(s[1..], 0).Some? {
      ClauseAskingFails(s[1..][..Close(s[1..], 0).value], args, vars, o, w, name);
    }
  }

  lemma {:induction false} ClauseAskingFails(clause: string, args: seq<string>, vars: seq<Var>, o: seq<Var>, w: World,
                                             name: string)
    requires Without(vars, o, name)
    ensures EvalClause(clause, args, o, w)
            == (if ClauseAsks(clause, args, vars, w, name, false) then Err(Undefined)
                else EvalClause(clause, args, vars, w))
    ensures !ClauseAsks(clause, args, vars, w, name, false) ==> EvalClause(clause, args, vars, w) != Err(Undefined)
    decreases Budget(vars), |clause|, 3
  {
    hide ExpandAll, AllAsk, Apply, ApplyAsks, Split, ArgNumber, Without;
    var parts := Split(clause, 0);
    AllAskingFails(parts, |clause|, args, vars, o, w, name);
    var values := ExpandAll(parts, |clause|, args, vars, w);
    if values.Ok? {
      ApplyAskingFails(values.value[0], values.value[1..], vars, o, w, name);
    }
  }

  lemma {:induction false} AllAskingFails(parts: seq<string>, bound: nat, args: seq<string>, vars: seq<Var>,
                                          o: seq<Var>, w: World, name: string)
    requires Without(vars, o, name) && forall t :: t in parts ==> |t| <= bound
    ensures ExpandAll(parts, bound, args, o, w)
            == if AllAsk(parts, bound, args, vars, w, name, false) then Err(Undefined)
               else ExpandAll(parts, bound, args, vars, w)
    ensures !AllAsk(parts, bound, args, vars, w, name, false) ==>
              ExpandAll(parts, bound, args, vars, w) != Err(Undefined)
    decreases Budget(vars), bound, 2, |parts|
  {
    hide Expand, Asks, Without;
    if parts != [] {
      AskingFails(parts[0], AtEnd, args, vars, o, w, name);
      AllAskingFails(parts[1..], bound, args, vars, o, w, name);
    }
  }

  lemma {:induction false} ApplyAskingFails(applied: string, args: seq<string>, vars: seq<Var>, o: seq<Var>, w: World,
                                            name: string)
    requires Without(vars, o, name)
    ensures Apply(applied, args, o, w)
            == if ApplyAsks(applied, args, vars, w, name, false) then Err(Undefined) else Apply(applied, args, vars, w)
    ensures !ApplyAsks(applied, args, vars, w, name, false) ==> Apply(applied, args, vars, w) != Err(Undefined)
    decreases Budget(vars), 0, 1
  {
    hide Expand, Asks;
    LookupWithout(vars, o, name, applied);
    var i := Lookup(vars, applied);
    if applied != name && i < |vars| {
      assert o[i] == vars[i] && vars[i].value.Some?;
      if !(args == [] && vars[i].expCount > 0) && vars[i].expCount <= DEPTH && vars[i].flavor.Recursive? {
        BudgetSpent(vars, i);
        EnteredWithout(vars, o, name, i);
        AskingFails(vars[i].value.value, AtEnd, args, Entered(vars, i), Entered(o, i), w, name);
      }
    }
  }

  // ---------------------------------------------------------------- := definitions

  /** A := definition reads a value that is not there exactly if its text, expanded with the
      variables as they were before, comes to ask for the variable itself; otherwise the variable
      gets what the text expands to with the variables as they were, or that expansion's error. */
  lemma SimpleDefinitionExactly(vars: seq<Var>, name: string, value: string, w: World)
    requires var i := Lookup(vars, name); i < |vars| ==> vars[i].expCount == 0
    requires forall j :: 0 <= j < |vars| && j != Lookup(vars, name) ==> vars[j].value.Some?
    ensures var (i, r) := (Lookup(vars, name), Added(vars, name, value, Simple, w));
            && (r == Err(Undefined) <==> Asks(value, AtEnd, [], vars, w, name, false))
            && (!Asks(value, AtEnd, [], vars, w, name, false) ==>
                  var (o, t) := (Opened(vars, name, Simple), Expand(value, AtEnd, [], vars, w));
                  r == if t.Err? then Err(t.error) else Ok(o[i := o[i].(value := Some(t.value.0))]))
  {
    hide Expand, Asks;
    AskingFails(value, AtEnd, [], vars, Opened(vars, name, Simple), w, name);
  }

  /** Text without a dollar sign never asks. */
  lemma {:induction false} PlainTextAsksNothing(s: string, args: seq<string>, vars: seq<Var>, w: World, name: string)
    requires '$' !in s
    ensures !Asks(s, AtEnd, args, vars, w, name, false)
  {
    if s != "" {
      PlainTextAsksNothing(s[1..], args, vars, w, name);
    }
  }

  // ---------------------------------------------------------------- variables that refer to themselves

  /** While a variable is being expanded, an expansion ends in its self-reference error exactly
      if it comes to apply the variable once more without arguments. */
  lemma {:induction false} BareAsking(s: string, stop: Stop, args: seq<string>, vars: seq<Var>, w: World, name: string)
    requires Underway(vars, name)
    ensures Expand(s, stop, args, vars, w) == Err(SelfReference(name)) <==> Asks(s, stop, args, vars, w, name, true)
    decreases Budget(vars), |s|, 1
  {
    hide Dollar, DollarAsks, Underway;
    if s != "" && s[0] == '$' {
      DollarBareAsking(s[1..], args, vars, w, name);
      var d := Dollar(s[1..], args, vars, w);
      if d.Ok? {
        BareAsking(d.value.1, stop, args, vars, w, name);
      }
    } else if s != "" && !Ends(stop, s[0]) {
      BareAsking(s[1..], stop, args, vars, w, name);
    }
  }

  /** A variable of that name is being expanded. */
  predicate Underway(vars: seq<Var>, name: string) {
    var i := Lookup(vars, name);
    i < |vars| && vars[i].expCount > 0
  }

  lemma {:induction false} DollarBareAsking(s: string, args: seq<string>, vars: seq<Var>, w: World, name: string)
    requires Underway(vars, name)
    ensures Dollar(s, args, vars, w) == Err(SelfReference(name)) <==> DollarAsks(s, args, vars, w, name, true)
    decreases Budget(vars), |s|, 0
  {
    hide EvalClause, ClauseAsks, Underway;
    if s != "" && s[0] == '(' && Close(s[1..], 0).Some? {
      ClauseBareAsking(s[1..][..Close(s[1..], 0).value], args, vars, w, name);
    }
  }

  lemma {:induction false} ClauseBareAsking(clause: string, args: seq<string>, vars: seq<Var>, w: World, name: string)
    requires Underway(vars, name)
    ensures EvalClause(clause, args, vars, w) == Err(SelfReference(name))
            <==> ClauseAsks(clause, args, vars, w, name, true)
    decreases Budget(vars), |clause|, 3
  {
    hide ExpandAll, AllAsk, Apply, ApplyAsks, Split, ArgNumber, Underway;
    var parts := Split(clause, 0);
    AllBareAsking(parts, |clause|, args, vars, w, name);
    var values := ExpandAll(parts, |clause|, args, vars, w);
    if values.Ok? {
      ApplyBareAsking(values.value[0], values.value[1..], vars, w, name);
    }
  }

  lemma {:induction false} AllBareAsking(parts: seq<string>, bound: nat, args: seq<string>, vars: seq<Var>, w: World,
                                         name: string)
    requires Underway(vars, name) && forall t :: t in parts ==> |t| <= bound
    ensures ExpandAll(parts, bound, args, vars, w) == Err(SelfReference(name))
            <==> AllAsk(parts, bound, args, vars, w, name, true)
    decreases Budget(vars), bound, 2, |parts|
  {
    hide Expand, Asks, Underway;
    if parts != [] {
      BareAsking(parts[0], AtEnd, args, vars, w, name);
      AllBareAsking(parts[1..], bound, args, vars, w, name);
    }
  }

  lemma {:induction false} ApplyBareAsking(applied: string, args: seq<string>, vars: seq<Var>, w: World, name: string)
    requires Underway(vars, name)
    ensures Apply(applied, args, vars, w) == Err(SelfReference(name)) <==> ApplyAsks(applied, args, vars, w, name, true)
    decreases Budget(vars), 0, 1
  {
    hide Expand, Asks;
    var i := Lookup(vars, applied);
    if i < |vars| && !(args == [] && vars[i].expCount > 0) && vars[i].expCount <= DEPTH
       && vars[i].value.Some? && vars[i].flavor.Recursive? {
      BudgetSpent(vars, i);
      LookupEntered(vars, i, name);
      BareAsking(vars[i].value.value, AtEnd, args, Entered(vars, i), w, name);
    }
  }

  /** A reference to a recursive variable ends in its self-reference error exactly if expanding
      its text comes to refer to it again, eventually and through whatever variables. */
  lemma SelfReferenceExactly(i: nat, vars: seq<Var>, w: World)
    requires i < |vars| && i == Lookup(vars, vars[i].name) && PlainName(vars[i].name)
    requires vars[i].flavor.Recursive? && vars[i].expCount == 0 && vars[i].value.Some?
    ensures Expand("$(" + vars[i].name + ")", AtEnd, [], vars, w) == Err(SelfReference(vars[i].name))
            <==> Asks(vars[i].value.value, AtEnd, [], Entered(vars, i), w, vars[i].name, true)
  {
    hide Expand, Apply, Meaning, Asks;
    var name := vars[i].name;
    VariableIs(i, [], vars, w);
    ReferenceIs(name, "", [], vars, w);
    assert "$(" + name + ")" + "" == "$(" + name + ")";
    assert Expand("", AtEnd, [], vars, w) == Ok(("", "")) by {
      PlainText("", [], vars, w);
    }
    LookupEntered(vars, i, name);
    BareAsking(vars[i].value.value, AtEnd, [], Entered(vars, i), w, name);
  }
}
