/** var.c and except.c: variables with a stack of pushed values, handlers that unwind it, and
    the cached environment. */
module VarStore {
  import opened CStrings
  import opened Variables
  import opened Scoping

  /** A Var as a value. */
  datatype Cell = Cell(defn: List, env: Option<CString>, bindings: bool, internal: bool)

  function DefsOf(model: map<CString, Cell>): map<CString, Def> {
    map n | n in model :: Def(model[n].defn, model[n].internal)
  }

  /** The flag is right, and the string, where there is one, is the one to use: the variable is
      exported, and the string is fresh unless a rebinding may have changed it. */
  ghost predicate CellOk(name: CString, c: Cell, lexical: seq<Binding>, rebound: bool, noexport: set<CString>, printer: Printer) {
    && c.bindings == HasBindings(c.defn)
    && (c.env.Some? ==>
          && c.defn != [] && !c.internal && Exportable(name, noexport)
          && (!(rebound && c.bindings) ==> c.env.value == Render(name, c.defn, lexical, printer)))
  }

  ghost predicate AllOk(model: map<CString, Cell>, lexical: seq<Binding>, rebound: bool, noexport: set<CString>, printer: Printer) {
    forall n :: n in model ==> CellOk(n, model[n], lexical, rebound, noexport, printer)
  }

  ghost predicate PushesOk(pushes: seq<Push>) {
    forall i :: 0 <= i < |pushes| ==> pushes[i].bindings == HasBindings(pushes[i].defn) && ValidName(pushes[i].name)
  }

  /** A new definition of one name. */
  lemma PutKeeps(model: map<CString, Cell>, name: CString, cell: Cell, lexical: seq<Binding>, rebound: bool,
                 noexport: set<CString>, printer: Printer)
    requires AllOk(model, lexical, rebound, noexport, printer)
    requires cell.env.None? && cell.bindings == HasBindings(cell.defn)
    ensures AllOk(model[name := cell], lexical, rebound, noexport, printer)
    ensures DefsOf(model[name := cell]) == DefsOf(model)[name := Def(cell.defn, cell.internal)]
    ensures !Exportable(name, noexport) ==> Visible(DefsOf(model[name := cell]), noexport) == Visible(DefsOf(model), noexport)
  {
    hide Render, HasBindings, Exportable;
  }

  lemma DropKeeps(model: map<CString, Cell>, name: CString, lexical: seq<Binding>, rebound: bool,
                  noexport: set<CString>, printer: Printer)
    requires AllOk(model, lexical, rebound, noexport, printer)
    ensures AllOk(model - {name}, lexical, rebound, noexport, printer)
    ensures DefsOf(model - {name}) == DefsOf(model) - {name}
    ensures !Exportable(name, noexport) ==> Visible(DefsOf(model - {name}), noexport) == Visible(DefsOf(model), noexport)
  {
    hide Render, HasBindings, Exportable;
  }

  /** Rebinding makes every string with bindings suspect, and leaves the others fresh. */
  lemma RebindingKeeps(model: map<CString, Cell>, before: seq<Binding>, lexical: seq<Binding>, rebound: bool,
                       noexport: set<CString>, printer: Printer)
    requires AllOk(model, before, rebound, noexport, printer)
    ensures AllOk(model, lexical, true, noexport, printer)
  {
    hide Render, HasBindings;
    forall n | n in model && model[n].env.Some? && !model[n].bindings
      ensures Render(n, model[n].defn, before, printer) == Render(n, model[n].defn, lexical, printer)
    {
      RenderWithout(n, model[n].defn, before, lexical, printer);
    }
  }

  /** The strings of some of the names. */
  function StringsOf(visible: map<CString, List>, names: set<CString>, lexical: seq<Binding>, printer: Printer): set<CString> {
    set n | n in visible && n in names :: Render(n, visible[n], lexical, printer)
  }

  lemma StringsStep(visible: map<CString, List>, names: set<CString>, key: CString, lexical: seq<Binding>, printer: Printer)
    requires key !in names
    ensures multiset(StringsOf(visible, names + {key}, lexical, printer)) ==
      multiset(StringsOf(visible, names, lexical, printer)) +
      if key in visible then multiset{Render(key, visible[key], lexical, printer)} else multiset{}
  {
    hide Render;
    var before := StringsOf(visible, names, lexical, printer);
    var after := StringsOf(visible, names + {key}, lexical, printer);
    if key in visible {
      var text := Render(key, visible[key], lexical, printer);
      forall n | n in visible && n in names ensures Render(n, visible[n], lexical, printer) != text {
        if Render(n, visible[n], lexical, printer) == text {
          RenderNames(n, key, visible[n], visible[key], lexical, printer);
        }
      }
      assert text !in before;
      assert after == before + {text};
    } else {
      assert after == before;
    }
  }

  lemma StringsAll(visible: map<CString, List>, names: set<CString>, lexical: seq<Binding>, printer: Printer)
    requires visible.Keys <= names
    ensures StringsOf(visible, names, lexical, printer) == Strings(visible, lexical, printer)
    ensures StringsOf(visible, {}, lexical, printer) == {}
  {
    hide Render;
  }

  /** A string kept or made by mkenv0. */
  lemma EnvKeeps(model: map<CString, Cell>, key: CString, text: CString, lexical: seq<Binding>, rebound: bool,
                 noexport: set<CString>, printer: Printer)
    requires AllOk(model, lexical, rebound, noexport, printer) && key in model
    requires key in Visible(DefsOf(model), noexport) && text == Render(key, model[key].defn, lexical, printer)
    ensures var after := model[key := model[key].(env := Some(text))];
      && AllOk(after, lexical, rebound, noexport, printer)
      && CellOk(key, after[key], lexical, false, noexport, printer)
      && DefsOf(after) == DefsOf(model)
  {
    hide Render, HasBindings, Exportable;
  }

  class Var {
    var defn: List
    var env: Option<CString>
    var bindings: bool
    var internal: bool

    /** mkvar */
    constructor (defn: List, bindings: bool, internal: bool)
      ensures this.defn == defn && env == None && this.bindings == bindings && this.internal == internal
    {
      this.defn, env, this.bindings, this.internal := defn, None, bindings, internal;
    }

    ghost predicate Is(c: Cell)
      reads this
    {
      defn == c.defn && env == c.env && bindings == c.bindings && internal == c.internal
    }
  }

  /** hasbindings */
  method FindBindings(list: List) returns (r: bool)
    ensures r == HasBindings(list)
  {
    var lp := 0;
    while lp < |list|
      invariant lp <= |list| && forall i :: 0 <= i < lp ==> !(list[i].Closure? && list[i].binding.Some?)
    {
      if list[lp].Closure? && list[lp].binding.Some? {
        return true;
      }
      lp := lp + 1;
    }
    r := false;
  }

  class Store {
    const noexport: set<CString>
    const passthrough: seq<CString>
    const printer: Printer

    var vars: map<CString, Var>
    var lexical: seq<Binding>
    var isdirty: bool
    var rebound: bool
    var env: seq<CString>
    var alloclen: nat
    var sortenv: seq<CString>
    var pushlist: seq<Push>
    var handlers: seq<seq<Push>>

    /** The variables as values. */
    ghost var model: map<CString, Cell>

    ghost predicate Linked()
      reads this`vars, this`model, vars.Values
    {
      && vars.Keys == model.Keys
      && (forall n :: n in vars ==> vars[n].Is(model[n]))
      && (forall m, n :: m in vars && n in vars && m != n ==> vars[m] != vars[n])
    }

    /** The vector that the environment is collected in starts with the strings kept. */
    ghost predicate VectorOk()
      reads this`env, this`alloclen
    {
      |passthrough| <= |env| < alloclen && env[..|passthrough|] == passthrough
    }

    ghost predicate Valid()
      reads this, vars.Values
    {
      && Linked() && VectorOk() && Chained(lexical) && PushesOk(pushlist)
      && AllOk(model, lexical, rebound, noexport, printer)
      && (!isdirty && !rebound ==> IsEnvironment(sortenv, passthrough, Visible(DefsOf(model), noexport), lexical, printer))
    }

    ghost function StateOf(): Meaning
      reads this
    {
      Meaning(DefsOf(model), lexical)
    }

    /** initvars and the strings that initenv keeps. */
    constructor (noexport: set<CString>, passthrough: seq<CString>, lexical: seq<Binding>, printer: Printer)
      requires Chained(lexical)
      ensures Valid() && StateOf() == Meaning(map[], lexical) && pushlist == [] && handlers == [] && vars.Values == {}
      ensures this.noexport == noexport && this.passthrough == passthrough && this.printer == printer
    {
      this.noexport, this.passthrough, this.printer := noexport, passthrough, printer;
      this.lexical := lexical;
      vars, model := map[], map[];
      isdirty, rebound := true, true;
      env, alloclen := passthrough, |passthrough| + 10;
      sortenv, pushlist, handlers := [], [], [];
    }

    /** The fields of the variable, which is made if there is none. */
    method Put(name: CString, defn: List, bindings: bool, internal: bool)
      requires Linked()
      modifies this`vars, this`model, vars.Values
      ensures Linked() && model == old(model)[name := Cell(defn, None, bindings, internal)]
      ensures fresh(vars.Values - old(vars.Values))
    {
      if name in vars {
        var v := vars[name];
        v.defn, v.env, v.bindings, v.internal := defn, None, bindings, internal;
      } else {
        var v := new Var(defn, bindings, internal);
        vars := vars[name := v];
      }
      model := model[name := Cell(defn, None, bindings, internal)];
    }

    method Drop(name: CString)
      requires Linked()
      modifies this`vars, this`model
      ensures Linked() && model == old(model) - {name} && vars.Values <= old(vars.Values)
    {
      vars := vars - {name};
      model := model - {name};
    }

    /** A variable gets this value, even an empty one. */
    method Set(name: CString, defn: List, bindings: bool, internal: bool)
      requires Valid() && bindings == HasBindings(defn)
      modifies this`isdirty, this`vars, this`model, vars.Values
      ensures Valid() && fresh(vars.Values - old(vars.Values))
      ensures DefsOf(model) == DefsOf(old(model))[name := Def(defn, internal)]
    {
      hide HasBindings, Exportable, IsEnvironment, Visible, AllOk, DefsOf, Linked, PushesOk, Chained;
      if Exportable(name, noexport) {
        isdirty := true;
      }
      PutKeeps(model, name, Cell(defn, None, bindings, internal), lexical, rebound, noexport, printer);
      Put(name, defn, bindings, internal);
    }

    /** A variable gets this value; an empty one removes it. */
    method Define(name: CString, defn: List, bindings: bool, internal: bool)
      requires Valid() && bindings == HasBindings(defn)
      modifies this`isdirty, this`vars, this`model, vars.Values
      ensures Valid() && fresh(vars.Values - old(vars.Values))
      ensures DefsOf(model) == Defined(DefsOf(old(model)), name, Def(defn, internal))
    {
      hide HasBindings, Exportable, IsEnvironment, Visible, AllOk, DefsOf, Linked, PushesOk, Chained;
      if defn != [] {
        Set(name, defn, bindings, internal);
      } else {
        if Exportable(name, noexport) {
          isdirty := true;
        }
        DropKeeps(model, name, lexical, rebound, noexport, printer);
        Drop(name);
      }
    }

    /** The binding of the name on the chain gets the value. */
    method Rebind(name: CString, binding: Option<nat>, defn: List) returns (done: bool)
      requires Valid() && (binding.Some? ==> binding.value < |lexical|)
      modifies this`lexical, this`rebound
      ensures Valid()
      ensures var found := Lookup(old(lexical), binding, name);
        done == found.Some? && lexical == if done then Rebound(old(lexical), found.value, defn) else old(lexical)
    {
      hide HasBindings, Exportable, IsEnvironment, Visible, AllOk, DefsOf, Linked, PushesOk;
      var bp: Option<nat> := binding;
      while bp.Some?
        invariant bp.Some? ==> bp.value < |lexical|
        invariant lexical == old(lexical) && rebound == old(rebound)
        invariant Lookup(lexical, bp, name) == Lookup(lexical, binding, name)
        decreases if bp.Some? then bp.value + 1 else 0
      {
        if name == lexical[bp.value].name {
          RebindingKeeps(model, lexical, Rebound(lexical, bp.value, defn), rebound, noexport, printer);
          lexical := Rebound(lexical, bp.value, defn);
          rebound := true;
          return true;
        }
        bp := lexical[bp.value].next;
      }
      done := false;
    }

    /** vardef, without settors; a name that validatevar refuses fails. */
    method Vardef(name: CString, binding: Option<nat>, defn: List) returns (failed: bool)
      requires Valid() && (binding.Some? ==> binding.value < |lexical|)
      modifies this, vars.Values
      ensures Valid() && fresh(vars.Values - old(vars.Values))
      ensures pushlist == old(pushlist) && handlers == old(handlers)
      ensures failed == !ValidName(name) == Refused(name)
      ensures StateOf() == if failed then old(StateOf()) else Assigned(old(StateOf()), name, binding, defn)
      ensures !failed ==> ChangesOnly(old(StateOf()), StateOf(), name, binding, defn)
    {
      hide ChangesOnly, Assigned, HasBindings, Exportable, IsEnvironment, Visible, AllOk, DefsOf, ValidName, Linked, PushesOk, Defined, Lookup, Rebound;
      RefusedExactly(name);
      if !ValidName(name) {
        return true;
      }
      failed := false;
      var done := Rebind(name, binding, defn);
      if !done {
        var bindings := FindBindings(defn);
        Define(name, defn, bindings, false);
      }
      AssignedIs(old(StateOf()), StateOf(), name, binding, defn);
      AssignedExactly(old(StateOf()), name, binding, defn);
    }

    /** varpush, without settors. */
    method Varpush(name: CString, defn: List) returns (failed: bool)
      requires Valid()
      modifies this, vars.Values
      ensures Valid() && fresh(vars.Values - old(vars.Values)) && handlers == old(handlers)
      ensures failed == !ValidName(name) == Refused(name)
      ensures failed ==> StateOf() == old(StateOf()) && pushlist == old(pushlist)
      ensures !failed ==> StateOf() == old(StateOf()).(vars := old(StateOf()).vars[name := Def(defn, false)])
      ensures !failed ==> |pushlist| == |old(pushlist)| + 1 && pushlist[1..] == old(pushlist) && pushlist[0].name == name
      ensures !failed ==> Def(pushlist[0].defn, pushlist[0].internal) == Get(old(StateOf()).vars, name)
    {
      hide HasBindings, Exportable, IsEnvironment, Visible, AllOk, DefsOf, ValidName, Get, PushesOk;
      RefusedExactly(name);
      if !ValidName(name) {
        return true;
      }
      failed := false;
      var push := Push(name, [], false, false);
      if name in vars {
        var v := vars[name];
        push := Push(name, v.defn, v.bindings, v.internal);
      }
      PushIsOk(model, push, lexical, rebound, noexport, printer);
      var bindings := FindBindings(defn);
      Set(name, defn, bindings, false);
      PushMore(push, pushlist);
      pushlist := [push] + pushlist;
    }

    /** varpop of the top of the stack, without settors. */
    method Varpop()
      requires Valid() && pushlist != []
      modifies this, vars.Values
      ensures Valid() && fresh(vars.Values - old(vars.Values)) && handlers == old(handlers)
      ensures StateOf() == PopOne(old(StateOf()), old(pushlist)[0]) && pushlist == old(pushlist)[1..]
    {
      hide HasBindings, Exportable, IsEnvironment, Visible, AllOk, DefsOf, ValidName, Linked, Defined;
      var push := pushlist[0];
      Define(push.name, push.defn, push.bindings, push.internal);
      pushlist := pushlist[1..];
    }

    /** The variable keeps this string. */
    method Keep(key: CString, text: CString)
      requires Linked() && key in vars
      modifies this`model, vars.Values
      ensures Linked() && model == old(model)[key := old(model)[key].(env := Some(text))]
    {
      var v := vars[key];
      v.env := Some(text);
      model := model[key := model[key].(env := Some(text))];
    }

    /** One more string in the vector, which grows when it is full. */
    method Add(text: CString)
      requires VectorOk()
      modifies this`env, this`alloclen
      ensures VectorOk() && env == old(env) + [text]
    {
      env := env + [text];
      if |env| == alloclen {
        alloclen := alloclen * 2;
      }
    }

    /** mkenv0 */
    method Mkenv0(key: CString)
      requires Linked() && VectorOk() && key in vars
      requires AllOk(model, lexical, rebound, noexport, printer)
      modifies this`env, this`alloclen, this`model, vars.Values
      ensures Linked() && VectorOk() && AllOk(model, lexical, rebound, noexport, printer)
      ensures DefsOf(model) == DefsOf(old(model)) && key in model && model == old(model)[key := model[key]]
      ensures CellOk(key, model[key], lexical, false, noexport, printer)
      ensures var visible := Visible(DefsOf(model), noexport);
        env == old(env) + if key in visible then [Render(key, visible[key], lexical, printer)] else []
    {
      hide HasBindings, Exportable, Render, AllOk, Visible, DefsOf, VectorOk;
      var v := vars[key];
      CellIsOk(model, key, lexical, rebound, noexport, printer);
      assert v.Is(model[key]);
      if v.defn == [] || v.internal || !Exportable(key, noexport) {
        return;
      }
      var text: CString;
      if v.env.None? || (rebound && v.bindings) {
        text := Render(key, v.defn, lexical, printer);
      } else {
        text := v.env.value;
      }
      EnvKeeps(model, key, text, lexical, rebound, noexport, printer);
      Keep(key, text);
      Add(text);
    }

    /** mkenv: the sorted environment, collected again only when something may have changed. */
    method Mkenv() returns (out: seq<CString>)
      requires Valid()
      modifies this`env, this`alloclen, this`sortenv, this`isdirty, this`rebound, this`model, vars.Values
      ensures Valid() && StateOf() == old(StateOf())
      ensures out == sortenv && IsEnvironment(out, passthrough, Visible(StateOf().vars, noexport), lexical, printer)
    {
      hide HasBindings, Exportable, Render, AllOk, Visible, DefsOf, Strings, PushesOk, Chained, IsEnvironment, Gathered, Linked, Sort;
      if isdirty || rebound {
        CollectAll();
        GatheredSorts(env, passthrough, Visible(DefsOf(model), noexport), lexical, printer);
        isdirty := false;
        rebound := false;
        sortenv := Sort(env);
      }
      out := sortenv;
    }

    /** dictforall with mkenv0. */
    method CollectAll()
      requires Linked() && VectorOk() && AllOk(model, lexical, rebound, noexport, printer)
      modifies this`env, this`alloclen, this`model, vars.Values
      ensures Linked() && VectorOk() && DefsOf(model) == DefsOf(old(model))
      ensures AllOk(model, lexical, false, noexport, printer)
      ensures Gathered(env, passthrough, Strings(Visible(DefsOf(model), noexport), lexical, printer))
    {
      hide HasBindings, Exportable, Render, AllOk, Visible, DefsOf, CellOk, Strings, StringsOf, Linked, DoneOk, Gathered;
      ghost var visible := Visible(DefsOf(model), noexport);
      StartVector();
      var todo := vars.Keys;
      ghost var done: set<CString> := {};
      StringsAll(visible, visible.Keys, lexical, printer);
      NoneDone(model, lexical, noexport, printer);
      while todo != {}
        invariant Linked() && VectorOk() && AllOk(model, lexical, rebound, noexport, printer)
        invariant todo !! done && todo + done == vars.Keys && DefsOf(model) == DefsOf(old(model))
        invariant DoneOk(model, done, lexical, noexport, printer)
        invariant Gathered(env, passthrough, StringsOf(visible, done, lexical, printer))
        decreases todo
      {
        var key :| key in todo;
        ghost var before, gathered := model, env;
        Mkenv0(key);
        GatherStep(gathered, env, passthrough, visible, done, key, lexical, printer);
        DoneStep(before, model, done, key, lexical, noexport, printer);
        todo := todo - {key};
        done := done + {key};
      }
      LinkedKeys();
      AllCellsOk(model, done, lexical, noexport, printer);
      StringsAll(visible, done, lexical, printer);
    }

    /** env->count = envmin */
    method StartVector()
      requires VectorOk()
      modifies this`env
      ensures VectorOk() && Gathered(env, passthrough, {})
    {
      env := env[..|passthrough|];
    }

    /** VarScan, the part that drops strings: those that a rebinding may have changed. */
    method VarScan(key: CString)
      requires Linked() && key in vars && AllOk(model, lexical, rebound, noexport, printer)
      modifies this`model, vars.Values
      ensures Linked() && AllOk(model, lexical, rebound, noexport, printer) && DefsOf(model) == DefsOf(old(model))
      ensures key in model && model == old(model)[key := model[key]]
      ensures model[key].env == if old(model)[key].bindings && rebound then None else old(model)[key].env
    {
      hide CellOk, AllOk;
      var v := vars[key];
      if v.bindings && rebound {
        DropEnvKeeps(model, key, lexical, rebound, noexport, printer);
        v.env := None;
        model := model[key := model[key].(env := None)];
      }
    }

    /** A garbage collection, as far as variables can tell. */
    method ScanAll()
      requires Valid()
      modifies this`model, vars.Values
      ensures Valid() && StateOf() == old(StateOf())
    {
      hide AllOk, DefsOf, Linked, PushesOk, Chained, IsEnvironment, Visible;
      var todo := vars.Keys;
      while todo != {}
        invariant Linked() && AllOk(model, lexical, rebound, noexport, printer) && DefsOf(model) == DefsOf(old(model))
        invariant todo <= vars.Keys
        decreases todo
      {
        var key :| key in todo;
        VarScan(key);
        todo := todo - {key};
      }
    }

    /** throw: pops what was pushed since the handler was set. */
    method DoThrow()
      requires Valid() && handlers != [] && Suffix(handlers[0], pushlist)
      modifies this, vars.Values
      ensures Valid() && fresh(vars.Values - old(vars.Values))
      ensures pushlist == old(handlers)[0] && handlers == old(handlers)[1..]
      ensures StateOf() == Unwound(old(StateOf()), Since(old(pushlist), old(handlers)[0]))
    {
      hide Defined, DefsOf, AllOk, Linked, PushesOk, Chained, IsEnvironment, Visible, Unwound;
      var handler := handlers[0];
      handlers := handlers[1..];
      while pushlist != handler
        invariant Valid() && fresh(vars.Values - old(vars.Values))
        invariant Suffix(handler, pushlist) && handlers == old(handlers)[1..]
        invariant Unwound(StateOf(), Since(pushlist, handler)) == Unwound(old(StateOf()), Since(old(pushlist), handler))
        decreases |pushlist|
      {
        UnwoundStep(StateOf(), pushlist, handler);
        Varpop();
      }
      UnwoundDone(StateOf(), pushlist);
    }

    /** Runs a command under at least one handler.  A throw unwinds the stack before any block
        is left. */
    method Run(c: Command) returns (thrown: bool, envs: seq<seq<CString>>)
      requires Valid() && Scoped(c, |lexical|) && handlers != [] && Nested(pushlist, handlers)
      modifies this, vars.Values
      ensures Valid() && fresh(vars.Values - old(vars.Values))
      ensures Ran(Exec(c, old(StateOf())), old(pushlist), old(handlers), StateOf(), thrown, pushlist, handlers)
      ensures Answers(envs, Exec(c, old(StateOf())).seen, passthrough, noexport, printer)
      decreases c, 1
    {
      hide Assigned, ValidName, Defined, DefsOf, AllOk, Linked, PushesOk, IsEnvironment, Visible, Unwound, VectorOk, Since;
      envs := [];
      match c {
        case Assign(name, binding, defn) =>
          thrown := Vardef(name, binding, defn);
          if thrown {
            DoThrow();
          }
        case Local(name, defn, body) =>
          thrown, envs := RunLocal(name, defn, body);
        case Then(first, second) =>
          thrown, envs := Run(first);
          if !thrown {
            var more;
            thrown, more := Run(second);
            envs := envs + more;
          }
        case Catch(body, catcher) =>
          thrown, envs := RunCatch(body, catcher);
        case Throw =>
          DoThrow();
          thrown := true;
        case MkEnv =>
          var out := Mkenv();
          envs := [out];
          thrown := false;
        case Collect =>
          ScanAll();
          thrown := false;
      }
    }

    /** localbind */
    method RunLocal(name: CString, defn: List, body: Command) returns (thrown: bool, envs: seq<seq<CString>>)
      requires Valid() && Scoped(body, |lexical|) && handlers != [] && Nested(pushlist, handlers)
      modifies this, vars.Values
      ensures Valid() && fresh(vars.Values - old(vars.Values))
      ensures Ran(Exec(Local(name, defn, body), old(StateOf())), old(pushlist), old(handlers), StateOf(), thrown, pushlist, handlers)
      ensures Answers(envs, Exec(Local(name, defn, body), old(StateOf())).seen, passthrough, noexport, printer)
      decreases Local(name, defn, body), 0
    {
      hide Assigned, ValidName, Defined, DefsOf, AllOk, Linked, PushesOk, IsEnvironment, Visible, Unwound, VectorOk, Get, Since;
      envs := [];
      thrown := Varpush(name, defn);
      if thrown {
        DoThrow();
        return;
      }
      ghost var push, end := pushlist[0], Exec(body, StateOf()).end;
      assert pushlist == [push] + old(pushlist);
      NestedMore(push, old(pushlist), handlers);
      thrown, envs := Run(body);
      if thrown {
        UnwoundMore(end, push, old(pushlist), old(handlers)[0]);
      } else {
        Varpop();
      }
    }

    /** An exception handler around the body. */
    method RunCatch(body: Command, catcher: Command) returns (thrown: bool, envs: seq<seq<CString>>)
      requires Valid() && Scoped(body, |lexical|) && Scoped(catcher, |lexical|) && handlers != [] && Nested(pushlist, handlers)
      modifies this, vars.Values
      ensures Valid() && fresh(vars.Values - old(vars.Values))
      ensures Ran(Exec(Catch(body, catcher), old(StateOf())), old(pushlist), old(handlers), StateOf(), thrown, pushlist, handlers)
      ensures Answers(envs, Exec(Catch(body, catcher), old(StateOf())).seen, passthrough, noexport, printer)
      decreases Catch(body, catcher), 0
    {
      hide Assigned, ValidName, Defined, DefsOf, AllOk, Linked, PushesOk, IsEnvironment, Visible, Unwound, VectorOk, Since, Answers;
      handlers := [pushlist] + handlers;
      assert handlers[0] == pushlist && handlers[1..] == old(handlers);
      thrown, envs := Run(body);
      if !thrown {
        handlers := handlers[1..];
      } else {
        UnwoundDone(Exec(body, old(StateOf())).end, pushlist);
        assert StateOf() == Exec(body, old(StateOf())).end;
        ghost var first, second := Exec(body, old(StateOf())).seen, Exec(catcher, StateOf()).seen;
        var more;
        thrown, more := Run(catcher);
        AnswersMore(envs, first, more, second, passthrough, noexport, printer);
        envs := envs + more;
      }
    }

    /** A whole program, under the outermost handler: whether it ends normally or by an exception
        nobody catches, no push is left, and the variables are what the program means. */
    method RunProgram(c: Command) returns (thrown: bool, envs: seq<seq<CString>>)
      requires Valid() && Scoped(c, |lexical|) && handlers == []
      modifies this, vars.Values
      ensures Valid() && fresh(vars.Values - old(vars.Values)) && pushlist == old(pushlist) && handlers == []
      ensures thrown == Exec(c, old(StateOf())).thrown && StateOf() == Exec(c, old(StateOf())).end
      ensures Answers(envs, Exec(c, old(StateOf())).seen, passthrough, noexport, printer)
    {
      hide Defined, DefsOf, AllOk, Linked, PushesOk, IsEnvironment, Visible, Unwound, VectorOk, Since;
      handlers := [pushlist];
      thrown, envs := Run(c);
      if thrown {
        UnwoundDone(Exec(c, old(StateOf())).end, pushlist);
      } else {
        handlers := [];
      }
    }

    lemma LinkedKeys()
      requires Linked()
      ensures vars.Keys == model.Keys
    {}
  }

  lemma AssignedIs(m: Meaning, m': Meaning, name: CString, b: Option<nat>, defn: List)
    requires Chained(m.lexical) && (b.Some? ==> b.value < |m.lexical|)
    requires var found := Lookup(m.lexical, b, name);
      m' == if found.Some? then m.(lexical := Rebound(m.lexical, found.value, defn))
            else m.(vars := Defined(m.vars, name, Def(defn, false)))
    ensures m' == Assigned(m, name, b, defn)
  {}

  lemma DropEnvKeeps(model: map<CString, Cell>, key: CString, lexical: seq<Binding>, rebound: bool,
                     noexport: set<CString>, printer: Printer)
    requires AllOk(model, lexical, rebound, noexport, printer) && key in model
    ensures var after := model[key := model[key].(env := None)];
      AllOk(after, lexical, rebound, noexport, printer) && DefsOf(after) == DefsOf(model)
  {
    hide Render, Exportable, HasBindings;
  }

  ghost predicate Suffix(s: seq<Push>, t: seq<Push>) {
    |s| <= |t| && t[|t| - |s|..] == s
  }

  /** What was pushed since then. */
  function Since(now: seq<Push>, before: seq<Push>): seq<Push> {
    if |before| <= |now| then now[..|now| - |before|] else []
  }

  /** Each handler remembers a part of the stack below it. */
  ghost predicate Nested(pushlist: seq<Push>, handlers: seq<seq<Push>>)
    decreases |handlers|
  {
    handlers != [] ==> Suffix(handlers[0], pushlist) && Nested(handlers[0], handlers[1..])
  }

  lemma NestedMore(push: Push, pushlist: seq<Push>, handlers: seq<seq<Push>>)
    requires Nested(pushlist, handlers)
    ensures Nested([push] + pushlist, handlers)
  {}

  /** The state after a run, where o is what the program means: after a throw the top handler
      is gone, its stack is back, and what was pushed since is undone. */
  ghost predicate Ran(o: Outcome, pushlist: seq<Push>, handlers: seq<seq<Push>>,
                      end: Meaning, thrown: bool, pushlist': seq<Push>, handlers': seq<seq<Push>>)
    requires handlers != []
  {
    && thrown == o.thrown
    && if thrown then
         handlers' == handlers[1..] && pushlist' == handlers[0] && end == Unwound(o.end, Since(pushlist, handlers[0]))
       else handlers' == handlers && pushlist' == pushlist && end == o.end
  }

  /** Each environment given out was the right one then. */
  ghost predicate Answers(envs: seq<seq<CString>>, seen: seq<Meaning>, passthrough: seq<CString>,
                          noexport: set<CString>, printer: Printer) {
    |envs| == |seen| && forall i :: 0 <= i < |seen| ==>
      IsEnvironment(envs[i], passthrough, Visible(seen[i].vars, noexport), seen[i].lexical, printer)
  }

  lemma AnswersMore(envs: seq<seq<CString>>, seen: seq<Meaning>, more: seq<seq<CString>>, seenMore: seq<Meaning>,
                    passthrough: seq<CString>, noexport: set<CString>, printer: Printer)
    requires Answers(envs, seen, passthrough, noexport, printer) && Answers(more, seenMore, passthrough, noexport, printer)
    ensures Answers(envs + more, seen + seenMore, passthrough, noexport, printer)
  {
    hide IsEnvironment, Visible;
  }

  lemma UnwoundMore(m: Meaning, push: Push, pushlist: seq<Push>, handler: seq<Push>)
    requires Suffix(handler, pushlist)
    ensures Unwound(m, Since([push] + pushlist, handler)) == Unwound(PopOne(m, push), Since(pushlist, handler))
  {
    assert Since([push] + pushlist, handler)[1..] == Since(pushlist, handler);
  }

  lemma UnwoundStep(m: Meaning, pushlist: seq<Push>, handler: seq<Push>)
    requires Suffix(handler, pushlist) && pushlist != handler
    ensures pushlist != [] && Suffix(handler, pushlist[1..])
    ensures Unwound(m, Since(pushlist, handler)) == Unwound(PopOne(m, pushlist[0]), Since(pushlist[1..], handler))
  {
    hide PopOne;
    assert |pushlist| > |handler|;
    assert Since(pushlist, handler)[1..] == Since(pushlist[1..], handler);
  }

  lemma UnwoundDone(m: Meaning, pushlist: seq<Push>)
    ensures Unwound(m, Since(pushlist, pushlist)) == m
  {}

  /** The vector holds the strings kept from the start and these others, in any order. */
  ghost predicate Gathered(env: seq<CString>, passthrough: seq<CString>, strings: set<CString>) {
    multiset(env) == multiset(passthrough) + multiset(strings)
  }

  lemma GatherStep(before: seq<CString>, env: seq<CString>, passthrough: seq<CString>, visible: map<CString, List>,
                   done: set<CString>, key: CString, lexical: seq<Binding>, printer: Printer)
    requires key !in done && Gathered(before, passthrough, StringsOf(visible, done, lexical, printer))
    requires env == before + if key in visible then [Render(key, visible[key], lexical, printer)] else []
    ensures Gathered(env, passthrough, StringsOf(visible, done + {key}, lexical, printer))
  {
    hide StringsOf, Render;
    StringsStep(visible, done, key, lexical, printer);
  }

  lemma GatheredSorts(env: seq<CString>, passthrough: seq<CString>, visible: map<CString, List>,
                      lexical: seq<Binding>, printer: Printer)
    requires Gathered(env, passthrough, Strings(visible, lexical, printer))
    ensures IsEnvironment(Sort(env), passthrough, visible, lexical, printer)
  {
    hide Sorted, Strings, Sort;
    SortSorts(env);
  }

  ghost predicate DoneOk(model: map<CString, Cell>, done: set<CString>, lexical: seq<Binding>,
                         noexport: set<CString>, printer: Printer) {
    forall n :: n in done ==> n in model && CellOk(n, model[n], lexical, false, noexport, printer)
  }

  lemma NoneDone(model: map<CString, Cell>, lexical: seq<Binding>, noexport: set<CString>, printer: Printer)
    ensures DoneOk(model, {}, lexical, noexport, printer)
  {}

  lemma DoneStep(before: map<CString, Cell>, model: map<CString, Cell>, done: set<CString>, key: CString,
                 lexical: seq<Binding>, noexport: set<CString>, printer: Printer)
    requires DoneOk(before, done, lexical, noexport, printer)
    requires key in model && model == before[key := model[key]]
    requires CellOk(key, model[key], lexical, false, noexport, printer)
    ensures DoneOk(model, done + {key}, lexical, noexport, printer)
  {
    hide CellOk;
  }

  lemma AllCellsOk(model: map<CString, Cell>, done: set<CString>, lexical: seq<Binding>,
                   noexport: set<CString>, printer: Printer)
    requires DoneOk(model, done, lexical, noexport, printer) && done == model.Keys
    ensures AllOk(model, lexical, false, noexport, printer)
    ensures Visible(DefsOf(model), noexport).Keys <= done
  {
    hide CellOk, Exportable;
  }

  /** What is known of a variable and its place in the environment. */
  lemma CellIsOk(model: map<CString, Cell>, n: CString, lexical: seq<Binding>, rebound: bool, noexport: set<CString>, printer: Printer)
    requires AllOk(model, lexical, rebound, noexport, printer) && n in model
    ensures CellOk(n, model[n], lexical, rebound, noexport, printer) && model == model[n := model[n]]
    ensures var c := model[n]; var visible := Visible(DefsOf(model), noexport);
      && (n in visible <==> c.defn != [] && !c.internal && Exportable(n, noexport))
      && (n in visible ==> visible[n] == c.defn)
  {
    hide Render, Exportable, HasBindings;
  }

  lemma PushMore(push: Push, pushlist: seq<Push>)
    requires PushesOk(pushlist) && push.bindings == HasBindings(push.defn) && ValidName(push.name)
    ensures PushesOk([push] + pushlist)
  {
    hide HasBindings, ValidName;
  }

  lemma PushIsOk(model: map<CString, Cell>, push: Push, lexical: seq<Binding>, rebound: bool,
                 noexport: set<CString>, printer: Printer)
    requires AllOk(model, lexical, rebound, noexport, printer)
    requires if push.name in model then var c := model[push.name]; push == Push(push.name, c.defn, c.bindings, c.internal)
             else push == Push(push.name, [], false, false)
    ensures push.bindings == HasBindings(push.defn)
    ensures Def(push.defn, push.internal) == Get(DefsOf(model), push.name)
  {}
}
