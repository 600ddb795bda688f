/**
  Compilation of one menu item (`createMenuItemDefinition`) and of a list of
  child items (`buildMenuDefinition`): route flattening, the options merge,
  and the choice between a service reference, a service factory call, an
  expression, an item with children and a plain attribute array.
 */
module MenuItems {
  import opened Results
  import opened PhpValues
  import opened Resolver
  import opened Definitions

  // ---------------------------------------------------------------------
  // Route flattening and the options merge
  // ---------------------------------------------------------------------

  /** The keys route flattening writes. */
  const RouteKeys: set<string> := {"route", "routeParameters", "routeAbsolute"}

  /** Route flattening happens when `route.parameters` is set. */
  predicate RouteFlattened(item: Entries) {
    Isset(Get(item, "route"), "parameters")
  }

  /** Replaces the `route` record by the flat attributes `routeParameters`,
      `routeAbsolute` and `route` (the route name), each resolved. */
  function FlattenRoute(item: Entries): (r: Entries)
    ensures !RouteFlattened(item) ==> r == item
    ensures RouteFlattened(item) ==>
      var route := Get(item, "route");
      && Get(r, "routeParameters") == Resolve(Index(route, "parameters"))
      && Get(r, "routeAbsolute") == Resolve(Index(route, "absolute"))
      && Get(r, "route") == Resolve(Index(route, "name"))
      && KeySet(r) == KeySet(item) + RouteKeys
    ensures forall k :: k !in RouteKeys ==> Get(r, k) == Get(item, k)
    ensures DistinctKeys(item) ==> DistinctKeys(r)
  {
    var route := Get(item, "route");
    if Isset(route, "parameters") then
      var withParameters := Set(item, "routeParameters", Resolve(Index(route, "parameters")));
      var withAbsolute := Set(withParameters, "routeAbsolute", Resolve(Index(route, "absolute")));
      Set(withAbsolute, "route", Resolve(Index(route, "name")))
    else
      item
  }

  /** Resolves `options` and merges it under the item (`array_merge` with
      the item second), then drops the `options` key. The merge needs an
      array of options. */
  function MergeOptions(item: Entries): (r: Result<Entries, Error>)
    ensures r.Success? <==> Get(item, "options").Arr?
    ensures r.Success? ==>
      && "options" !in KeySet(r.value)
      && KeySet(r.value) == KeySet(item) + KeySet(Get(item, "options").entries) - {"options"}
  {
    var options := Resolve(Get(item, "options"));
    if options.Arr? then
      Success(Unset(Merge(options.entries, Set(item, "options", options)), "options"))
    else
      Failure(TypeError("options"))
  }

  /** The attributes an item is compiled from: the route flattened and the
      options merged in. */
  function Prepare(item: Entries): Result<Entries, Error> {
    MergeOptions(FlattenRoute(item))
  }

  /** Explicit item keys win over option keys: after the merge, a key the
      (route-flattened) item sets keeps the item's value, and a key only the
      options set takes the resolved option value. */
  lemma ExplicitKeysWin(item: Entries, k: string)
    requires DistinctKeys(item)
    requires Prepare(item).Success?
    requires k != "options"
    ensures
      var flat := FlattenRoute(item);
      var options := Resolve(Get(item, "options")).entries;
      Get(Prepare(item).value, k) == if k in KeySet(flat) then Get(flat, k) else Get(options, k)
  {
    var flat := FlattenRoute(item);
    var options := Resolve(Get(item, "options"));
    var withOptions := Set(flat, "options", options);
    if k in KeySet(flat) {
      MergePrefersSecond(options.entries, withOptions, k);
    }
  }

  /** A key written directly on the item, other than `options` and the route
      keys, reaches the compiled attributes unchanged. */
  lemma ItemKeyKept(item: Entries, k: string)
    requires DistinctKeys(item)
    requires Prepare(item).Success?
    requires k in KeySet(item) && k != "options" && k !in RouteKeys
    ensures Get(Prepare(item).value, k) == Get(item, k)
  {
    ExplicitKeysWin(item, k);
  }

  // ---------------------------------------------------------------------
  // Sizes: every value of the prepared attributes is no larger than the item
  // ---------------------------------------------------------------------

  /** Every value stored in `es` has size at most `n`. */
  ghost predicate Within(es: Entries, n: nat) {
    |es| == 0 || (Size(es[0].1) <= n && Within(es[1..], n))
  }

  lemma {:induction false} EntriesWithin(es: Entries, n: nat)
    requires EntriesSize(es) <= n
    ensures Within(es, n)
  {
    if |es| > 0 {
      EntriesWithin(es[1..], n);
    }
  }

  lemma {:induction false} GetWithin(es: Entries, k: string, n: nat)
    requires Within(es, n) && k in KeySet(es)
    ensures Size(Get(es, k)) <= n
  {
    if es[0].0 != k {
      GetWithin(es[1..], k, n);
    }
  }

  lemma {:induction false} SetWithin(es: Entries, k: string, v: Value, n: nat)
    requires Within(es, n) && Size(v) <= n
    ensures Within(Set(es, k, v), n)
  {
    if |es| > 0 && es[0].0 != k {
      SetWithin(es[1..], k, v, n);
      assert Set(es, k, v)[1..] == Set(es[1..], k, v);
    }
  }

  lemma {:induction false} UnsetWithin(es: Entries, k: string, n: nat)
    requires Within(es, n)
    ensures Within(Unset(es, k), n)
  {
    if |es| > 0 {
      UnsetWithin(es[1..], k, n);
      if es[0].0 != k {
        assert Unset(es, k)[1..] == Unset(es[1..], k);
      }
    }
  }

  lemma {:induction false} MergeWithin(a: Entries, b: Entries, n: nat)
    requires Within(a, n) && Within(b, n)
    ensures Within(Merge(a, b), n)
    decreases |b|
  {
    if |b| > 0 {
      SetWithin(a, b[0].0, b[0].1, n);
      MergeWithin(Set(a, b[0].0, b[0].1), b[1..], n);
    }
  }

  /** Every value of the prepared attributes is no larger than the item's
      entries, so the children found there are smaller than the item. */
  lemma PreparedWithin(item: Entries)
    requires Prepare(item).Success?
    ensures Within(Prepare(item).value, EntriesSize(item))
  {
    var n := EntriesSize(item);
    EntriesWithin(item, n);
    var route := Get(item, "route");
    var flat := FlattenRoute(item);
    if RouteFlattened(item) {
      GetWithin(item, "route", n);
      IndexSize(route, "parameters");
      IndexSize(route, "absolute");
      IndexSize(route, "name");
      var withParameters := Set(item, "routeParameters", Resolve(Index(route, "parameters")));
      SetWithin(item, "routeParameters", Resolve(Index(route, "parameters")), n);
      var withAbsolute := Set(withParameters, "routeAbsolute", Resolve(Index(route, "absolute")));
      SetWithin(withParameters, "routeAbsolute", Resolve(Index(route, "absolute")), n);
      SetWithin(withAbsolute, "route", Resolve(Index(route, "name")), n);
    }
    assert Within(flat, n);
    var options := Resolve(Get(flat, "options"));
    GetWithin(flat, "options", n);
    EntriesWithin(options.entries, n);
    SetWithin(flat, "options", options, n);
    var withOptions := Set(flat, "options", options);
    MergeWithin(options.entries, withOptions, n);
    UnsetWithin(Merge(options.entries, withOptions), "options", n);
  }

  // ---------------------------------------------------------------------
  // The decision
  // ---------------------------------------------------------------------

  predicate ServiceSet(m: Entries) { !Empty(Get(m, "service")) }
  predicate MethodSet(m: Entries) { !Empty(Index(Get(m, "service"), "method")) }
  predicate ExpressionSet(m: Entries) { !Empty(Get(m, "expression")) }
  predicate ChildrenSet(m: Entries) { !Empty(Get(m, "children")) }

  /** The item attributes without the `children` and `expression` keys. */
  function Attributes(m: Entries): (r: Entries)
    ensures KeySet(r) == KeySet(m) - {"children", "expression"}
    ensures forall k :: k != "children" && k != "expression" ==> Get(r, k) == Get(m, k)
  {
    Unset(Unset(m, "children"), "expression")
  }

  /** The arguments of a service factory call: the resolved `parameters`,
      a single value wrapped into a one-element list, none when unset. */
  function ServiceArguments(service: Value): (r: Entries)
    ensures !Isset(service, "parameters") ==> r == []
    ensures Index(service, "parameters").Arr? ==>
      var ps := Index(service, "parameters").entries;
      && |r| == |ps|
      && forall i :: 0 <= i < |ps| ==> r[i] == (ps[i].0, Resolve(ps[i].1))
    ensures Isset(service, "parameters") && !Index(service, "parameters").Arr? ==>
      |r| == 1 && r[0].0 == "0" && !r[0].1.Arr?
      && (Index(service, "parameters").Str? || r[0].1 == Index(service, "parameters"))
    ensures Isset(service, "parameters") && !Index(service, "parameters").Arr? ==>
      r == [("0", Resolve(Index(service, "parameters")))]
  {
    if Isset(service, "parameters") then
      var parameters := Resolve(Index(service, "parameters"));
      if parameters.Arr? then
        ResolveEntriesPointwise(Index(service, "parameters").entries);
        parameters.entries
      else [("0", parameters)]
    else
      []
  }

  /** `createMenuItem`: a definition built by `knp_menu.factory->createItem(name, options)`,
      the options without `children`. */
  function CreateMenuItem(name: string, options: Entries): (r: Instr)
    ensures r.Def? && r.className == MenuFactoryClass && r.calls == [] && r.tags == []
    ensures r.factoryService == Str(MenuFactoryService) && r.factoryMethod == Str(CreateItemMethod)
    ensures |r.args| == 2 && r.args[0] == ("0", Str(name)) && r.args[1].0 == "1"
    ensures r.args[1].1.Arr? && KeySet(r.args[1].1.entries) == KeySet(options) - {"children"}
    ensures forall k :: k != "children" ==> Get(r.args[1].1.entries, k) == Get(options, k)
  {
    Def(MenuFactoryClass, Str(MenuFactoryService), Str(CreateItemMethod),
        [("0", Str(name)), ("1", Arr(Unset(options, "children")))], [], [])
  }

  /** The call that attaches a compiled child: named when the child is a
      plain attribute array, unnamed otherwise. */
  function ChildCall(name: string, child: Instr): (c: Call)
    ensures c.child == child
    ensures c.name.Some? <==> child.Plain?
    ensures c.name.Some? ==> c.name.value == name
  {
    if child.Plain? then AddChild(Some(name), child) else AddChild(None, child)
  }

  /** `validateMenuItemConfig`: the item schema is not part of this model;
      the item must be an array and is taken as it is. */
  function ValidateItem(raw: Value): (r: Result<Entries, Error>)
    ensures r.Success? <==> raw.Arr?
    ensures r.Success? ==> r.value == raw.entries
  {
    if raw.Arr? then Success(raw.entries) else Failure(TypeError("menu item"))
  }

  /** `createMenuItemDefinition(name, item)`. */
  function CompileItem(name: string, item: Entries): (r: Result<Instr, Error>)
    ensures r.Success? && r.value.Plain? ==>
      var ks := KeySet(r.value.entries);
      "children" !in ks && "expression" !in ks && "options" !in ks
    ensures r.Success? && r.value.Def? && r.value.className == MenuFactoryClass ==>
      |r.value.args| == 2 && r.value.args[0] == ("0", Str(name))
      && r.value.args[1].1.Arr?
      && var ks := KeySet(r.value.args[1].1.entries);
        "children" !in ks && "expression" !in ks && "options" !in ks
    ensures r.Failure? ==> r.error.TypeError?
    decreases EntriesSize(item), 2
  {
    match Prepare(item)
    case Failure(e) => Failure(e)
    case Success(m) =>
      if ServiceSet(m) then
        var service := Get(m, "service");
        if !MethodSet(m) then
          Success(Ref(Index(service, "id")))
        else
          Success(Def(ServiceFactoryClass, Index(service, "id"), Index(service, "method"),
                      ServiceArguments(service), [], []))
      else if ExpressionSet(m) then
        Success(Expression(Get(m, "expression")))
      else if ChildrenSet(m) then
        PreparedWithin(item);
        GetWithin(m, "children", EntriesSize(item));
        BuildMenuDefinition(CreateMenuItem(name, Attributes(m)), Get(m, "children"))
      else
        Success(Plain(Attributes(m)))
  }

  /** `buildMenuDefinition(definition, items)`: one `addChild` call per item
      appended to the definition's calls. */
  function BuildMenuDefinition(definition: Instr, items: Value): (r: Result<Instr, Error>)
    requires definition.Def?
    ensures r.Success? <==> items.Arr? && ChildCalls(items.entries).Success?
    ensures r.Success? ==>
      && r.value.Def?
      && r.value == definition.(calls := r.value.calls)
      && |r.value.calls| == |definition.calls| + |items.entries|
      && r.value.calls[..|definition.calls|] == definition.calls
      && r.value.calls == definition.calls + ChildCalls(items.entries).value
    ensures r.Failure? ==> r.error.TypeError?
    decreases Size(items), 1
  {
    if !items.Arr? then Failure(TypeError("menu items"))
    else
      var calls :- ChildCalls(items.entries);
      Success(definition.(calls := definition.calls + calls))
  }

  /** The `addChild` calls for a list of items, in the list's order. */
  function ChildCalls(items: Entries): (r: Result<seq<Call>, Error>)
    ensures r.Success? ==> |r.value| == |items|
    ensures r.Success? ==> forall i :: 0 <= i < |items| ==>
      r.value[i].name == (if r.value[i].child.Plain? then Some(items[i].0) else None)
    ensures r.Failure? ==> r.error.TypeError?
    decreases EntriesSize(items), 0
  {
    if |items| == 0 then Success([])
    else
      var entry := items[0];
      var item :- ValidateItem(entry.1);
      assert EntriesSize(items) == Size(entry.1) + EntriesSize(items[1..]);
      var child :- CompileItem(entry.0, item);
      var rest :- ChildCalls(items[1..]);
      Success([ChildCall(entry.0, child)] + rest)
  }

  // ---------------------------------------------------------------------
  // Properties of the decision and of the child calls
  // ---------------------------------------------------------------------

  /** The precedence of the decision, read off the compiled result: a set
      service always decides, then an expression, then children; an item
      with none of them stays a plain attribute array. Once the attributes
      are prepared, only an item with children can still fail. */
  lemma DecisionOrder(name: string, item: Entries)
    requires Prepare(item).Success?
    ensures
      var m := Prepare(item).value;
      var r := CompileItem(name, item);
      && (r.Success? && r.value.Ref? <==> ServiceSet(m) && !MethodSet(m))
      && ((r.Success? && r.value.Def? && r.value.className == ServiceFactoryClass)
            <==> ServiceSet(m) && MethodSet(m))
      && (r.Success? && r.value.Expression? <==> !ServiceSet(m) && ExpressionSet(m))
      && ((r.Success? && r.value.Def? && r.value.className == MenuFactoryClass)
            <==> !ServiceSet(m) && !ExpressionSet(m) && ChildrenSet(m) && r.Success?)
      && (r.Success? && r.value.Plain? <==> !ServiceSet(m) && !ExpressionSet(m) && !ChildrenSet(m))
      && (r.Failure? ==> !ServiceSet(m) && !ExpressionSet(m) && ChildrenSet(m))
  {
  }

  /** A set service wins over an expression and over children. Without a
      method it is exactly a reference to the service id; with one it is a
      `stdClass` definition whose factory is (id, method) and whose
      arguments are the resolved parameters. */
  lemma ServiceWins(name: string, item: Entries)
    requires Prepare(item).Success? && ServiceSet(Prepare(item).value)
    ensures
      var m := Prepare(item).value;
      var service := Get(m, "service");
      var r := CompileItem(name, item);
      && (!MethodSet(m) ==> r == Success(Ref(Index(service, "id"))))
      && (MethodSet(m) ==>
            && r.Success? && r.value.Def?
            && r.value.className == ServiceFactoryClass
            && r.value.factoryService == Index(service, "id")
            && r.value.factoryMethod == Index(service, "method")
            && r.value.args == ServiceArguments(service)
            && r.value.calls == [] && r.value.tags == [])
  {
  }

  /** Without a service, a set expression yields an expression object over
      the configured text. */
  lemma ExpressionItem(name: string, item: Entries)
    requires Prepare(item).Success?
    requires !ServiceSet(Prepare(item).value) && ExpressionSet(Prepare(item).value)
    ensures CompileItem(name, item) == Success(Expression(Get(Prepare(item).value, "expression")))
  {
  }

  /** Without a service or an expression, set children make a `createItem`
      definition named after the item, whose options are the attributes
      without `children` and `expression`, with one `addChild` call per
      child in the children's order. */
  lemma ParentItem(name: string, item: Entries)
    requires Prepare(item).Success?
    requires
      var m := Prepare(item).value;
      !ServiceSet(m) && !ExpressionSet(m) && ChildrenSet(m)
    ensures
      var m := Prepare(item).value;
      var children := Get(m, "children");
      var r := CompileItem(name, item);
      && (r.Success? <==> children.Arr? && ChildCalls(children.entries).Success?)
      && (r.Success? ==>
            r.value == CreateMenuItem(name, Attributes(m)).(calls := ChildCalls(children.entries).value))
  {
  }

  /** An item with no service, expression or children is its attribute
      array, without `children` and `expression`. */
  lemma PlainItem(name: string, item: Entries)
    requires Prepare(item).Success?
    requires
      var m := Prepare(item).value;
      !ServiceSet(m) && !ExpressionSet(m) && !ChildrenSet(m)
    ensures CompileItem(name, item) == Success(Plain(Attributes(Prepare(item).value)))
  {
  }

  /** The item `raw` under `name` is an array that compiles. */
  predicate Compiles(name: string, raw: Value) {
    raw.Arr? && CompileItem(name, raw.entries).Success?
  }

  /** The calls for a non-empty list succeed exactly when its first item
      compiles and the calls for the rest succeed. */
  lemma ChildCallsStep(items: Entries)
    requires |items| > 0
    ensures ChildCalls(items).Success? <==> Compiles(items[0].0, items[0].1) && ChildCalls(items[1..]).Success?
  {
    var entry := items[0];
    if ValidateItem(entry.1).Success? {
      var child := CompileItem(entry.0, entry.1.entries);
      if child.Success? {
        var rest := ChildCalls(items[1..]);
        if rest.Success? {
          assert ChildCalls(items) == Success([ChildCall(entry.0, child.value)] + rest.value);
        } else {
          assert ChildCalls(items) == Failure(rest.error);
        }
      } else {
        assert ChildCalls(items) == Failure(child.error);
      }
    } else {
      assert ChildCalls(items).Failure?;
    }
  }

  /** The `addChild` calls succeed exactly when every item is an array that
      compiles. */
  lemma {:induction false} ChildCallsSucceed(items: Entries)
    ensures ChildCalls(items).Success? <==> forall i :: 0 <= i < |items| ==> Compiles(items[i].0, items[i].1)
  {
    if |items| > 0 {
      var rest := items[1..];
      ChildCallsStep(items);
      ChildCallsSucceed(rest);
      if Compiles(items[0].0, items[0].1) && ChildCalls(rest).Failure? {
        var j :| 0 <= j < |rest| && !Compiles(rest[j].0, rest[j].1);
        assert rest[j].0 == items[j + 1].0 && rest[j].1 == items[j + 1].1;
      } else if Compiles(items[0].0, items[0].1) {
        forall i | 0 < i < |items|
          ensures Compiles(items[i].0, items[i].1)
        {
          assert items[i].0 == rest[i - 1].0 && items[i].1 == rest[i - 1].1;
        }
      }
    }
  }

  /** The call attaching the compiled item `entry`. */
  function CompiledCall(entry: (string, Value)): Call
    requires Compiles(entry.0, entry.1)
  {
    ChildCall(entry.0, CompileItem(entry.0, entry.1.entries).value)
  }

  /** Successful calls for a non-empty list start with the first item's call. */
  lemma ChildCallsCons(items: Entries)
    requires |items| > 0 && ChildCalls(items).Success?
    ensures Compiles(items[0].0, items[0].1) && ChildCalls(items[1..]).Success?
    ensures ChildCalls(items).value == [CompiledCall(items[0])] + ChildCalls(items[1..]).value
  {
    var entry := items[0];
    assert ValidateItem(entry.1).Success?;
    var child := CompileItem(entry.0, entry.1.entries);
    assert child.Success?;
    var rest := ChildCalls(items[1..]);
    assert rest.Success?;
    assert ChildCalls(items) == Success([ChildCall(entry.0, child.value)] + rest.value);
  }

  /** Successful `addChild` calls attach the compiled items one by one, in
      the items' order: the i-th call attaches the i-th compiled item. */
  lemma {:induction false} ChildCallsInOrder(items: Entries)
    requires ChildCalls(items).Success?
    ensures forall i :: 0 <= i < |items| ==>
      Compiles(items[i].0, items[i].1) && ChildCalls(items).value[i] == CompiledCall(items[i])
  {
    if |items| > 0 {
      var rest := items[1..];
      ChildCallsCons(items);
      ChildCallsInOrder(rest);
      forall i | 0 < i < |items|
        ensures Compiles(items[i].0, items[i].1) && ChildCalls(items).value[i] == CompiledCall(items[i])
      {
        assert items[i] == rest[i - 1];
      }
    }
  }
}
