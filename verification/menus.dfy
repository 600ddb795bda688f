/**
  Registration of menus (`registerMenus`): one tagged `createItem('root', ...)`
  definition per configured menu, with one `addChild` call per menu item.
 */
module Menus {
  import opened Results
  import opened PhpValues
  import opened Resolver
  import opened Definitions
  import opened MenuItems

  /** The menu with its options resolved and merged under it (the menu's own
      keys win). Unlike an item, the menu keeps its `options` key. */
  function MergedMenu(menu: Entries): (r: Result<Entries, Error>)
    ensures r.Success? <==> Get(menu, "options").Arr?
    ensures r.Success? ==> KeySet(r.value) == KeySet(menu) + KeySet(Get(menu, "options").entries) + {"options"}
  {
    var options := Resolve(Get(menu, "options"));
    if options.Arr? then
      Success(Merge(options.entries, Set(menu, "options", options)))
    else
      Failure(TypeError("menu options"))
  }

  /** What the merged menu holds: the menu's own keys win, `options` holds
      the resolved options, and a key only the options set takes the
      resolved option value. */
  lemma MenuKeysWin(menu: Entries, k: string)
    requires DistinctKeys(menu)
    requires MergedMenu(menu).Success?
    ensures
      var merged := MergedMenu(menu).value;
      var options := Resolve(Get(menu, "options"));
      && (k == "options" ==> Get(merged, k) == options)
      && (k != "options" && k in KeySet(menu) ==> Get(merged, k) == Get(menu, k))
      && (k != "options" && k !in KeySet(menu) ==> Get(merged, k) == Index(options, k))
  {
    var options := Resolve(Get(menu, "options"));
    var withOptions := Set(menu, "options", options);
    if k == "options" || k in KeySet(menu) {
      MergePrefersSecond(options.entries, withOptions, k);
    }
  }

  /** The root definition of one menu. The whole merged menu is resolved
      once more before it becomes the root's options, so the menu options
      are resolved twice; the items are compiled from the merged menu as
      it was before that second resolution. */
  function MenuRoot(name: string, menu: Value): (r: Result<Instr, Error>)
    ensures r.Success? ==>
      && r.value.Def?
      && r.value.className == MenuFactoryClass
      && r.value.factoryService == Str(MenuFactoryService)
      && r.value.factoryMethod == Str(CreateItemMethod)
      && |r.value.args| == 2
      && r.value.args[0] == ("0", Str("root"))
      && r.value.args[1].1.Arr?
      && "children" !in KeySet(r.value.args[1].1.entries)
      && r.value.tags == [Tag(MenuTag, name)]
  {
    if !menu.Arr? then Failure(TypeError("menu"))
    else
      var merged :- MergedMenu(menu.entries);
      var root := CreateMenuItem("root", Resolve(Arr(merged)).entries).(tags := [Tag(MenuTag, name)]);
      BuildMenuDefinition(root, Get(merged, "items"))
  }

  /** `registerMenus`: every menu registered under `rollerworks_navigation.menu.<name>`,
      in the menus' order; the first menu that fails aborts the registration. */
  function RegisterMenus(menus: Entries): (r: Result<Plan, Error>)
    ensures r.Success? ==> |r.value| == |menus|
    ensures r.Success? ==> forall i :: 0 <= i < |menus| ==>
      && r.value[i].0 == MenuPrefix + menus[i].0
      && MenuRoot(menus[i].0, menus[i].1) == Success(r.value[i].1)
  {
    if |menus| == 0 then Success([])
    else
      var root := MenuRoot(menus[0].0, menus[0].1);
      if root.Failure? then Failure(root.error)
      else
        var rest := RegisterMenus(menus[1..]);
        if rest.Failure? then Failure(rest.error)
        else
          var plan := [(MenuPrefix + menus[0].0, root.value)] + rest.value;
          assert forall i :: 1 <= i < |menus| ==> plan[i] == rest.value[i - 1];
          Success(plan)
  }

  /** One step of the registration: a failing first menu aborts it with its
      error, and after a menu that succeeds the rest decides. */
  lemma RegisterMenusStep(menus: Entries)
    requires |menus| > 0
    ensures
      var root := MenuRoot(menus[0].0, menus[0].1);
      var r := RegisterMenus(menus);
      var rest := RegisterMenus(menus[1..]);
      && (root.Failure? ==> r == Failure(root.error))
      && (root.Success? ==> (r.Failure? <==> rest.Failure?) && (rest.Failure? ==> r.error == rest.error))
  {
  }

  /** A failed registration reports the error of the first menu that fails. */
  lemma {:induction false} FirstFailingMenu(menus: Entries)
    requires RegisterMenus(menus).Failure?
    ensures exists i :: (0 <= i < |menus|
      && MenuRoot(menus[i].0, menus[i].1) == Failure(RegisterMenus(menus).error)
      && forall j :: 0 <= j < i ==> MenuRoot(menus[j].0, menus[j].1).Success?)
  {
    RegisterMenusStep(menus);
    var e := RegisterMenus(menus).error;
    if MenuRoot(menus[0].0, menus[0].1).Success? {
      var rest := menus[1..];
      FirstFailingMenu(rest);
      var i :| 0 <= i < |rest|
        && MenuRoot(rest[i].0, rest[i].1) == Failure(RegisterMenus(rest).error)
        && forall j :: 0 <= j < i ==> MenuRoot(rest[j].0, rest[j].1).Success?;
      FirstFailingShift(menus, i, e);
      assert 0 <= i + 1 < |menus| && MenuRoot(menus[i + 1].0, menus[i + 1].1) == Failure(e);
    } else {
      assert MenuRoot(menus[0].0, menus[0].1) == Failure(e);
    }
  }

  /** The first failing menu of the rest, one place further on. */
  lemma FirstFailingShift(menus: Entries, i: nat, e: Error)
    requires |menus| > 0 && MenuRoot(menus[0].0, menus[0].1).Success?
    requires i < |menus| - 1 && MenuRoot(menus[1..][i].0, menus[1..][i].1) == Failure(e)
    requires forall j :: 0 <= j < i ==> MenuRoot(menus[1..][j].0, menus[1..][j].1).Success?
    ensures MenuRoot(menus[i + 1].0, menus[i + 1].1) == Failure(e)
    ensures forall j :: 0 <= j < i + 1 ==> MenuRoot(menus[j].0, menus[j].1).Success?
  {
    var m := menus[i + 1];
    assert m.0 == menus[1..][i].0 && m.1 == menus[1..][i].1;
    forall j | 0 < j < i + 1
      ensures MenuRoot(menus[j].0, menus[j].1).Success?
    {
      var p := menus[j];
      assert p.0 == menus[1..][j - 1].0 && p.1 == menus[1..][j - 1].1;
    }
  }

  /** The calls of a menu root are the `addChild` calls of the menu's items,
      one per item in the items' order; the root exists exactly when the
      items form an array whose every item compiles. */
  lemma MenuItemsInOrder(name: string, menu: Value)
    requires menu.Arr? && MergedMenu(menu.entries).Success?
    ensures
      var items := Get(MergedMenu(menu.entries).value, "items");
      var r := MenuRoot(name, menu);
      && (r.Success? <==> items.Arr? && forall i :: 0 <= i < |items.entries| ==> Compiles(items.entries[i].0, items.entries[i].1))
      && (r.Success? ==> |r.value.calls| == |items.entries| && forall i :: 0 <= i < |items.entries| ==>
            r.value.calls[i] == ChildCall(items.entries[i].0, CompileItem(items.entries[i].0, items.entries[i].1.entries).value))
  {
    var items := Get(MergedMenu(menu.entries).value, "items");
    if items.Arr? {
      ChildCallsSucceed(items.entries);
      if ChildCalls(items.entries).Success? {
        ChildCallsInOrder(items.entries);
      }
    }
  }

  /** What the root's options hold: the menu's own keys resolved once; the
      `options` key, and every key only the options set, resolved twice. */
  lemma MenuRootOptions(name: string, menu: Value, k: string)
    requires menu.Arr? && DistinctKeys(menu.entries)
    requires MenuRoot(name, menu).Success?
    requires k != "children"
    ensures
      var options := Get(menu.entries, "options");
      var rootOptions := MenuRoot(name, menu).value.args[1].1.entries;
      && (k == "options" ==> Get(rootOptions, k) == Resolve(Resolve(options)))
      && (k != "options" && k in KeySet(menu.entries) ==> Get(rootOptions, k) == Resolve(Get(menu.entries, k)))
      && (k !in KeySet(menu.entries) ==> Get(rootOptions, k) == Resolve(Resolve(Index(options, k))))
  {
    var options := Resolve(Get(menu.entries, "options"));
    var withOptions := Set(menu.entries, "options", options);
    var merged := Merge(options.entries, withOptions);
    var resolved := ResolveEntries(merged);
    var root := CreateMenuItem("root", resolved).(tags := [Tag(MenuTag, name)]);
    assert MergedMenu(menu.entries) == Success(merged);
    assert MenuRoot(name, menu) == BuildMenuDefinition(root, Get(merged, "items"));
    assert MenuRoot(name, menu).value.args[1].1.entries == Unset(resolved, "children");
    ResolveGet(merged, k);
    if k in KeySet(withOptions) {
      MergePrefersSecond(options.entries, withOptions, k);
    } else {
      ResolveGet(Get(menu.entries, "options").entries, k);
    }
  }

  /** The escape `@@` does not survive in menu options: an option only the
      options set, written `@@source`, reaches the root as the expression
      `source`. */
  lemma EscapedMenuOptionBecomesExpression(name: string, menu: Value, k: string, source: string)
    requires menu.Arr? && DistinctKeys(menu.entries)
    requires MenuRoot(name, menu).Success?
    requires k != "children" && k !in KeySet(menu.entries)
    requires Index(Get(menu.entries, "options"), k) == Str([Marker, Marker] + source)
    requires !StartsWithMarker(source)
    ensures Get(MenuRoot(name, menu).value.args[1].1.entries, k) == Expr(source)
  {
    MenuRootOptions(name, menu, k);
    ResolveTwiceTurnsEscapeIntoExpression(source);
  }

  /** In item options the escape works: an option only the options set,
      written `@@source`, reaches the item's attributes as the literal
      `@source`. */
  lemma EscapedItemOptionStaysLiteral(item: Entries, k: string, source: string)
    requires DistinctKeys(item) && Prepare(item).Success?
    requires k != "options" && k !in KeySet(item) && k !in RouteKeys
    requires Index(Get(item, "options"), k) == Str([Marker, Marker] + source)
    requires !StartsWithMarker(source)
    ensures Get(Prepare(item).value, k) == Str([Marker] + source)
  {
    ExplicitKeysWin(item, k);
    ResolveGet(Get(item, "options").entries, k);
    ResolveTwiceTurnsEscapeIntoExpression(source);
  }
}
