/**
  Worked breadcrumb configurations. Every breadcrumb carries the empty
  `options` array the configuration gives it by default; `CrumbCompiles`
  shows what `createMenuItemDefinition` makes of such a breadcrumb, and the
  walks below hold for any item compiler that does the same.
 */
module BreadcrumbExamples {
  import opened Results
  import opened PhpValues
  import opened Definitions
  import opened MenuItems
  import opened Breadcrumbs

  /** The item compiler registration uses, as a breadcrumb compiler. */
  const ItemCompiler: Compiler := CompileItem

  /** A breadcrumb with no attributes besides its parent. */
  function Crumb(parent: Value): Value {
    Arr([("options", Arr([])), ("parent", parent)])
  }

  lemma CrumbNotRouted(parent: Value)
    ensures FlattenRoute(Crumb(parent).entries) == Crumb(parent).entries
  {
  }

  lemma CrumbOptionsMerged(parent: Value)
    ensures Merge([], Crumb(parent).entries) == Crumb(parent).entries
  {
    var o := ("options", Arr([]));
    var p := ("parent", parent);
    assert Set([], o.0, o.1) == [o];
    assert Set([o], p.0, p.1) == [o, p];
    assert Crumb(parent).entries[1..] == [p];
    assert Merge([o], [p]) == Merge([o, p], []);
  }

  /** Preparing such a breadcrumb drops the empty options. */
  lemma CrumbPrepared(parent: Value)
    ensures Prepare(Crumb(parent).entries) == Success([("parent", parent)])
  {
    var item := Crumb(parent).entries;
    CrumbNotRouted(parent);
    CrumbOptionsMerged(parent);
    assert Set(item, "options", Arr([])) == item;
    assert Unset(item, "options") == [("parent", parent)];
  }

  /** Such a breadcrumb compiles to the attribute array holding its parent. */
  lemma CrumbCompiles(name: string, parent: Value)
    ensures CompileItem(name, Crumb(parent).entries) == Success(Plain([("parent", parent)]))
  {
    CrumbPrepared(parent);
    var m := [("parent", parent)];
    assert Attributes(m) == m;
    PlainItem(name, Crumb(parent).entries);
  }

  // ---------------------------------------------------------------------
  // x -> y -> x
  // ---------------------------------------------------------------------

  function Cycle(): Entries {
    [("x", Crumb(Str("y"))), ("y", Crumb(Str("x")))]
  }

  lemma CycleLookup()
    ensures Isset(Arr(Cycle()), "x") && Isset(Arr(Cycle()), "y")
    ensures Get(Cycle(), "y") == Crumb(Str("x"))
  {
  }

  lemma CycleAtY(compile: Compiler)
    requires compile("y", Crumb(Str("x")).entries).Success?
    ensures Walk(compile, Cycle(), "y", Crumb(Str("x")), ["x"]) == Failure(CircularReference("y", ["x", "y"]))
  {
    CycleLookup();
    assert Parent(Crumb(Str("x"))) == Str("x");
    assert ["x"] + ["y"] == ["x", "y"];
  }

  /** `x` names `y` as parent and `y` names `x`: linking `x` fails at `y`,
      whose parent `x` is already on the path `x -> y`. */
  lemma TwoCycle(compile: Compiler)
    requires compile("x", Crumb(Str("y")).entries).Success?
    requires compile("y", Crumb(Str("x")).entries).Success?
    ensures Linked(compile, Cycle(), 0) == Failure(CircularReference("y", ["x", "y"]))
  {
    CycleAtY(compile);
    CycleLookup();
    assert Parent(Crumb(Str("y"))) == Str("y");
    var none: seq<string> := [];
    assert none + ["x"] == ["x"];
    assert "y" !in none + ["x"];
  }

  /** The same, with the item compiler that registration uses. */
  lemma TwoCycleCompiled()
    ensures Linked(ItemCompiler, Cycle(), 0) == Failure(CircularReference("y", ["x", "y"]))
  {
    CrumbCompiles("x", Str("y"));
    CrumbCompiles("y", Str("x"));
    TwoCycle(ItemCompiler);
  }

  lemma CycleMessage()
    ensures Message(CircularReference("y", ["x", "y"]))
      == "Circular reference detected with parent of breadcrumb \"y\", path: \"x -> y\"."
  {
    assert Join(["x", "y"], " -> ") == "x -> y" by {
      assert ["x", "y"][1..] == ["y"];
    }
    var head := "Circular reference detected with parent of breadcrumb \"" + "y";
    assert head == "Circular reference detected with parent of breadcrumb \"y";
    var middle := head + "\", path: \"";
    assert middle == "Circular reference detected with parent of breadcrumb \"y\", path: \"";
    var body := middle + "x -> y";
    assert body == "Circular reference detected with parent of breadcrumb \"y\", path: \"x -> y";
  }

  // ---------------------------------------------------------------------
  // w -> x -> y -> x
  // ---------------------------------------------------------------------

  function Lead(): Entries {
    [("x", Crumb(Str("y"))), ("y", Crumb(Str("x"))), ("w", Crumb(Str("x")))]
  }

  lemma LeadLookup()
    ensures Isset(Arr(Lead()), "x") && Isset(Arr(Lead()), "y")
    ensures Get(Lead(), "x") == Crumb(Str("y")) && Get(Lead(), "y") == Crumb(Str("x"))
  {
  }

  lemma LeadAtX(compile: Compiler)
    requires compile("x", Crumb(Str("y")).entries).Success?
    requires compile("y", Crumb(Str("x")).entries).Success?
    ensures Walk(compile, Lead(), "x", Crumb(Str("y")), ["w"]) == Failure(CircularReference("y", ["w", "x", "y"]))
  {
    LeadLookup();
    assert Parent(Crumb(Str("y"))) == Str("y");
    assert Parent(Crumb(Str("x"))) == Str("x");
    assert ["w"] + ["x"] == ["w", "x"] && "y" !in ["w", "x"];
    assert ["w", "x"] + ["y"] == ["w", "x", "y"];
    assert Walk(compile, Lead(), "y", Crumb(Str("x")), ["w", "x"]) == Failure(CircularReference("y", ["w", "x", "y"]));
  }

  /** `w` leads into the cycle `x -> y -> x` without being part of it: the
      report is for `y`, the breadcrumb whose parent closes the cycle, and
      its path starts at `w`. */
  lemma LeadIntoCycle(compile: Compiler)
    requires compile("w", Crumb(Str("x")).entries).Success?
    requires compile("x", Crumb(Str("y")).entries).Success?
    requires compile("y", Crumb(Str("x")).entries).Success?
    ensures Linked(compile, Lead(), 2) == Failure(CircularReference("y", ["w", "x", "y"]))
  {
    LeadAtX(compile);
    LeadLookup();
    var none: seq<string> := [];
    assert none + ["w"] == ["w"] && "x" !in ["w"];
  }

  /** The same, with the item compiler that registration uses. */
  lemma LeadIntoCycleCompiled()
    ensures Linked(ItemCompiler, Lead(), 2) == Failure(CircularReference("y", ["w", "x", "y"]))
  {
    CrumbCompiles("w", Str("x"));
    CrumbCompiles("x", Str("y"));
    CrumbCompiles("y", Str("x"));
    LeadIntoCycle(ItemCompiler);
  }

  // ---------------------------------------------------------------------
  // a -> b -> z, with z not registered
  // ---------------------------------------------------------------------

  function Dangling(): Entries {
    [("a", Crumb(Str("b"))), ("b", Crumb(Str("z")))]
  }

  lemma DanglingLookup()
    ensures Isset(Arr(Dangling()), "b") && !Isset(Arr(Dangling()), "z")
    ensures Get(Dangling(), "b") == Crumb(Str("z"))
  {
  }

  lemma DanglingAtB(compile: Compiler)
    requires compile("b", Crumb(Str("z")).entries).Success?
    ensures Walk(compile, Dangling(), "b", Crumb(Str("z")), ["a"]) == Failure(MissingParent("z", "b"))
  {
    DanglingLookup();
    assert Parent(Crumb(Str("z"))) == Str("z");
  }

  /** `a` names `b` as parent and `b` names the unregistered `z`: the error
      is reported for `b`, the breadcrumb being visited, not for `a`. */
  lemma MissingParentNamesVisitedCrumb(compile: Compiler)
    requires compile("a", Crumb(Str("b")).entries).Success?
    requires compile("b", Crumb(Str("z")).entries).Success?
    ensures Linked(compile, Dangling(), 0) == Failure(MissingParent("z", "b"))
  {
    DanglingAtB(compile);
    DanglingLookup();
    assert Parent(Crumb(Str("b"))) == Str("b");
    var none: seq<string> := [];
    assert none + ["a"] == ["a"];
    assert "b" !in none + ["a"];
  }

  /** The same, with the item compiler that registration uses. */
  lemma MissingParentCompiled()
    ensures Linked(ItemCompiler, Dangling(), 0) == Failure(MissingParent("z", "b"))
  {
    CrumbCompiles("a", Str("b"));
    CrumbCompiles("b", Str("z"));
    MissingParentNamesVisitedCrumb(ItemCompiler);
  }

  lemma DanglingMessage()
    ensures Message(MissingParent("z", "b")) == "Parent \"z\" of breadcrumb \"b\" is not registered."
  {
    var head := "Parent \"" + "z";
    assert head == "Parent \"z";
    var middle := head + "\" of breadcrumb \"" + "b";
    assert middle == "Parent \"z\" of breadcrumb \"b";
  }

  // ---------------------------------------------------------------------
  // b -> a
  // ---------------------------------------------------------------------

  function Chain(): Entries {
    [("a", Crumb(Null)), ("b", Crumb(Str("a")))]
  }

  lemma ChainLookup()
    ensures Isset(Arr(Chain()), "a") && Get(Chain(), "a") == Crumb(Null)
  {
  }

  lemma ChainWalk(compile: Compiler)
    requires compile("a", Crumb(Null).entries) == Success(Plain([("parent", Null)]))
    requires compile("b", Crumb(Str("a")).entries) == Success(Plain([("parent", Str("a"))]))
    ensures Walk(compile, Chain(), "b", Crumb(Str("a")), [])
      == Success([Step("b", Crumb(Str("a")), Plain([("parent", Str("a"))])),
                  Step("a", Crumb(Null), Plain([("parent", Null)]))])
  {
    ChainLookup();
    assert Parent(Crumb(Null)) == Null;
    assert Parent(Crumb(Str("a"))) == Str("a");
    var none: seq<string> := [];
    assert none + ["b"] == ["b"] && "a" !in ["b"];
    var sa := Step("a", Crumb(Null), Plain([("parent", Null)]));
    var sb := Step("b", Crumb(Str("a")), Plain([("parent", Str("a"))]));
    assert Walk(compile, Chain(), "a", Crumb(Null), ["b"]) == Success([sa]);
    assert [sb] + [sa] == [sb, sa];
  }

  /** `b` is a child of the top breadcrumb `a`: the root of `b` attaches `a`
      first and `b` last, each as an attribute array without `parent`. */
  lemma ParentBeforeChild(compile: Compiler)
    requires compile("a", Crumb(Null).entries) == Success(Plain([("parent", Null)]))
    requires compile("b", Crumb(Str("a")).entries) == Success(Plain([("parent", Str("a"))]))
    ensures Linked(compile, Chain(), 1)
      == Success(BreadcrumbRoot("b", [AddChild(Some("a"), Plain([])), AddChild(Some("b"), Plain([]))]))
  {
    ChainWalk(compile);
    var sa := Step("a", Crumb(Null), Plain([("parent", Null)]));
    var sb := Step("b", Crumb(Str("a")), Plain([("parent", Str("a"))]));
    assert CrumbCall("a", sa.instr) == AddChild(Some("a"), Plain([]));
    assert CrumbCall("b", sb.instr) == AddChild(Some("b"), Plain([]));
    assert Reverse(CallsOf([sb, sa])) == [AddChild(Some("a"), Plain([])), AddChild(Some("b"), Plain([]))];
  }

  /** The same, with the item compiler that registration uses. */
  lemma ParentBeforeChildCompiled()
    ensures Linked(ItemCompiler, Chain(), 1)
      == Success(BreadcrumbRoot("b", [AddChild(Some("a"), Plain([])), AddChild(Some("b"), Plain([]))]))
  {
    CrumbCompiles("a", Null);
    CrumbCompiles("b", Str("a"));
    ParentBeforeChild(ItemCompiler);
  }
}
