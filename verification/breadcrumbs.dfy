/**
  Registration of breadcrumbs (`registerBreadcrumbs`). Each breadcrumb's
  `parent` chain is followed through the breadcrumb map, every visited
  breadcrumb is compiled like a menu item, and the collected `addChild`
  calls are reversed so that the topmost ancestor comes first and the
  breadcrumb itself last. A parent that is not registered, or one already
  visited, ends the registration with an error.
 */
module Breadcrumbs {
  import opened Results
  import opened PhpValues
  import opened Definitions
  import opened MenuItems

  /** The item compiler applied to every visited breadcrumb; registration
      uses `createMenuItemDefinition`, modelled by `MenuItems.CompileItem`.
      Compiling an item can only fail on a value of the wrong type. */
  type Compiler = compile: (string, Entries) -> Result<Instr, Error>
    | forall n, e :: compile(n, e).Failure? ==> compile(n, e).error.TypeError?
    witness (n: string, e: Entries) => Success(Plain(e))

  /** A registered name: `isset($breadcrumbs[$name])` holds only for
      registered names (and of those, only for the ones whose configuration
      is not null). */
  lemma IssetRegistered(crumbs: Entries, n: string)
    requires Isset(Arr(crumbs), n)
    ensures n in KeySet(crumbs)
  {
  }

  /** `$breadcrumb['parent']`. */
  function Parent(node: Value): Value {
    Index(node, "parent")
  }

  /** One visited breadcrumb: its name, its configuration and its compiled item. */
  datatype Step = Step(name: string, node: Value, instr: Instr)

  /** The call that attaches a visited breadcrumb: its attribute array
      without `parent`, under its name, or the compiled object unnamed. */
  function CrumbCall(name: string, child: Instr): (c: Call)
    ensures c.name.Some? <==> child.Plain?
    ensures child.Plain? ==>
      && c.name.value == name
      && c.child.Plain?
      && KeySet(c.child.entries) == KeySet(child.entries) - {"parent"}
      && forall k :: k != "parent" ==> Get(c.child.entries, k) == Get(child.entries, k)
    ensures !child.Plain? ==> c.child == child
  {
    if child.Plain? then AddChild(Some(name), Plain(Unset(child.entries, "parent")))
    else AddChild(None, child)
  }

  /** The calls that attach the visited breadcrumbs, in visiting order. */
  function CallsOf(t: seq<Step>): (cs: seq<Call>)
    ensures |cs| == |t|
    ensures forall j :: 0 <= j < |t| ==> cs[j] == CrumbCall(t[j].name, t[j].instr)
  {
    seq(|t|, j requires 0 <= j < |t| => CrumbCall(t[j].name, t[j].instr))
  }

  /** The calls of consecutive stretches of a walk are consecutive. */
  lemma CallsOfAppend(a: seq<Step>, b: seq<Step>)
    ensures CallsOf(a + b) == CallsOf(a) + CallsOf(b)
  {
    assert forall j :: 0 <= j < |a + b| ==> CallsOf(a + b)[j] == (CallsOf(a) + CallsOf(b))[j];
  }

  /** `array_reverse`. */
  function Reverse<T>(s: seq<T>): (r: seq<T>)
    ensures |r| == |s|
    ensures forall j :: 0 <= j < |s| ==> r[j] == s[|s| - 1 - j]
  {
    seq(|s|, j requires 0 <= j < |s| => s[|s| - 1 - j])
  }

  /** Reversing twice gives back the list. */
  lemma ReverseReverse<T>(s: seq<T>)
    ensures Reverse(Reverse(s)) == s
  {
  }

  /** Reversing a concatenation reverses the order of its parts, so what
      is appended last comes out first. */
  lemma ReverseAppend<T>(a: seq<T>, b: seq<T>)
    ensures Reverse(a + b) == Reverse(b) + Reverse(a)
  {
    var r := Reverse(a + b);
    forall j | 0 <= j < |r|
      ensures r[j] == (Reverse(b) + Reverse(a))[j]
    {
      if j < |b| {
        assert r[j] == b[|b| - 1 - j];
      } else {
        assert r[j] == a[|a| - 1 - (j - |b|)];
      }
    }
  }

  /** The names of the visited breadcrumbs, in visiting order. */
  function Names(t: seq<Step>): (ns: seq<string>)
    ensures |ns| == |t|
    ensures forall j :: 0 <= j < |t| ==> ns[j] == t[j].name
  {
    seq(|t|, j requires 0 <= j < |t| => t[j].name)
  }

  ghost predicate Distinct(s: seq<string>) {
    forall j, k :: 0 <= j < k < |s| ==> s[j] != s[k]
  }

  ghost predicate DistinctNames(t: seq<Step>) {
    Distinct(Names(t))
  }

  lemma NamesAppend(a: seq<Step>, b: seq<Step>)
    ensures Names(a + b) == Names(a) + Names(b)
  {
    assert forall j :: 0 <= j < |a + b| ==> Names(a + b)[j] == (Names(a) + Names(b))[j];
  }

  lemma DistinctCons(x: string, s: seq<string>)
    requires x !in s && Distinct(s)
    ensures Distinct([x] + s)
  {
    var r := [x] + s;
    forall j, k | 0 <= j < k < |r|
      ensures r[j] != r[k]
    {
      assert r[k] == s[k - 1];
      if j > 0 {
        assert r[j] == s[j - 1];
      }
    }
  }

  /** `t` is the start of the parent chain of breadcrumb `name`, configured
      as `node`, when the names in `visited` were seen before it: it starts
      at `name`, each later step is the registered parent of the one
      before, no name repeats or was visited, and every step is an array
      that compiles to the step's item. */
  ghost predicate IsPrefix(compile: Compiler, crumbs: Entries, name: string, node: Value, visited: seq<string>, t: seq<Step>) {
    && |t| >= 1
    && t[0].name == name && t[0].node == node
    && (forall j :: 1 <= j < |t| ==> t[j].node == Get(crumbs, t[j].name))
    && (forall j :: 0 <= j < |t| ==> t[j].name in KeySet(crumbs) && t[j].name !in visited)
    && DistinctNames(t)
    && (forall j :: 0 <= j < |t| - 1 ==> Parent(t[j].node) == Str(t[j + 1].name))
    && (forall j :: 0 <= j < |t| ==>
          t[j].node.Arr? && compile(t[j].name, t[j].node.entries) == Success(t[j].instr))
  }

  /** `t` is the whole parent chain: a start of it whose last breadcrumb
      has no parent. */
  ghost predicate IsTrail(compile: Compiler, crumbs: Entries, name: string, node: Value, visited: seq<string>, t: seq<Step>) {
    IsPrefix(compile, crumbs, name, node, visited, t) && Parent(t[|t| - 1].node) == Null
  }

  /** The configuration of a name met on the walk that started at `name`. */
  function NodeNamed(crumbs: Entries, name: string, node: Value, n: string): Value {
    if n == name then node else Get(crumbs, n)
  }

  /** The walk of the `while` loop of `registerBreadcrumbs`, from breadcrumb
      `name` configured as `node`, the names in `visited` already seen. Each
      step moves to a registered name not yet visited, so the set of
      unvisited registered names shrinks and the walk ends. */
  function Walk(compile: Compiler, crumbs: Entries, name: string, node: Value, visited: seq<string>): (r: Result<seq<Step>, Error>)
    requires name in KeySet(crumbs) && name !in visited
    requires forall v :: v in visited ==> v in KeySet(crumbs)
    ensures r.Success? ==> |r.value| >= 1 && r.value[0].name == name && r.value[0].node == node
    decreases KeySet(crumbs) - (set v | v in visited)
  {
    if !node.Arr? then Failure(TypeError("breadcrumb"))
    else
      var instr :- compile(name, node.entries);
      var loaded := visited + [name];
      var parent := Parent(node);
      if parent == Null then Success([Step(name, node, instr)])
      else if !parent.Str? then Failure(TypeError("breadcrumb parent"))
      else if !Isset(Arr(crumbs), parent.s) then Failure(MissingParent(parent.s, name))
      else if parent.s in loaded then Failure(CircularReference(name, loaded))
      else
        IssetRegistered(crumbs, parent.s);
        assert (set v | v in loaded) == (set v | v in visited) + {name};
        var rest :- Walk(compile, crumbs, parent.s, Get(crumbs, parent.s), loaded);
        Success([Step(name, node, instr)] + rest)
  }

  /** A chain extends by one step at its front: a registered, unvisited
      breadcrumb that compiles and names the chain's first breadcrumb as
      its parent. */
  lemma PrefixCons(compile: Compiler, crumbs: Entries, visited: seq<string>, s: Step, rest: seq<Step>)
    requires s.name in KeySet(crumbs) && s.name !in visited
    requires s.node.Arr? && compile(s.name, s.node.entries) == Success(s.instr)
    requires |rest| >= 1 && Parent(s.node) == Str(rest[0].name)
    requires IsPrefix(compile, crumbs, rest[0].name, Get(crumbs, rest[0].name), visited + [s.name], rest)
    ensures IsPrefix(compile, crumbs, s.name, s.node, visited, [s] + rest)
    ensures Names([s] + rest) == [s.name] + Names(rest)
  {
    var t := [s] + rest;
    NamesAppend([s], rest);
    assert Names([s]) == [s.name];
    assert s.name !in Names(rest) by {
      forall j | 0 <= j < |rest|
        ensures Names(rest)[j] != s.name
      {
        assert rest[j].name !in visited + [s.name];
      }
    }
    DistinctCons(s.name, Names(rest));
    forall j | 1 <= j < |t|
      ensures t[j] == rest[j - 1]
    {
    }
  }

  /** The rest of a chain, after its first step, is a chain from the first
      step's parent. */
  lemma PrefixTail(compile: Compiler, crumbs: Entries, name: string, node: Value, visited: seq<string>, t: seq<Step>)
    requires IsPrefix(compile, crumbs, name, node, visited, t) && |t| > 1
    ensures IsPrefix(compile, crumbs, t[1].name, t[1].node, visited + [name], t[1..])
  {
    var rest := t[1..];
    forall j | 0 <= j < |rest|
      ensures rest[j].name !in visited + [name]
    {
      assert Names(t)[j + 1] == rest[j].name && Names(t)[0] == name;
    }
    assert DistinctNames(rest) by {
      forall j, k | 0 <= j < k < |rest|
        ensures Names(rest)[j] != Names(rest)[k]
      {
        assert Names(rest)[j] == Names(t)[j + 1] && Names(rest)[k] == Names(t)[k + 1];
      }
    }
  }

  /** A successful walk returns the parent chain of the breadcrumb. */
  lemma {:induction false} WalkSound(compile: Compiler, crumbs: Entries, name: string, node: Value, visited: seq<string>)
    requires name in KeySet(crumbs) && name !in visited
    requires forall v :: v in visited ==> v in KeySet(crumbs)
    requires Walk(compile, crumbs, name, node, visited).Success?
    ensures IsTrail(compile, crumbs, name, node, visited, Walk(compile, crumbs, name, node, visited).value)
    decreases KeySet(crumbs) - (set v | v in visited)
  {
    var loaded := visited + [name];
    var parent := Parent(node);
    var instr := compile(name, node.entries).value;
    if parent != Null {
      IssetRegistered(crumbs, parent.s);
      assert (set v | v in loaded) == (set v | v in visited) + {name};
      WalkSound(compile, crumbs, parent.s, Get(crumbs, parent.s), loaded);
      var rest := Walk(compile, crumbs, parent.s, Get(crumbs, parent.s), loaded).value;
      assert Walk(compile, crumbs, name, node, visited).value == [Step(name, node, instr)] + rest;
      PrefixCons(compile, crumbs, visited, Step(name, node, instr), rest);
    } else {
      assert Names([Step(name, node, instr)]) == [name];
    }
  }

  /** A chain of one step: a registered, unvisited breadcrumb that compiles. */
  lemma PrefixOne(compile: Compiler, crumbs: Entries, visited: seq<string>, s: Step)
    requires s.name in KeySet(crumbs) && s.name !in visited
    requires s.node.Arr? && compile(s.name, s.node.entries) == Success(s.instr)
    ensures IsPrefix(compile, crumbs, s.name, s.node, visited, [s])
    ensures Names([s]) == [s.name]
  {
    assert Names([s]) == [s.name];
  }

  /** The last breadcrumb of `t` names a parent that is not registered, and
      `e` reports that parent and that breadcrumb. */
  ghost predicate EndsMissing(crumbs: Entries, t: seq<Step>, e: Error) {
    && |t| >= 1
    && Parent(t[|t| - 1].node).Str?
    && !Isset(Arr(crumbs), Parent(t[|t| - 1].node).s)
    && e == MissingParent(Parent(t[|t| - 1].node).s, t[|t| - 1].name)
  }

  /** The last breadcrumb of `t` names a registered parent already among
      the visited names, and `e` reports that breadcrumb with the visited
      names in visiting order. */
  ghost predicate EndsCircular(crumbs: Entries, visited: seq<string>, t: seq<Step>, e: Error) {
    && |t| >= 1
    && Parent(t[|t| - 1].node).Str?
    && Isset(Arr(crumbs), Parent(t[|t| - 1].node).s)
    && Parent(t[|t| - 1].node).s in visited + Names(t)
    && e == CircularReference(t[|t| - 1].name, visited + Names(t))
  }

  /** The walk along the chain `t` from `name` stops with the missing parent `e`. */
  ghost predicate StopsMissing(compile: Compiler, crumbs: Entries, name: string, node: Value, visited: seq<string>, t: seq<Step>, e: Error) {
    IsPrefix(compile, crumbs, name, node, visited, t) && EndsMissing(crumbs, t, e)
  }

  /** The walk along the chain `t` from `name` stops with the circular reference `e`. */
  ghost predicate StopsCircular(compile: Compiler, crumbs: Entries, name: string, node: Value, visited: seq<string>, t: seq<Step>, e: Error) {
    IsPrefix(compile, crumbs, name, node, visited, t) && EndsCircular(crumbs, visited, t, e)
  }

  lemma EndsMissingCons(crumbs: Entries, s: Step, rest: seq<Step>, e: Error)
    requires EndsMissing(crumbs, rest, e)
    ensures EndsMissing(crumbs, [s] + rest, e)
  {
    assert ([s] + rest)[|rest|] == rest[|rest| - 1];
  }

  lemma EndsCircularCons(crumbs: Entries, visited: seq<string>, s: Step, rest: seq<Step>, e: Error)
    requires EndsCircular(crumbs, visited + [s.name], rest, e)
    ensures EndsCircular(crumbs, visited, [s] + rest, e)
  {
    var t := [s] + rest;
    assert t[|t| - 1] == rest[|rest| - 1];
    assert Names(t) == [s.name] + Names(rest);
    assert visited + Names(t) == (visited + [s.name]) + Names(rest);
  }

  /** A missing parent is reported where the walk stops on a stretch of the
      parent chain from `name`: the stretch's last breadcrumb names a parent
      that is not registered, and the report carries both. */
  lemma {:induction false} WalkMissing(compile: Compiler, crumbs: Entries, name: string, node: Value, visited: seq<string>)
    requires name in KeySet(crumbs) && name !in visited
    requires forall v :: v in visited ==> v in KeySet(crumbs)
    requires Walk(compile, crumbs, name, node, visited).Failure?
    requires Walk(compile, crumbs, name, node, visited).error.MissingParent?
    ensures exists t: seq<Step> :: StopsMissing(compile, crumbs, name, node, visited, t, Walk(compile, crumbs, name, node, visited).error)
    decreases KeySet(crumbs) - (set v | v in visited)
  {
    var loaded := visited + [name];
    var parent := Parent(node);
    var s := Step(name, node, compile(name, node.entries).value);
    var e := Walk(compile, crumbs, name, node, visited).error;
    if Isset(Arr(crumbs), parent.s) {
      IssetRegistered(crumbs, parent.s);
      assert (set v | v in loaded) == (set v | v in visited) + {name};
      WalkMissing(compile, crumbs, parent.s, Get(crumbs, parent.s), loaded);
      assert e == Walk(compile, crumbs, parent.s, Get(crumbs, parent.s), loaded).error;
      var rest: seq<Step> :| StopsMissing(compile, crumbs, parent.s, Get(crumbs, parent.s), loaded, rest, e);
      PrefixCons(compile, crumbs, visited, s, rest);
      EndsMissingCons(crumbs, s, rest, e);
      assert StopsMissing(compile, crumbs, name, node, visited, [s] + rest, e);
    } else {
      PrefixOne(compile, crumbs, visited, s);
      assert StopsMissing(compile, crumbs, name, node, visited, [s], e);
    }
  }

  /** A circular reference is reported where the walk stops on a stretch of
      the parent chain from `name`: the stretch's last breadcrumb names a
      registered parent already visited, and the report carries that
      breadcrumb and the visited names in visiting order. */
  lemma {:induction false} WalkCircular(compile: Compiler, crumbs: Entries, name: string, node: Value, visited: seq<string>)
    requires name in KeySet(crumbs) && name !in visited
    requires forall v :: v in visited ==> v in KeySet(crumbs)
    requires Walk(compile, crumbs, name, node, visited).Failure?
    requires Walk(compile, crumbs, name, node, visited).error.CircularReference?
    ensures exists t: seq<Step> :: StopsCircular(compile, crumbs, name, node, visited, t, Walk(compile, crumbs, name, node, visited).error)
    decreases KeySet(crumbs) - (set v | v in visited)
  {
    var loaded := visited + [name];
    var parent := Parent(node);
    var s := Step(name, node, compile(name, node.entries).value);
    var e := Walk(compile, crumbs, name, node, visited).error;
    if parent.s !in loaded {
      IssetRegistered(crumbs, parent.s);
      assert (set v | v in loaded) == (set v | v in visited) + {name};
      WalkCircular(compile, crumbs, parent.s, Get(crumbs, parent.s), loaded);
      assert e == Walk(compile, crumbs, parent.s, Get(crumbs, parent.s), loaded).error;
      var rest: seq<Step> :| StopsCircular(compile, crumbs, parent.s, Get(crumbs, parent.s), loaded, rest, e);
      PrefixCons(compile, crumbs, visited, s, rest);
      EndsCircularCons(crumbs, visited, s, rest, e);
      assert StopsCircular(compile, crumbs, name, node, visited, [s] + rest, e);
    } else {
      PrefixOne(compile, crumbs, visited, s);
      assert StopsCircular(compile, crumbs, name, node, visited, [s], e);
    }
  }

  /** Every parent chain is found by the walk: the walk succeeds exactly on
      the chains `IsTrail` describes, and there is at most one. */
  lemma {:induction false} WalkComplete(compile: Compiler, crumbs: Entries, name: string, node: Value, visited: seq<string>, t: seq<Step>)
    requires name in KeySet(crumbs) && name !in visited
    requires forall v :: v in visited ==> v in KeySet(crumbs)
    requires IsTrail(compile, crumbs, name, node, visited, t)
    ensures Walk(compile, crumbs, name, node, visited) == Success(t)
    decreases |t|
  {
    var loaded := visited + [name];
    if |t| > 1 {
      var next := t[1].name;
      PrefixTail(compile, crumbs, name, node, visited, t);
      WalkComplete(compile, crumbs, next, t[1].node, loaded, t[1..]);
      assert [t[0]] + t[1..] == t;
    } else {
      assert [Step(name, node, t[0].instr)] == t;
    }
  }

  /** The steps or calls `done` put before those of the rest of the walk. */
  function After<T>(done: seq<T>, r: Result<seq<T>, Error>): Result<seq<T>, Error> {
    match r
    case Failure(e) => Failure(e)
    case Success(xs) => Success(done + xs)
  }

  lemma AfterAfter<T>(a: seq<T>, b: seq<T>, r: Result<seq<T>, Error>)
    ensures After(a, After(b, r)) == After(a + b, r)
  {
    if r.Success? {
      assert a + (b + r.value) == (a + b) + r.value;
    }
  }

  /** One step of the walk: a breadcrumb that compiles and names a
      registered, unvisited parent is the first step, ahead of the walk
      from that parent. */
  lemma WalkFirst(compile: Compiler, crumbs: Entries, name: string, node: Value, visited: seq<string>)
    requires name in KeySet(crumbs) && name !in visited
    requires forall v :: v in visited ==> v in KeySet(crumbs)
    requires node.Arr? && compile(name, node.entries).Success?
    requires Parent(node).Str? && Isset(Arr(crumbs), Parent(node).s)
    requires Parent(node).s !in visited + [name]
    ensures Parent(node).s in KeySet(crumbs)
    ensures Walk(compile, crumbs, name, node, visited)
      == After([Step(name, node, compile(name, node.entries).value)],
               Walk(compile, crumbs, Parent(node).s, Get(crumbs, Parent(node).s), visited + [name]))
  {
    IssetRegistered(crumbs, Parent(node).s);
  }

  /** Dropping the first step of a chain moves its name into the visited list. */
  lemma ResumeNames(visited: seq<string>, name: string, t: seq<Step>)
    requires |t| >= 2 && t[0].name == name
    ensures t[..|t| - 1] == [t[0]] + t[1..][..|t| - 2]
    ensures visited + Names(t[..|t| - 1]) == (visited + [name]) + Names(t[1..][..|t| - 2])
  {
    var n := |t| - 1;
    assert t[..n] == [t[0]] + t[1..][..n - 1];
    NamesAppend([t[0]], t[1..][..n - 1]);
    assert Names([t[0]]) == [name];
  }

  /** A walk passes through any start of its chain: from `name` it takes the
      chain's steps up to the last one and then carries on as the walk from
      that last breadcrumb, with the names before it visited. */
  lemma {:induction false} WalkResumes(compile: Compiler, crumbs: Entries, name: string, node: Value, visited: seq<string>, t: seq<Step>)
    requires name in KeySet(crumbs) && name !in visited
    requires forall v :: v in visited ==> v in KeySet(crumbs)
    requires IsPrefix(compile, crumbs, name, node, visited, t)
    ensures
      var n := |t| - 1;
      && t[n].name !in visited + Names(t[..n])
      && (forall v :: v in visited + Names(t[..n]) ==> v in KeySet(crumbs))
      && Walk(compile, crumbs, name, node, visited)
           == After(t[..n], Walk(compile, crumbs, t[n].name, t[n].node, visited + Names(t[..n])))
    decreases |t|
  {
    var n := |t| - 1;
    if n == 0 {
      assert Names(t[..n]) == [];
      assert visited + Names(t[..n]) == visited;
      var r := Walk(compile, crumbs, name, node, visited);
      if r.Success? {
        assert [] + r.value == r.value;
      }
    } else {
      var loaded := visited + [name];
      var rest := t[1..];
      PrefixTail(compile, crumbs, name, node, visited, t);
      WalkResumes(compile, crumbs, t[1].name, t[1].node, loaded, rest);
      assert Parent(node) == Str(t[1].name) && Get(crumbs, t[1].name) == t[1].node;
      WalkFirst(compile, crumbs, name, node, visited);
      assert t[0] == Step(name, node, compile(name, node.entries).value);
      ResumeNames(visited, name, t);
      AfterAfter([t[0]], rest[..n - 1], Walk(compile, crumbs, t[n].name, t[n].node, visited + Names(t[..n])));
    }
  }

  /** Conversely, wherever the parent chain from `name` stops on a missing
      parent, the walk fails with exactly that report. */
  lemma WalkMissingAt(compile: Compiler, crumbs: Entries, name: string, node: Value, visited: seq<string>, t: seq<Step>, e: Error)
    requires name in KeySet(crumbs) && name !in visited
    requires forall v :: v in visited ==> v in KeySet(crumbs)
    requires StopsMissing(compile, crumbs, name, node, visited, t, e)
    ensures Walk(compile, crumbs, name, node, visited) == Failure(e)
  {
    var n := |t| - 1;
    WalkResumes(compile, crumbs, name, node, visited, t);
    assert Walk(compile, crumbs, t[n].name, t[n].node, visited + Names(t[..n])) == Failure(e);
  }

  /** Conversely, wherever the parent chain from `name` returns to a visited
      name, the walk fails with a circular reference of exactly the visited
      names. */
  lemma WalkCircularAt(compile: Compiler, crumbs: Entries, name: string, node: Value, visited: seq<string>, t: seq<Step>, e: Error)
    requires name in KeySet(crumbs) && name !in visited
    requires forall v :: v in visited ==> v in KeySet(crumbs)
    requires StopsCircular(compile, crumbs, name, node, visited, t, e)
    ensures Walk(compile, crumbs, name, node, visited) == Failure(e)
  {
    var n := |t| - 1;
    WalkResumes(compile, crumbs, name, node, visited, t);
    assert Names(t) == Names(t[..n]) + [t[n].name];
    assert visited + Names(t[..n]) + [t[n].name] == visited + Names(t);
    assert Walk(compile, crumbs, t[n].name, t[n].node, visited + Names(t[..n])) == Failure(e);
  }

  /** The root of a breadcrumb: `createItem('root')` without options, tagged
      with the breadcrumb's name as alias, holding the given calls. */
  function BreadcrumbRoot(name: string, calls: seq<Call>): (r: Instr)
    ensures r.Def? && r.className == MenuFactoryClass
    ensures r.factoryService == Str(MenuFactoryService) && r.factoryMethod == Str(CreateItemMethod)
    ensures r.args == [("0", Str("root")), ("1", Arr([]))]
    ensures r.tags == [Tag(MenuTag, name)] && r.calls == calls
  {
    var root := CreateMenuItem("root", []);
    root.(tags := [Tag(MenuTag, name)], calls := calls)
  }

  /** The calls a walk contributes, in walk order (child first). */
  function TrailCalls(r: Result<seq<Step>, Error>): Result<seq<Call>, Error> {
    match r
    case Failure(e) => Failure(e)
    case Success(t) => Success(CallsOf(t))
  }

  /** One step of the walk: a breadcrumb that compiles and names a
      registered, unvisited parent contributes its call ahead of the calls
      of the walk from that parent. */
  lemma WalkStep(compile: Compiler, crumbs: Entries, name: string, node: Value, visited: seq<string>)
    requires name in KeySet(crumbs) && name !in visited
    requires forall v :: v in visited ==> v in KeySet(crumbs)
    requires node.Arr? && compile(name, node.entries).Success?
    requires Parent(node).Str? && Isset(Arr(crumbs), Parent(node).s)
    requires Parent(node).s !in visited + [name]
    ensures Parent(node).s in KeySet(crumbs)
    ensures TrailCalls(Walk(compile, crumbs, name, node, visited))
      == After([CrumbCall(name, compile(name, node.entries).value)],
               TrailCalls(Walk(compile, crumbs, Parent(node).s, Get(crumbs, Parent(node).s), visited + [name])))
  {
    WalkFirst(compile, crumbs, name, node, visited);
    var step := Step(name, node, compile(name, node.entries).value);
    TrailCallsAfter([step], Walk(compile, crumbs, Parent(node).s, Get(crumbs, Parent(node).s), visited + [name]));
    assert CallsOf([step]) == [CrumbCall(name, step.instr)];
  }

  /** The calls of steps put before a walk come before the walk's calls. */
  lemma TrailCallsAfter(done: seq<Step>, r: Result<seq<Step>, Error>)
    ensures TrailCalls(After(done, r)) == After(CallsOf(done), TrailCalls(r))
  {
    if r.Success? {
      CallsOfAppend(done, r.value);
    }
  }

  /** The registered definition of the i-th breadcrumb: a null breadcrumb
      gets a root without calls; otherwise the walk's calls, reversed. */
  function Linked(compile: Compiler, crumbs: Entries, i: nat): Result<Instr, Error>
    requires i < |crumbs|
  {
    if crumbs[i].1 == Null then Success(BreadcrumbRoot(crumbs[i].0, []))
    else
      match TrailCalls(Walk(compile, crumbs, crumbs[i].0, crumbs[i].1, []))
      case Failure(e) => Failure(e)
      case Success(calls) => Success(BreadcrumbRoot(crumbs[i].0, Reverse(calls)))
  }

  /** The loop of `registerBreadcrumbs` for the i-th breadcrumb. */
  method LinkBreadcrumb(compile: Compiler, crumbs: Entries, i: nat) returns (r: Result<Instr, Error>)
    requires i < |crumbs|
    ensures r == Linked(compile, crumbs, i)
  {
    var name := crumbs[i].0;
    var breadcrumb := crumbs[i].1;
    var methods: seq<Call> := [];
    var loaded: seq<string> := [];
    if breadcrumb == Null {
      return Success(BreadcrumbRoot(crumbs[i].0, []));
    }
    ghost var start := TrailCalls(Walk(compile, crumbs, name, breadcrumb, loaded));
    assert start == After([], start) by {
      if start.Success? {
        assert [] + start.value == start.value;
      }
    }
    while true
      invariant name in KeySet(crumbs) && name !in loaded
      invariant forall v :: v in loaded ==> v in KeySet(crumbs)
      invariant start == After(methods, TrailCalls(Walk(compile, crumbs, name, breadcrumb, loaded)))
      decreases KeySet(crumbs) - (set v | v in loaded)
    {
      if !breadcrumb.Arr? {
        return Failure(TypeError("breadcrumb"));
      }
      var child := compile(name, breadcrumb.entries);
      if child.Failure? {
        return Failure(child.error);
      }
      var call := CrumbCall(name, child.value);
      var parent := Parent(breadcrumb);
      ghost var visited := loaded;
      ghost var done := methods;
      loaded := loaded + [name];
      methods := methods + [call];
      if parent != Null {
        if !parent.Str? {
          return Failure(TypeError("breadcrumb parent"));
        }
        if !Isset(Arr(crumbs), parent.s) {
          return Failure(MissingParent(parent.s, name));
        }
        if parent.s in loaded {
          return Failure(CircularReference(name, loaded));
        }
        WalkStep(compile, crumbs, name, breadcrumb, visited);
        AfterAfter(done, [call], TrailCalls(Walk(compile, crumbs, parent.s, Get(crumbs, parent.s), loaded)));
        assert (set v | v in loaded) == (set v | v in visited) + {name};
        name := parent.s;
        breadcrumb := Get(crumbs, parent.s);
        continue;
      }
      assert CallsOf([Step(name, breadcrumb, child.value)]) == [call];
      break;
    }
    r := Success(BreadcrumbRoot(crumbs[i].0, Reverse(methods)));
  }

  // ---------------------------------------------------------------------
  // Properties of the registered breadcrumbs
  // ---------------------------------------------------------------------

  /** A linked breadcrumb holds one call per breadcrumb of its parent chain,
      from the topmost ancestor down to the breadcrumb itself, whose call
      comes last; attribute arrays are attached without their `parent`. */
  lemma RootToLeaf(compile: Compiler, crumbs: Entries, i: nat)
    requires i < |crumbs| && crumbs[i].1 != Null
    requires Linked(compile, crumbs, i).Success?
    ensures exists t :: (IsTrail(compile, crumbs, crumbs[i].0, crumbs[i].1, [], t)
      && Linked(compile, crumbs, i).value.calls == Reverse(CallsOf(t)))
    ensures
      var calls := Linked(compile, crumbs, i).value.calls;
      && |calls| >= 1
      && calls[|calls| - 1] == CrumbCall(crumbs[i].0, compile(crumbs[i].0, crumbs[i].1.entries).value)
      && Parent(NodeNamed(crumbs, crumbs[i].0, crumbs[i].1, TopName(compile, crumbs, i))) == Null
      && forall j :: 0 <= j < |calls| && calls[j].name.Some? ==>
           calls[j].child.Plain? && "parent" !in KeySet(calls[j].child.entries)
  {
    var t := Walk(compile, crumbs, crumbs[i].0, crumbs[i].1, []).value;
    WalkSound(compile, crumbs, crumbs[i].0, crumbs[i].1, []);
    OwnCallLast(t);
  }

  /** Undoing the `array_reverse` gives back the calls in the walk's order,
      the breadcrumb's own call first. */
  lemma LinkedUnreversed(compile: Compiler, crumbs: Entries, i: nat)
    requires i < |crumbs| && crumbs[i].1 != Null
    requires Linked(compile, crumbs, i).Success?
    ensures exists t :: (IsTrail(compile, crumbs, crumbs[i].0, crumbs[i].1, [], t)
      && Reverse(Linked(compile, crumbs, i).value.calls) == CallsOf(t))
  {
    RootToLeaf(compile, crumbs, i);
    var t :| IsTrail(compile, crumbs, crumbs[i].0, crumbs[i].1, [], t)
      && Linked(compile, crumbs, i).value.calls == Reverse(CallsOf(t));
    ReverseReverse(CallsOf(t));
  }

  /** The first breadcrumb visited is collected first, so after
      `array_reverse` its call is attached last. */
  lemma OwnCallLast(t: seq<Step>)
    requires |t| >= 1
    ensures Reverse(CallsOf(t)) == Reverse(CallsOf(t[1..])) + [CrumbCall(t[0].name, t[0].instr)]
  {
    assert t == [t[0]] + t[1..];
    CallsOfAppend([t[0]], t[1..]);
    ReverseAppend(CallsOf([t[0]]), CallsOf(t[1..]));
  }

  /** The name of the topmost ancestor of a linked breadcrumb. */
  function TopName(compile: Compiler, crumbs: Entries, i: nat): string
    requires i < |crumbs|
  {
    if crumbs[i].1 == Null then crumbs[i].0
    else
      match Walk(compile, crumbs, crumbs[i].0, crumbs[i].1, [])
      case Success(t) => t[|t| - 1].name
      case Failure(_) => crumbs[i].0
  }

  /** Conversely, a breadcrumb whose parent chain exists is linked, with the
      chain's calls reversed. */
  lemma LinkedComplete(compile: Compiler, crumbs: Entries, i: nat, t: seq<Step>)
    requires i < |crumbs| && crumbs[i].1 != Null
    requires IsTrail(compile, crumbs, crumbs[i].0, crumbs[i].1, [], t)
    ensures Linked(compile, crumbs, i) == Success(BreadcrumbRoot(crumbs[i].0, Reverse(CallsOf(t))))
  {
    WalkComplete(compile, crumbs, crumbs[i].0, crumbs[i].1, [], t);
  }

  /** The configuration a chain from the i-th breadcrumb gives a name on it. */
  lemma PrefixNode(compile: Compiler, crumbs: Entries, name: string, node: Value, t: seq<Step>, j: nat)
    requires IsPrefix(compile, crumbs, name, node, [], t) && j < |t|
    ensures NodeNamed(crumbs, name, node, t[j].name) == t[j].node
  {
    if j > 0 {
      assert Names(t)[0] == name && Names(t)[j] == t[j].name;
    }
  }

  /** A missing parent is reported where the chain from the registered
      breadcrumb stops: for the breadcrumb being visited, which is not
      necessarily the registered one, and the parent it names, which reads
      null in the breadcrumb map. */
  lemma LinkedMissingParent(compile: Compiler, crumbs: Entries, i: nat)
    requires i < |crumbs|
    requires Linked(compile, crumbs, i).Failure? && Linked(compile, crumbs, i).error.MissingParent?
    ensures
      var e := Linked(compile, crumbs, i).error;
      && e.breadcrumb in KeySet(crumbs)
      && Parent(NodeNamed(crumbs, crumbs[i].0, crumbs[i].1, e.breadcrumb)) == Str(e.parent)
      && Get(crumbs, e.parent) == Null
      && exists t: seq<Step> :: StopsMissing(compile, crumbs, crumbs[i].0, crumbs[i].1, [], t, e)
  {
    var e := Linked(compile, crumbs, i).error;
    WalkMissing(compile, crumbs, crumbs[i].0, crumbs[i].1, []);
    var t: seq<Step> :| StopsMissing(compile, crumbs, crumbs[i].0, crumbs[i].1, [], t, e);
    MissingReport(compile, crumbs, crumbs[i].0, crumbs[i].1, t, e);
  }

  /** What a missing parent found from the registered breadcrumb reports. */
  lemma MissingReport(compile: Compiler, crumbs: Entries, name: string, node: Value, t: seq<Step>, e: Error)
    requires StopsMissing(compile, crumbs, name, node, [], t, e)
    ensures e.breadcrumb in KeySet(crumbs)
    ensures Parent(NodeNamed(crumbs, name, node, e.breadcrumb)) == Str(e.parent)
    ensures Get(crumbs, e.parent) == Null
  {
    PrefixNode(compile, crumbs, name, node, t, |t| - 1);
  }

  /** A circular reference is reported where the chain from the registered
      breadcrumb returns to a visited name; its path is the names visited,
      distinct and in visiting order, from the registered breadcrumb to the
      reported one, and it contains the reported breadcrumb's parent. */
  lemma LinkedCircular(compile: Compiler, crumbs: Entries, i: nat)
    requires i < |crumbs|
    requires Linked(compile, crumbs, i).Failure? && Linked(compile, crumbs, i).error.CircularReference?
    ensures
      var e := Linked(compile, crumbs, i).error;
      && |e.path| >= 1 && e.path[0] == crumbs[i].0 && e.path[|e.path| - 1] == e.breadcrumb
      && Distinct(e.path)
      && Parent(NodeNamed(crumbs, crumbs[i].0, crumbs[i].1, e.breadcrumb)).Str?
      && Parent(NodeNamed(crumbs, crumbs[i].0, crumbs[i].1, e.breadcrumb)).s in e.path
      && exists t: seq<Step> :: StopsCircular(compile, crumbs, crumbs[i].0, crumbs[i].1, [], t, e)
  {
    var e := Linked(compile, crumbs, i).error;
    WalkCircular(compile, crumbs, crumbs[i].0, crumbs[i].1, []);
    var t: seq<Step> :| StopsCircular(compile, crumbs, crumbs[i].0, crumbs[i].1, [], t, e);
    CircularPath(crumbs, crumbs[i].0, t, e);
    PrefixNode(compile, crumbs, crumbs[i].0, crumbs[i].1, t, |t| - 1);
  }

  /** The path of a circular reference found from the registered breadcrumb
      starts there, ends at the reported breadcrumb, has no repeated name,
      and contains the reported breadcrumb's parent. */
  lemma CircularPath(crumbs: Entries, name: string, t: seq<Step>, e: Error)
    requires EndsCircular(crumbs, [], t, e) && t[0].name == name && DistinctNames(t)
    ensures |e.path| >= 1 && e.path[0] == name
    ensures e.breadcrumb == t[|t| - 1].name && e.path[|e.path| - 1] == e.breadcrumb
    ensures Distinct(e.path) && Parent(t[|t| - 1].node).s in e.path
  {
    assert Names(t)[0] == name;
  }

  /** Conversely, wherever the chain from the i-th breadcrumb stops on a
      missing parent, its registration fails with exactly that report. */
  lemma LinkedMissingAt(compile: Compiler, crumbs: Entries, i: nat, t: seq<Step>, e: Error)
    requires i < |crumbs| && crumbs[i].1 != Null
    requires StopsMissing(compile, crumbs, crumbs[i].0, crumbs[i].1, [], t, e)
    ensures Linked(compile, crumbs, i) == Failure(e)
  {
    WalkMissingAt(compile, crumbs, crumbs[i].0, crumbs[i].1, [], t, e);
  }

  /** Conversely, wherever the chain from the i-th breadcrumb returns to a
      visited name, its registration fails with a circular reference of
      exactly the names visited. */
  lemma LinkedCircularAt(compile: Compiler, crumbs: Entries, i: nat, t: seq<Step>, e: Error)
    requires i < |crumbs| && crumbs[i].1 != Null
    requires StopsCircular(compile, crumbs, crumbs[i].0, crumbs[i].1, [], t, e)
    ensures Linked(compile, crumbs, i) == Failure(e)
  {
    WalkCircularAt(compile, crumbs, crumbs[i].0, crumbs[i].1, [], t, e);
  }

  /** A breadcrumb that names itself as parent is a circular reference of
      the one-name path. */
  lemma SelfParentIsCircular(compile: Compiler, crumbs: Entries, i: nat)
    requires i < |crumbs| && DistinctKeys(crumbs)
    requires crumbs[i].1.Arr? && compile(crumbs[i].0, crumbs[i].1.entries).Success?
    requires Parent(crumbs[i].1) == Str(crumbs[i].0)
    ensures Linked(compile, crumbs, i) == Failure(CircularReference(crumbs[i].0, [crumbs[i].0]))
  {
    var name := crumbs[i].0;
    GetAt(crumbs, i);
    assert Isset(Arr(crumbs), name);
    var loaded: seq<string> := [] + [name];
    assert loaded == [name];
    assert Walk(compile, crumbs, name, crumbs[i].1, []) == Failure(CircularReference(name, [name]));
  }

  /** `registerBreadcrumbs`: every breadcrumb registered under
      `rollerworks_navigation.breadcrumbs.<name>`, in the breadcrumbs'
      order; the first breadcrumb that fails aborts the registration. */
  method RegisterBreadcrumbs(crumbs: Entries) returns (r: Result<Plan, Error>)
    ensures r.Success? ==> |r.value| == |crumbs|
    ensures r.Success? ==> forall j :: 0 <= j < |crumbs| ==>
      Linked(CompileItem, crumbs, j).Success? && r.value[j] == (BreadcrumbPrefix + crumbs[j].0, Linked(CompileItem, crumbs, j).value)
    ensures r.Failure? ==> exists j :: (0 <= j < |crumbs|
      && Linked(CompileItem, crumbs, j) == Failure(r.error)
      && forall k :: 0 <= k < j ==> Linked(CompileItem, crumbs, k).Success?)
  {
    var plan: Plan := [];
    for j := 0 to |crumbs|
      invariant |plan| == j
      invariant forall k :: 0 <= k < j ==>
        Linked(CompileItem, crumbs, k).Success? && plan[k] == (BreadcrumbPrefix + crumbs[k].0, Linked(CompileItem, crumbs, k).value)
    {
      var root := LinkBreadcrumb(CompileItem, crumbs, j);
      if root.Failure? {
        return Failure(root.error);
      }
      plan := plan + [(BreadcrumbPrefix + crumbs[j].0, root.value)];
    }
    return Success(plan);
  }
}
