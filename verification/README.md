# Navigation definitions compiler, in Dafny

This project models the compiler at the heart of the Rollerworks navigation bundle: the
`NavigationExtension` that turns an already-validated navigation configuration (menus and
breadcrumbs) into service definitions for a dependency-injection container. The model
proves properties of that compiler.

The container objects become plain data (`Definitions`):
- a `Def` is a service definition: class, factory service and method, arguments, ordered
  `addChild` method calls, and tags;
- a `Ref` is a service reference;
- an `Expression` is an expression object;
- a `Plain` is an item attribute array handed to `addChild`;
- a `Plan` is the ordered list of registered ids with their definitions.

Configuration values are PHP values (`PhpValues`). Arrays are ordered lists of string-keyed
entries. Reading, writing, unsetting, `isset`, `empty` and `array_merge` are written out with
PHP's meaning: a missing key reads as null, and a write to an existing key keeps its position.

The modules follow the extension's methods:

- `Resolver`: `resolveParameters`. The `@` / `@@` expression convention, applied through
  arrays.
- `MenuItems`: `createMenuItemDefinition`, `createMenuItem` and `buildMenuDefinition`.
  - route flattening;
  - the options merge, where explicit item keys win;
  - the decision between reference, factory service, expression, item with children and
    plain array;
  - the ordered `addChild` calls.
- `Menus`: `registerMenus`. One tagged `createItem('root', …)` per menu, under
  `rollerworks_navigation.menu.<name>`.
- `Breadcrumbs`: `registerBreadcrumbs`.
  - The walk up the `parent` chain ends because each step moves to a registered name not
    yet visited.
  - The walk fails on a missing parent or on a cycle.
  - The calls come out in root-to-leaf order.
  - The loop itself is the method `LinkBreadcrumb`.
  - The walk is stated for any item compiler (`Compiler`) whose only failures are type
    errors. `RegisterBreadcrumbs` instantiates it with `MenuItems.CompileItem`.
- `BreadcrumbExamples`: worked configurations.
  - the cycle `x -> y -> x`, with its message;
  - a breadcrumb `w` that leads into that cycle;
  - a missing parent met up the chain;
  - a two-level chain;
  - each of these again with `MenuItems.CompileItem` as the item compiler.

Uncaught PHP type errors are modelled as `Failure(TypeError(..))`. They occur when a
parameter typed `array` gets something else, and, as in PHP 8, when `array_merge` gets a
non-array.
The two `RuntimeException`s of the breadcrumb walk are `MissingParent` and
`CircularReference`. `Definitions.Message` gives their texts.

Resolution is not idempotent: `@@x` becomes `@x`, and that becomes the expression `x` when
resolved again. `registerMenus` resolves menu options twice (lines 62 and 65 of
`NavigationExtension.php`), so a menu option written `@@x` reaches the root as the
expression `x` (`Menus.EscapedMenuOptionBecomesExpression`).

Menu roots and breadcrumb roots are both tagged `knp_menu.menu`, with the menu's or the
breadcrumb's name as alias.

`getAlias` is the constant `Definitions.Namespace`. `setFactoryService` is the pair of
fields `factoryService` / `factoryMethod` of a `Def`.

## Model

| member | source | states |
|---|---|---|
| PhpValues.Get | src/DependencyInjection/NavigationExtension.php:62 | reading a key that is not in the array gives null |
| PhpValues.Set | src/DependencyInjection/NavigationExtension.php:160-162 | writing key k gives k the new value and leaves every other key's value alone; k joins the key set; an existing key keeps its place (length unchanged) and a new key is appended; distinct keys stay distinct |
| PhpValues.Unset | src/DependencyInjection/NavigationExtension.php:168 | after unset the key reads null and is gone from the key set; every other key is unchanged; unsetting a missing key changes nothing; distinct keys stay distinct |
| PhpValues.Merge | src/DependencyInjection/NavigationExtension.php:166 | `array_merge(a, b)` has the keys of both arrays; a key only `a` has keeps `a`'s value; distinct keys stay distinct |
| PhpValues.MergePrefersSecond | src/DependencyInjection/NavigationExtension.php:166 | on a key both arrays set, `array_merge` takes the second array's value |
| Resolver.Resolve | src/DependencyInjection/NavigationExtension.php:260-273 | resolution keeps arrays as arrays with the same keys, length and size; values that are neither arrays nor strings come back unchanged |
| Resolver.ResolveEntries | src/DependencyInjection/NavigationExtension.php:263 | `array_map` keeps the length, the key set and key distinctness |
| Resolver.ResolveGet | src/DependencyInjection/NavigationExtension.php:263 | the resolved array read at k is the resolution of the original array read at k |
| Resolver.ResolveEntriesPointwise | src/DependencyInjection/NavigationExtension.php:263 | every entry of the resolved array keeps its key and position and holds its value resolved |
| Resolver.ResolveEntriesAt | src/DependencyInjection/NavigationExtension.php:263 | entry i of the resolved array has entry i's key and entry i's value resolved: keys and order are kept |
| Resolver.EscapeRoundTrip | src/DependencyInjection/NavigationExtension.php:264-266 | every literal string can be written so that it resolves to itself: `@@rest` gives `@rest`, exactly one marker stripped |
| Resolver.LiteralIsEscaped | src/DependencyInjection/NavigationExtension.php:264-272 | a string that resolves to a literal is that literal's escaped form, so no two strings resolve to the same literal |
| Resolver.ExpressionRoundTrip | src/DependencyInjection/NavigationExtension.php:264-269 | `@source` where the source does not start with `@` gives the expression `source` |
| Resolver.ExpressionFromSingleMarker | src/DependencyInjection/NavigationExtension.php:264-269 | every expression comes from a string with exactly one leading marker |
| Resolver.ResolveTwiceTurnsEscapeIntoExpression | src/DependencyInjection/NavigationExtension.php:264-269 | resolution is not idempotent: `@@x` resolves to `@x`, and resolving again gives the expression `x` |
| MenuItems.FlattenRoute | src/DependencyInjection/NavigationExtension.php:159-163 | without `route.parameters` set the item is unchanged; with it, `routeParameters`, `routeAbsolute` and `route` hold the resolved parameters, absolute flag and route name, no other key changes, and distinct keys stay distinct |
| MenuItems.MergeOptions | src/DependencyInjection/NavigationExtension.php:165-168 | the merge succeeds exactly when `options` is an array; its keys are the item's and the options' keys without `options` |
| MenuItems.ExplicitKeysWin | src/DependencyInjection/NavigationExtension.php:159-168 | after the merge, a key set on the route-flattened item keeps the item's value, and any other key takes the resolved option value |
| MenuItems.ItemKeyKept | src/DependencyInjection/NavigationExtension.php:166 | a key written on the item (not `options`, not a route key) reaches the compiled attributes unchanged |
| MenuItems.Attributes | src/DependencyInjection/NavigationExtension.php:199 | the factory options and plain attributes are the item's keys without `children` and `expression`, each with the item's value |
| MenuItems.ServiceArguments | src/DependencyInjection/NavigationExtension.php:178-186 | no arguments when `parameters` is unset; an array of parameters gives one argument per parameter, in order, under the same key, with its value resolved; a single parameter becomes the only argument, under key `0`, resolved: never an array, and unchanged unless it is a string |
| MenuItems.CreateMenuItem | src/DependencyInjection/NavigationExtension.php:140-149 | `createMenuItem` builds a `Knp\Menu\MenuFactory` definition with factory `knp_menu.factory` / `createItem`, arguments (name, options without `children`, every other option with its value), and no calls or tags |
| MenuItems.ChildCall | src/DependencyInjection/NavigationExtension.php:222-226 | a child is attached under its name exactly when it compiled to a plain array, and the call carries the child itself |
| MenuItems.ValidateItem | src/DependencyInjection/NavigationExtension.php:219 | an item must be an array and is passed on as it is |
| MenuItems.CompileItem | src/DependencyInjection/NavigationExtension.php:157-210 | compilation fails only with a type error; a plain result has no `children`, `expression` or `options` key; a `createItem` result has arguments (name, options) whose options have none of those keys |
| MenuItems.BuildMenuDefinition | src/DependencyInjection/NavigationExtension.php:216-228 | `buildMenuDefinition` succeeds exactly when the items form an array whose calls all compile; it adds one call per item after the definition's earlier calls, which are kept, so the calls are the earlier calls followed by the items' calls, and changes nothing else |
| MenuItems.ChildCalls | src/DependencyInjection/NavigationExtension.php:218-227 | one call per item; the call is named with the item's key exactly when the child is a plain array; failures are type errors |
| MenuItems.DecisionOrder | src/DependencyInjection/NavigationExtension.php:170-209 | the kind of result is decided in order: a set service (reference without a method, factory definition with one), then an expression, then children, then a plain array, each case stated in both directions; only an item with children can still fail |
| MenuItems.ServiceWins | src/DependencyInjection/NavigationExtension.php:170-189 | a non-empty service wins over expression and children: without a method exactly `Reference(id)`; with one a `stdClass` definition with factory (id, method), the service arguments, and no calls or tags |
| MenuItems.ExpressionItem | src/DependencyInjection/NavigationExtension.php:191-193 | without a service, a non-empty expression yields exactly the expression over the configured text |
| MenuItems.ParentItem | src/DependencyInjection/NavigationExtension.php:195-205 | without service or expression, children yield `createMenuItem(name, attributes)` with the children's calls; it succeeds exactly when those calls do |
| MenuItems.PlainItem | src/DependencyInjection/NavigationExtension.php:207-209 | an item with no service, expression or children compiles to its attributes without `children` and `expression` |
| MenuItems.ChildCallsStep | src/DependencyInjection/NavigationExtension.php:218-227 | the calls for a non-empty list succeed exactly when its first item is an array that compiles and the calls for the remaining items succeed |
| MenuItems.ChildCallsCons | src/DependencyInjection/NavigationExtension.php:218-227 | successful calls for a non-empty list are the first item's call followed by the remaining items' calls |
| MenuItems.ChildCallsSucceed | src/DependencyInjection/NavigationExtension.php:218-220 | the calls succeed exactly when every item is an array that compiles |
| MenuItems.ChildCallsInOrder | src/DependencyInjection/NavigationExtension.php:218-227 | successful calls attach the compiled items in order: call i attaches item i's compiled child |
| Menus.MergedMenu | src/DependencyInjection/NavigationExtension.php:62-63 | the menu merge succeeds exactly when `options` is an array; the merged menu has the menu's keys, the option keys and `options` |
| Menus.MenuKeysWin | src/DependencyInjection/NavigationExtension.php:62-63 | in the merged menu the menu's own keys keep their values, `options` holds the resolved options, and a key only the options set takes the resolved option value; so the items compiled are the menu's own `items` when it sets them |
| Menus.MenuRoot | src/DependencyInjection/NavigationExtension.php:62-67 | a menu root is `createItem('root', …)` on `knp_menu.factory` whose options never contain `children`, tagged `knp_menu.menu` with the menu's name as alias |
| Menus.RegisterMenus | src/DependencyInjection/NavigationExtension.php:58-71 | on success, menu i is registered as `rollerworks_navigation.menu.<name>` with its root definition, in the menus' order |
| Menus.RegisterMenusStep | src/DependencyInjection/NavigationExtension.php:58-71 | a first menu that fails aborts the registration with its error; after a menu that succeeds, the registration fails exactly when the rest fails, with the same error |
| Menus.FirstFailingMenu | src/DependencyInjection/NavigationExtension.php:60-70 | a failed registration carries the error of the first menu that fails; every menu before it succeeds |
| Menus.MenuItemsInOrder | src/DependencyInjection/NavigationExtension.php:67 | the root's calls are the calls of `menu['items']`, one per item in order; the root exists exactly when every item is an array that compiles |
| Menus.MenuRootOptions | src/DependencyInjection/NavigationExtension.php:62-65 | the root's options hold the menu's own keys resolved once, and the `options` key and option-only keys resolved twice |
| Menus.EscapedMenuOptionBecomesExpression | src/DependencyInjection/NavigationExtension.php:62-65 | a menu option written `@@source` reaches the root as the expression `source` |
| Menus.EscapedItemOptionStaysLiteral | src/DependencyInjection/NavigationExtension.php:165-166 | an item option written `@@source` reaches the item's attributes as the literal `@source` |
| Breadcrumbs.CrumbCall | src/DependencyInjection/NavigationExtension.php:96-102 | a plain breadcrumb is attached under its name with the same attributes minus `parent`; any other result is attached unnamed and unchanged |
| Breadcrumbs.CallsOfAppend | src/DependencyInjection/NavigationExtension.php:96-102 | the calls of two walks joined are the calls of the first followed by those of the second: one call per visited breadcrumb, in visiting order |
| Breadcrumbs.ReverseReverse | src/DependencyInjection/NavigationExtension.php:122 | `array_reverse` undone by itself gives back the list |
| Breadcrumbs.ReverseAppend | src/DependencyInjection/NavigationExtension.php:122 | `array_reverse` of two lists joined is the second reversed followed by the first reversed, so the last call collected comes first |
| Breadcrumbs.Walk | src/DependencyInjection/NavigationExtension.php:92-119 | the walk ends, since each step visits a registered name not yet visited; a successful walk starts at the breadcrumb itself |
| Breadcrumbs.WalkSound | src/DependencyInjection/NavigationExtension.php:92-119 | a successful walk is the parent chain: each step is the registered parent of the one before, names are registered and distinct, the last step has no parent, and each step is its breadcrumb compiled |
| Breadcrumbs.WalkComplete | src/DependencyInjection/NavigationExtension.php:92-119 | conversely, every parent chain is what the walk returns, so there is at most one |
| Breadcrumbs.WalkMissing | src/DependencyInjection/NavigationExtension.php:92-106 | a missing-parent error comes with a parent chain from the starting breadcrumb, each step the registered parent of the one before, whose last breadcrumb names an unregistered parent; the error reports exactly that parent and that breadcrumb |
| Breadcrumbs.WalkCircular | src/DependencyInjection/NavigationExtension.php:92-111 | a circular-reference error comes with a parent chain from the starting breadcrumb whose last breadcrumb names a registered parent already visited or on the chain; the error reports that breadcrumb with the visited names followed by the chain's names in visiting order |
| Breadcrumbs.WalkResumes | src/DependencyInjection/NavigationExtension.php:92-119 | along a parent chain, the walk takes the chain's steps and then continues as the walk from the chain's last breadcrumb with the earlier names visited |
| Breadcrumbs.WalkMissingAt | src/DependencyInjection/NavigationExtension.php:104-106 | conversely, a parent chain whose last breadcrumb names an unregistered parent makes the walk fail with the missing-parent error for that parent and breadcrumb |
| Breadcrumbs.WalkCircularAt | src/DependencyInjection/NavigationExtension.php:109-111 | conversely, a parent chain whose last breadcrumb names an already visited parent makes the walk fail with the circular reference of that breadcrumb and the path so far |
| Breadcrumbs.BreadcrumbRoot | src/DependencyInjection/NavigationExtension.php:124-127 | a breadcrumb root is `createItem('root')` with no options, tagged `knp_menu.menu` with the breadcrumb's name as alias, holding the given calls |
| Breadcrumbs.LinkBreadcrumb | src/DependencyInjection/NavigationExtension.php:84-127 | the `while` loop with its `loaded` set yields exactly the linked definition: a null breadcrumb gets an empty root; otherwise the walk's calls reversed, or the walk's error |
| Breadcrumbs.RootToLeaf | src/DependencyInjection/NavigationExtension.php:92-127 | a linked breadcrumb's calls are its parent chain reversed: the topmost ancestor, which has no parent, first and the breadcrumb's own call last; named calls are plain arrays without `parent` |
| Breadcrumbs.OwnCallLast | src/DependencyInjection/NavigationExtension.php:96-122 | the breadcrumb visited first is collected first, so after `array_reverse` its call is the last one, after the reversed calls of its ancestors |
| Breadcrumbs.LinkedUnreversed | src/DependencyInjection/NavigationExtension.php:92-122 | reversing a linked breadcrumb's calls once more gives back the calls in the order the `while` loop collected them along the parent chain |
| Breadcrumbs.LinkedComplete | src/DependencyInjection/NavigationExtension.php:92-127 | a breadcrumb whose parent chain exists is linked, with the chain's calls reversed |
| Breadcrumbs.LinkedMissingParent | src/DependencyInjection/NavigationExtension.php:92-106 | the missing-parent error names the breadcrumb whose parent reads null, which is not necessarily the registered one; it is the end of the parent chain from the registered breadcrumb |
| Breadcrumbs.LinkedCircular | src/DependencyInjection/NavigationExtension.php:92-111 | the circular-reference path is the parent chain from the registered breadcrumb in visiting order: it starts there, ends at the reported breadcrumb, has no repeated name, and contains that breadcrumb's parent |
| Breadcrumbs.LinkedMissingAt | src/DependencyInjection/NavigationExtension.php:92-106 | conversely, a parent chain from the registered breadcrumb that reaches an unregistered parent makes linking fail with that missing parent |
| Breadcrumbs.LinkedCircularAt | src/DependencyInjection/NavigationExtension.php:92-111 | conversely, a parent chain from the registered breadcrumb that returns to one of its own names makes linking fail with that circular reference |
| Breadcrumbs.SelfParentIsCircular | src/DependencyInjection/NavigationExtension.php:109-111 | a breadcrumb that is its own parent fails with a circular reference of the one-name path |
| Breadcrumbs.RegisterBreadcrumbs | src/DependencyInjection/NavigationExtension.php:79-132 | on success, breadcrumb j is registered as `rollerworks_navigation.breadcrumbs.<name>` with its linked root, in order; on failure, the error is that of the first breadcrumb that fails |
| BreadcrumbExamples.CrumbCompiles | src/DependencyInjection/NavigationExtension.php:157-209 | a breadcrumb with empty options and a parent compiles to the plain array holding its parent |
| BreadcrumbExamples.TwoCycle | src/DependencyInjection/NavigationExtension.php:109-111 | for `{x: parent y, y: parent x}`, linking `x` fails at `y` with path `x -> y` |
| BreadcrumbExamples.TwoCycleCompiled | src/DependencyInjection/NavigationExtension.php:92-111 | the two-cycle failure holds with `createMenuItemDefinition` as the item compiler |
| BreadcrumbExamples.LeadIntoCycle | src/DependencyInjection/NavigationExtension.php:109-111 | for `{x: parent y, y: parent x, w: parent x}`, linking `w` fails at `y` with path `w -> x -> y` |
| BreadcrumbExamples.LeadIntoCycleCompiled | src/DependencyInjection/NavigationExtension.php:92-111 | the same failure for `w` with `createMenuItemDefinition` as the item compiler |
| BreadcrumbExamples.CycleMessage | src/DependencyInjection/NavigationExtension.php:110 | the text of that error is `Circular reference detected with parent of breadcrumb "y", path: "x -> y".` |
| BreadcrumbExamples.MissingParentNamesVisitedCrumb | src/DependencyInjection/NavigationExtension.php:104-106 | for `{a: parent b, b: parent z}`, linking `a` reports the missing `z` for `b` |
| BreadcrumbExamples.MissingParentCompiled | src/DependencyInjection/NavigationExtension.php:92-106 | the missing `z` reported for `b` with `createMenuItemDefinition` as the item compiler |
| BreadcrumbExamples.DanglingMessage | src/DependencyInjection/NavigationExtension.php:106 | the text of that error is `Parent "z" of breadcrumb "b" is not registered.` |
| BreadcrumbExamples.ParentBeforeChild | src/DependencyInjection/NavigationExtension.php:92-127 | for `{a: top, b: parent a}`, the root of `b` attaches `a` first and `b` last, both without `parent` |
| BreadcrumbExamples.ParentBeforeChildCompiled | src/DependencyInjection/NavigationExtension.php:92-127 | the same root with `createMenuItemDefinition` as the item compiler |

## Left out

- MenuItems.ValidateItem: `validateMenuItemConfig` runs the Symfony Config processor with
  the item schema. That schema (defaults, normalisation, rejection of unknown keys) lives in
  `Configuration`, which is not part of this model. The model keeps only the `array` type
  requirement and passes the item through unchanged. The static `$configTree` cache exists
  only for speed and has no counterpart.
- `load` is not modelled, because `processConfiguration` and `$container->compile()` are
  framework calls. `RegisterMenus` and `RegisterBreadcrumbs` take the processed `menus` and
  `breadcrumbs` arrays instead.
- `setFactoryService` chooses between `setFactory` and `setFactoryService` /
  `setFactoryMethod`, depending on the Symfony version. Both record the same (service,
  method) pair, which is all the model keeps.
- `Reference`, `Expression` and `Definition` are Symfony classes. They are replaced by the
  `Instr` variants. Their string casts of ids and expression texts are not modelled; the
  configured values are kept as they are.
- PhpValues.Merge: `array_merge` renumbers integer keys. Keys here are strings (an integer
  key is written as its decimal text), so the renumbering is not modelled.
- Floating-point values are not modelled: `PhpValues.Value` has no float variant, so
  `PhpValues.Empty` does not cover `empty(0.0)`. The extension never computes with a
  number. A configured float is only copied into options and arguments, which the model
  does for every value it has. `empty` is applied only to the `service`, `method`,
  `expression` and `children` entries, which the configuration schema never makes floats.
- PhpValues.Index: reading an offset of a string or an object is not modelled. It reads as
  null.
- Breadcrumbs.Walk: a `parent` that is neither null nor a string ends the walk with a type
  error. PHP would use an integer or boolean parent as an array key. The configuration only
  produces strings.
- Registration is all-or-nothing in the model. The definitions that `setDefinition` stored
  before an exception stay in the container in PHP; the model returns only the error.
- MenuItems.MergeOptions: the model follows PHP 8, where `array_merge` with a non-array
  `options` throws a `TypeError`. PHP 5 and 7 only warn and return null. The item then
  compiles to null, and its parent gets an unnamed `addChild(null)` call (lines 207-209
  and 224-225). The configuration schema always gives `options` an array, so the
  difference is not reachable from a processed configuration.
- Menus.MergedMenu: follows PHP 8 in the same way, failing at line 63. PHP 5 and 7 fail
  too, one step later: the null menu's `items` reaches the `array` parameter of
  `buildMenuDefinition` at line 67. The menu is not registered in any version; only
  where the error is raised, and its text, differ.
