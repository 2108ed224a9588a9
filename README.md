# A verified model of a minimal Vuex store

This project models the core of `vuex.js`, a small reimplementation of the
Vuex state-management library. The store is built from one nested
configuration object `{state, getters, mutations, actions, modules}`. Building
it does four things:

- `ModuleCollection` registers every module into a tree of nodes
  `{_raw, _children, state}`, parents first.
- `installModule` walks that tree depth-first. It mounts each module's state
  slice into the root state at the module's path with `Vue.set`.
- It defines every getter on the single flat `store.getters` object, whichever
  module declared it.
- It appends one wrapper per mutation and per action to the flat tables
  `store.mutations` and `store.actions`. Two modules that use the same name both
  get a handler; nothing is overwritten.

`commit(type, ...args)` and `dispatch(type, ...args)` then run every handler
registered under `type`, in registration order.

Files and modules:

- `common.dfy` (`Common`): the `Option`, `Result` and `Outcome` wrappers.
- `entries.dfy` (`Entries`): JavaScript objects used as dictionaries.
  - An object is an ordered sequence of `(key, value)` entries, so that
    `for...in` order is kept. That is the `forEach` helper, vuex.js:137-141.
  - `Put` is property assignment: an existing key keeps its place and gets the
    new value; a new key goes at the end.
- `state_tree.dfy` (`StateTree`): the state tree as values.
  - `Walk` is the `reduce` over a path.
  - `SetAt` and `Mount` are `Vue.set` on the parent slice.
- `module_collection.dfy` (`Modules`): the class `ModuleCollection`.
  - Its recursive method `Register` has a loop over the child modules.
  - It is proved against the pure tree builders `Build`, `Graft` and `Attach`.
- `install.dfy` (`Install`): `installModule` as a pure function, `InstallSpec`.
  - It records what each step writes into the store's tables.
  - Lemmas give the closed form of the whole installation.
- `store.dfy` (`Vuex`): the class `Store`.
  - It holds the fields `state`, `getters`, `mutations`, `actions` and
    `modules`.
  - `InstallModule` is imperative and is proved equal to `InstallSpec`.
  - Its loops are separate methods, each proved equal to a pure function:
    - `DefineModuleGetters` to `DefineGetters`;
    - `PushActions` and `PushMutations` to `AddHandlers`;
    - `InstallChildModules` to `InstallChildren`.
  - It also contains `Commit`, `Dispatch` and `NewStore`.
  - It states store-level properties in terms of the configuration alone.
  - It ends with a worked example.

Functions named in the configuration are not run. Each is identified by a
number (`FnId`). A mutation or action handler is described by the function it
calls and the first argument it passes: `RootState` for a mutation, `TheStore`
for an action. `Commit` and `Dispatch` return the ordered list of invocations
they make. Reading a getter gives the function and the state slice it is
applied to.

Some behaviour follows the code where a plain reading of the library's intent
would expect something else:

- **Getter redefinition.** Two getters with the same name anywhere in the tree
  make store construction fail (`GetterRedefined`). `Object.defineProperty`
  defaults to `configurable: false`, so the second definition throws. It does
  not replace the first.
- **Mounting below a non-object.** Installation also fails (`MountFailed`) when
  a module that has sub-modules has a state that is not an object. For the
  root, `options.state || {}` must be an object. Its children would be mounted
  with `Vue.set` on a primitive or `undefined`, and that throws.
- **Root getter state.**
  - Root getters receive the module node's `state`, which is the raw
    `options.state`. It is not `options.state || {}`, so a root without
    `state` gives its getters `undefined`.
  - A getter of a module whose state is an object reads that object, which
    is the object mounted at the module's path during installation.
  - A getter of a module whose state is a primitive sees that primitive.

## Model

| member | source | states |
|---|---|---|
| Entries.Get | vuex.js:21-24 | reading `o[k]` gives `undefined` exactly when `k` is not an own key, and otherwise a value stored under `k` |
| Entries.PutGet | vuex.js:24 | after assigning `o[k] = v`, reading `o[k]` gives `v` |
| Entries.PutOther | vuex.js:24 | assigning one key leaves every other key's value unchanged |
| Entries.PutKeys | vuex.js:24 | assignment keeps the key order and appends a key only if it is new |
| Entries.PutNew | vuex.js:24 | assigning a new key adds the entry at the end of the enumeration order |
| Entries.PutTwice | vuex.js:24 | the second of two assignments to the same key wins |
| Entries.PutKeepsDistinct | vuex.js:24 | an object never gets a key twice through assignment |
| Entries.GetDistinct | vuex.js:137-141 | each entry that `forEach` visits gives its key and the value stored under that key |
| StateTree.Prop | vuex.js:56 | a property read throws only on `undefined`, and a defined result is the object's own property |
| StateTree.Mount | vuex.js:54-59 | `Vue.set` at a module path succeeds exactly when the walk to the parent reaches an object, and afterwards the walk along the path reads the mounted slice |
| StateTree.WalkSetAtSelf | vuex.js:58 | after mounting, the walk along the module path reads the mounted slice |
| StateTree.WalkSetAtElsewhere | vuex.js:55-58 | mounting leaves every path off the mounted branch unchanged, and below the path the tree is the mounted slice |
| StateTree.SetAtTwice | vuex.js:58 | mounting twice at the same path keeps the second slice |
| StateTree.WalkAppend | vuex.js:55-57 | walking `a + b` is walking `a` and then `b` |
| Modules.ModuleCollection.constructor | vuex.js:4-7 | the root is the tree built from the whole configuration |
| Modules.ModuleCollection.Register | vuex.js:8-32 | registering succeeds exactly when the path is the root or its parent is already registered; on success the tree is the old tree with the module's whole subtree attached at the path, and on failure it is unchanged |
| Modules.ModuleCollection.RegisterModule | vuex.js:27-31 | one `forEach` step registers the next child's subtree under its name, keeping the subtrees placed so far |
| Modules.RegisterStep | vuex.js:21-29 | attaching the next child below a partly registered node gives the node with one more child |
| Modules.FindGraft | vuex.js:21-24 | after grafting a node at a path, lookups at or below the path go into the new node and lookups elsewhere are unchanged |
| Modules.GraftExtend | vuex.js:24-29 | registering a child below a just-registered node equals registering the node with that child already in `_children` |
| Modules.ChildrenAreBuilt | vuex.js:27-31 | every entry of `_children` is a child configuration's name paired with that child's built subtree |
| Modules.ChildrenInOrder | vuex.js:27-31 | with distinct child names, `_children` lists exactly the configured children, in configuration order, each built recursively |
| Modules.ChildrenDistinct | vuex.js:24-30 | no name occurs twice in a node's `_children` |
| Modules.BuildDistinct | vuex.js:10-31 | no name occurs twice in `_children` anywhere in the built tree |
| Modules.ChildrenGet | vuex.js:24-30 | looking a child up by name gives the subtree built from the configuration of that name |
| Modules.BuildFindsConfig | vuex.js:6-31 | following a path in the module tree reaches a module exactly when following it in the nested `modules` configuration does, and then it reaches the subtree built from that configuration |
| Install.BindGetters | vuex.js:61-70 | each declared getter is bound, in order, to its own function and to the state slice of its module |
| Install.HandlersAccumulate | vuex.js:71-88 | after a module's mutations or actions are pushed, a name's handlers are its old handlers followed by one handler per declaration of that name, in order; a name has an entry exactly when it had one or is declared |
| Install.MatchingSnoc | vuex.js:72-88 | one more declaration adds one handler at the end exactly when it carries the name, so a name's handlers follow its declarations in order |
| Install.MatchingBinds | vuex.js:74-87 | every handler under a name calls a function declared under that name and passes the bound first argument |
| Install.MatchingEmpty | vuex.js:75 | a name gets no handler exactly when it is not declared |
| Install.AddHandlersAppend | vuex.js:89-95 | pushing two declaration lists one after the other equals pushing their concatenation |
| Install.GettersDefinedIff | vuex.js:61-70 | defining a batch of getters succeeds exactly when its names are distinct and none is already defined |
| Install.GettersDefinedValue | vuex.js:61-70 | after defining getters, the defined names are the old ones plus the declared ones, old getters are unchanged and each declared name holds its own getter |
| Install.DefineGettersAppend | vuex.js:61-70 | defining two batches one after the other equals defining their concatenation, and stops at the first failure |
| Install.InstallCharacterized | vuex.js:52-96 | installing a subtree succeeds exactly when its mount point can take it, every module with sub-modules has object state (for the root module, the current root state must be an object), and no getter of the subtree is redefined; the result is the state with the filled slice mounted, all getters defined, and all mutations and actions of the subtree pushed depth-first |
| Install.InstallChildrenCharacterized | vuex.js:89-95 | the loop over `_children` has the same closed form, restricted to the remaining children |
| Install.MountBelow | vuex.js:54-59 | a child can be mounted below its parent's slice exactly when that slice is an object |
| Install.StateMirrorsModules | vuex.js:54-59 | after installation, walking the root state along any module path reads that module's slice, filled with its own children's slices |
| Install.FillFromChild | vuex.js:89-95 | each child's filled slice ends up under its name in the parent's slice |
| Install.FillFromKeeps | vuex.js:89-95 | properties of a parent slice that no child name overwrites are kept |
| Install.GetterDeclared | vuex.js:61-70 | every getter of every module in the tree is among the getter declarations installation defines, bound to that module's slice at its full path |
| Install.ChildGetterDeclsContain | vuex.js:89-95 | the getters of any child subtree are among those the children loop defines |
| Install.DeclsFollowConfig | vuex.js:72-95 | the mutations and actions pushed by installing the registered tree are those of the nested configuration, depth-first in configuration order |
| Vuex.Store.constructor | vuex.js:99-110 | a new store has as initial state `options.state`, or an empty object when that is falsy, empty getter, mutation and action tables, and a fresh module collection holding the built tree |
| Vuex.Store.Commit | vuex.js:127-130 | committing throws exactly when no mutation of that name exists, and otherwise calls every handler in the table under that name, in order, with the arguments |
| Vuex.CommitOnBuiltStore | vuex.js:127-130 | on a store built from a configuration, committing fails exactly when no module declares that mutation, and otherwise the i-th call is the i-th such mutation in pre-order, on the store, with the root state and then the arguments |
| Vuex.Store.Dispatch | vuex.js:131-134 | dispatching throws exactly when no action of that name exists, and otherwise calls every handler in the table under that name, in order, with the arguments |
| Vuex.DispatchOnBuiltStore | vuex.js:131-134 | on a store built from a configuration, dispatching fails exactly when no module declares that action, and otherwise the i-th call is the i-th such action in pre-order, on the store, with the store and then the arguments |
| Vuex.RunHandlers | vuex.js:127-134 | the `forEach` over a handler list makes one invocation per handler, in order |
| Vuex.CallsEach | vuex.js:74-87 | the i-th invocation calls the i-th handler's function on the store, with that handler's first argument followed by the caller's arguments |
| Vuex.InstallModule | vuex.js:52-96 | the imperative installation leaves the store in exactly the state of the installation function, and throws exactly when it does, with the same error |
| Vuex.DefineModuleGetters | vuex.js:61-70 | the getter loop defines exactly the module's getters, or fails on the first redefinition, touching nothing else |
| Vuex.PushActions | vuex.js:72-80 | the action loop appends one handler per declared action and touches nothing else |
| Vuex.PushMutations | vuex.js:81-88 | the mutation loop appends one handler per declared mutation and touches nothing else |
| Vuex.InstallChildModules | vuex.js:89-95 | the children loop installs each child subtree in order, as the installation function does |
| Vuex.NewStore | vuex.js:99-113 | `new Store(options)` succeeds exactly when installing the whole tree does, and the new store holds the installed tables and the registered module tree |
| Vuex.StoreBuilds | vuex.js:99-113 | a store can be built exactly when every module with sub-modules has object state (for the root, `options.state`, or `{}` when that is falsy, must be an object) and no getter name is declared twice in the whole configuration |
| Vuex.StoreStateMirrorsConfig | vuex.js:52-59 | in a built store, walking the state along any configured module path reads that module's own state with its sub-modules' states mounted in it |
| Vuex.StoreHandlersFollowConfig | vuex.js:71-95 | in a built store, the handlers under a mutation or action name are exactly that name's declarations across all modules, depth-first in configuration order |
| Vuex.GetterSeesOwnState | vuex.js:61-70 | in a built store, every configured getter reads its own module's state: the object mounted at its module path during installation when its state is an object, and the raw value otherwise |
| Vuex.ExampleStore | vuex.js:99-113 | a root with `count` and one mutation `inc`, plus a module `a` with state `{x: 1}` and getter `getX`, gives a store whose state is `{count: 0, a: {x: 1}}`, where `getX` reads `{x: 1}` and `inc` has one handler passed the root state |

## Left out

- `install` and `Vue.mixin` (vuex.js:35-50): they inject `$store` into components. That is framework wiring, with no state of the store's own.
- Vue reactivity, `_vm` and the `state` accessor (vuex.js:104-108, 124-126): the store's `state` field stands for `this._vm.state`. Change notification is not modelled.
- `Object.defineProperty` mechanics: a getter is modelled as its function and the slice it reads. The getter is not evaluated.
- Handler bodies and the asynchrony of actions: configured functions are opaque identifiers. Commit and dispatch return the invocations they would make and do not change the state. Handlers are assumed not to throw; one that throws would stop the remaining calls (vuex.js:129, 133).
- `console.log` (vuex.js:91, 111): output only.
- The enumeration order of integer-like keys, which JavaScript lists first: keys are enumerated in insertion order.
- Names inherited from `Object.prototype` (`constructor`, `toString`, `__proto__`): a missing own key reads as absent. A mutation or action with such a name finds an inherited non-array at vuex.js:75 or 83, so `entry.push` throws and `new Store` fails; the model installs the handler instead.
- Aliasing of state objects: the state is a value, so a module's slice and the root state's copy of it are related by the lemmas, not by sharing.
- Primitive kinds: every primitive is a `Num`, and `0` is its only falsy value besides `undefined`. `null` is not modelled: it is falsy when it is `options.state` (vuex.js:100), and a property read on it throws (vuex.js:56), but no `Value` stands for it.
- Vuex.GetterSeesOwnState: a getter is modelled as reading the slice at its module's path (`Live(path)`). The JavaScript getter holds the module's state object itself (vuex.js:66). The two agree only until a mutation replaces the property at that path; the model has no operation that changes the state after installation.
- Vuex.Store.Commit: the wrapper installed by the constructor (vuex.js:117-122) returns `undefined`. The model returns the invocation list instead.
- Vuex.Store.Dispatch: the model returns the invocation list for the same reason as `Commit`.
- Modules.ModuleCollection.Register: where the code throws because the parent path is not registered, the model returns `false` and leaves the tree unchanged. Registration from the constructor never reaches that case.
