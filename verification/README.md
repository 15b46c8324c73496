# Mechanic evolution graph — Dafny model

A Dafny model of the logic core of a small web backend for "game mechanics"
connected by typed, directed "evolution links", with e-mail/password
authentication, and of the browser script that turns its JSON into graph
elements.

- **Tree builder** (`get_tree.dfy`, module `GetTree`): `GetMechanicTreeUseCase`
  expands a root mechanic into a nested `MechanicTree`, one child per outgoing
  link in stored order, cutting cycles with a visited set that each child call
  receives as its own copy. The model proves termination on cyclic graphs
  (decreasing number of unvisited ids, with a height bound in the contract),
  the root-not-found error, child order, and a *path semantics*: a position in
  the tree exists exactly when it follows existing links through ancestors whose
  ids are pairwise distinct, and the subtree there depends only on those
  ancestors, never on siblings.
- **Entities** (`mechanic.dfy`, `link.dfy`, `user.dfy`): construction-time
  validation of `GameMechanic`, `EvolutionLink`, `User`, and the defaults of
  `EmailToken`.
- **Use cases** (`create_mechanic.dfy`, `auth.dfy`): the blank-name guard
  before the repository's `create`; registration, login and e-mail
  verification as ordered check sequences. Each outcome also records what was
  handed to `create`.
- **Current-user resolution** (`dependencies.dfy`): `Authorization` header
  parsing and the choice of HTTP status for each failure.
- **Client view** (`graph_view.dfy`): `displayGraph` and the `buildElements`
  walk of `displayTree`. That walk uses one visited set shared by the whole
  walk, unlike the backend's per-path set.
- Shared pieces: `wrappers.dfy` (`Option`, `Result`, the raised exceptions),
  `text.dfy` (Python whitespace, `strip()`, `split()`, lower-casing, and the
  decimal text of an integer in a JavaScript template), `collaborators.dfy`
  (the user repository interface and the uninterpreted security functions).

Repositories are pure functions over one snapshot of the stored data. The
mechanic repository is `getById`. The link repository is "outgoing links of a
mechanic, in stored order". The use case calls `list_by_from_id` but the
interface declares `list_links_from`; both are this one function. Hashing,
token creation and token verification are function parameters with no
interpretation. `datetime.utcnow()` is a `now` parameter.

Three behaviours of the code worth noting:
- A link whose target has no mechanic is **not** skipped. It becomes a child
  whose mechanic is absent (`BranchExample` shows one).
- A truncated node is a plain leaf carrying its re-fetched mechanic. There is
  no cycle marker in the backend tree.
- Outgoing links are read per node. There is no bulk load.

## Model

| member | source | states |
|---|---|---|
| `Text.EmptyAfterStripIffBlank` | App/entities/mechanic.py:15 | the test `not s or len(s.strip()) == 0` holds exactly when every character of `s` is whitespace |
| `Text.SplitJoinSpaced` | App/interfaces/api/dependencies.py:54 | `split()` gives back the words joined by single spaces, for non-empty words without whitespace |
| `Text.LowerEqualsIffSpells` | App/interfaces/api/dependencies.py:55 | comparing `scheme.lower()` with a lower-case word is a case-insensitive comparison |
| `Text.PrefixedIntInjective` | static/script.js:291 | an element id `node-${id}` determines the id |
| `Mechanic.NewGameMechanic` | App/entities/mechanic.py:5-16 | construction fails with "Mechanic name cannot be empty" exactly when the name is empty or whitespace only; otherwise every field is stored unchanged |
| `Mechanic.DefaultsAndIdIrrelevant` | App/entities/mechanic.py:8-11 | omitted description and year are absent; validity does not depend on the id |
| `Mechanic.BlankNamesRejected` | App/entities/mechanic.py:15-16 | `""` and `"   "` are rejected; a name with a visible character is accepted |
| `Link.NewEvolutionLink` | App/entities/link.py:5-18 | a self-loop fails with "Link cannot point to itself" (checked first, even when the type is also blank); otherwise a blank type fails with "Link type cannot be empty"; otherwise the fields are stored unchanged |
| `Link.IdIrrelevant` | App/entities/link.py:8 | validity does not depend on the id |
| `User.NewUser` | app/entities/user.py:6-21 | empty email fails first with "Email cannot be empty", then empty username with "Username cannot be empty"; no trimming, so whitespace is accepted; fields are stored unchanged |
| `User.NewUserDefaults` | app/entities/user.py:9-14 | defaults: not verified, no id, no creation time; whitespace-only email and username are accepted |
| `User.NewEmailToken` | app/entities/user.py:24-32 | the token is built from any arguments, without validation |
| `User.EmailTokenDefaults` | app/entities/user.py:27-32 | a default token is unused, for user 0, with empty token text and no id or timestamps |
| `GetTree.BuildTree` | App/use_cases/get_tree.py:33-49 | the node carries the mechanic fetched for its id; an id already visited is a leaf that depends on no link lookup; otherwise there is one child per outgoing link, in order, child i carrying the mechanic of link i's target even when that is absent; height is at most the number of unvisited ids plus one, which also shows termination |
| `GetTree.Execute` | App/use_cases/get_tree.py:24-31 | fails with "Mechanic not found" exactly when the root id has no mechanic; otherwise the result is the tree built from the root with an empty visited set, its mechanic is the requested one and its height is at most one more than the number of distinct ids among the stored ones and the root |
| `GetTree.ExecutePathSemantics` | App/use_cases/get_tree.py:28-49 | in a tree the use case returns, a position exists iff it follows existing links from the root and the ids strictly above it are pairwise distinct; the subtree there is the tree built for that id with exactly its ancestors as the visited set |
| `GetTree.PathSemantics` | App/use_cases/get_tree.py:35-48 | a tree position exists iff it follows existing links and the ids strictly above it are pairwise distinct and unvisited; the subtree there is the tree built for that id with exactly its ancestors as the visited set |
| `GetTree.CycleTruncatedToLeaf` | App/use_cases/get_tree.py:35-37 | a position whose id already occurs on its own path is a leaf with that id's mechanic |
| `GetTree.SiblingsIndependent` | App/use_cases/get_tree.py:45-47 | two links from the same node to the same target give identical subtrees, because each child gets its own copy of the visited set |
| `GetTree.CycleExample` | tests/test_use_cases.py:110-135 | on the cycle 1 -> 2 -> 3 -> 1 the build stops, and the second occurrence of 1 is a leaf |
| `GetTree.BranchExample` | tests/test_use_cases.py:73-107 | the test's two typed links give two children in link order, each without children; the scenario extends the test with a third, dangling link, which gives a child with an absent mechanic |
| `GetTree.NotFoundExample` | tests/test_use_cases.py:137-143 | id 9999 is reported as not found |
| `CreateMechanic.Execute` | App/use_cases/create_mechanic.py:11-16 | a blank name fails with "Mechanic name cannot be empty" and `create` is never called; otherwise `create` is called exactly once, with the mechanic, and its result is returned |
| `CreateMechanic.GuardMatchesConstructor` | App/use_cases/create_mechanic.py:13-14 | the use-case guard rejects exactly the names the entity constructor rejects, with the same error |
| `CreateMechanic.BlankNameExamples` | tests/test_use_cases.py:29-57 | the use-case guard refuses `""` and `"   "` without reaching the repository; the tests build these mechanics outside `pytest.raises` (lines 34-39 and 49-54), so there the constructor raises first (`Mechanic.BlankNamesRejected`), and the guard is reached only by a mechanic whose name is reassigned after construction |
| `Auth.Register` | app/use_cases/auth.py:15-36 | a taken email fails first ("Email already registered"), then a taken username ("Username already taken"), then an empty email ("Email cannot be empty"), then an empty username ("Username cannot be empty"), all before `create` is called; otherwise exactly one unverified user with the hashed password and no id is created, and the repository's result is returned |
| `Auth.Authenticate` | app/use_cases/auth.py:45-58 | an unknown email and a wrong password both fail with "Invalid credentials"; only after a correct password does an unverified user fail with "Email not verified"; success returns the user with a token for the user's id |
| `Auth.VerifyEmail` | app/use_cases/auth.py:67-71 | always fails as not implemented |
| `Auth.RegisteredUserCannotLogIn` | app/use_cases/auth.py:27-55 | a user just registered cannot log in: the right password gives "Email not verified" and any other password fails |
| `Dependencies.ResolveUser` | App/interfaces/api/dependencies.py:42-86 | missing/empty header, header not made of two words, scheme other than bearer (any case), token that verifies to no id or to 0, and unknown user fail with the caller's status and their own message; an unverified user always fails with 403; otherwise the user stored under the token's id is returned |
| `Dependencies.GetCurrentUser` | App/interfaces/api/dependencies.py:89-94 | an unverified user fails with 403 "User email not verified"; every other failure is 401; each failure carries the same message as the 403 variant's, and it succeeds exactly when the 403 variant does; success returns the user stored under the id of an accepted token |
| `Dependencies.GetCurrentUserForbidden` | App/interfaces/api/dependencies.py:97-102 | every failure is 403, with the same message as the 401 variant's; it succeeds exactly when the 401 variant does; success returns the user stored under the id of an accepted token |
| `Dependencies.BearerHeaderUsesToken` | App/interfaces/api/dependencies.py:53-59 | `<scheme> <token>` with a bearer scheme in any case and a token without whitespace is accepted, and its token is exactly the given one |
| `Dependencies.IssuedTokenResolves` | App/interfaces/api/dependencies.py:66-86 | `Bearer <token>` with a login token that verifies back to a stored, verified user resolves to that user |
| `GraphView.DisplayGraph` | static/script.js:284-310 | the two push loops build one node per mechanic, then one edge per link, each in list order |
| `GraphView.GraphShape` | static/script.js:285-310 | the count is mechanics plus links, and every node element comes before every edge element |
| `GraphView.NodeKeyResolves` | static/script.js:288-310 | an edge endpoint `node-${id}` names a node element exactly when some listed mechanic has that id |
| `GraphView.BuildElements` | static/script.js:404-433 | a node already visited anywhere in the walk adds nothing; otherwise its own element comes first, and the edges leaving it are exactly one `edge-{node}-{child}` per child not flagged as a cycle, in child order; only elements of the node's tree are emitted; every edge comes after the node elements of both its ends; new node ids are distinct and unvisited before |
| `GraphView.EmitChildren` | static/script.js:418-431 | every child not flagged as a cycle is visited by the end, and gets its edge from the parent in child order, even when it had been visited before; no other edge leaves the parent; only the children's elements and edges are emitted, each edge after both its ends; the visited set grows by exactly the new, distinct node ids |
| `GraphView.DisplayTree` | static/script.js:400-435 | the root comes first; the root's children not flagged as cycles each have a node element and one edge from the root, in child order; only elements of the tree are emitted, each edge after the node elements of both its ends; each mechanic id gives at most one node element, so node element ids never repeat |
| `GraphView.WalkComplete` | static/script.js:404-431 | when the ids of the tree's non-cycle nodes are distinct and none is visited yet, the walk emits exactly the pre-order listing of the tree: each node, then per non-cycle child that child's elements followed by its edge; the visited set grows by exactly those ids |
| `GraphView.ChildrenComplete` | static/script.js:418-431 | under the same conditions for a child list, the children emit exactly their pre-order listing, each child's subtree followed by its edge from the parent |
| `GraphView.PreorderDrawsTree` | static/script.js:404-431 | the pre-order listing contains every element of the tree and nothing else, so nothing below the root's children is lost |
| `GraphView.DisplayTreeComplete` | static/script.js:400-435 | for a tree whose non-cycle node ids are distinct, the elements handed to the drawing library are exactly the pre-order listing, and as a set exactly the tree's elements |
| `GraphView.WalkFirstCopies` | static/script.js:404-431 | when every node whose id was visited before or occurs earlier in pre-order has no child left to walk (the backend's cut at a cycle), the walk emits the pre-order listing with every node element dropped whose id was already seen, so the first copy of an id is the one drawn, and keeps every edge; the visited set grows by exactly the tree's ids |
| `GraphView.ChildrenFirstCopies` | static/script.js:418-431 | the same for a child list: each child's subtree, with repeated node elements dropped, followed by its edge from the parent |
| `GraphView.DisplayTreeFirstCopies` | static/script.js:400-435 | for a tree whose later copies of an id are bare, the elements handed to the drawing library are the pre-order listing keeping only the first node element of each id and every edge |
| `GraphView.PruneCyclesKeepsElements` | static/script.js:420 | children flagged as cycles give no node and no edge: removing them everywhere leaves the elements unchanged |
| `GraphView.RepeatedChildRepeatsEdgeId` | static/script.js:419-429 | two links from one mechanic to the same mechanic, with different types, give two different edges leaving the parent with the same element id `edge-{parent}-{child}`, because the edge is pushed even when the child was already visited |

## Left out

- Storage: the SQLAlchemy repositories, models, sessions and engine. Repositories are pure lookups over one snapshot. Cascade deletion of links is a database guarantee, not code.
- `async`/`await`: every repository call is a synchronous lookup.
- Hashing and tokens (bcrypt, JWT, random e-mail tokens): left uninterpreted. `Auth.RegisteredUserCannotLogIn` and `Dependencies.IssuedTokenResolves` assume as preconditions what these libraries guarantee: a password verifies against its own hash, and a token verifies back to its user id.
- `Dependencies.ResolveUser`: `verify_token` is a total function parameter returning an optional id. In app/infra/security.py:43 the source catches `jwt.PyJWTError` from `jose`, which python-jose does not define, so a malformed token likely surfaces as an `AttributeError` (a 500) rather than `None`; a `sub` that is not an integer string raises `ValueError` from `int`. The model treats every such token as one that verifies to no id.
- HTTP routes, schemas, application setup and configuration. The auth routes build `RegisterUserUseCase` with two repositories and unpack a `(user, token)` pair. That does not match the use case as written, which is modelled.
- The React front end, and the DOM, fetch and authentication handlers of the browser script, including the calls to the drawing library.
- `GetTree.BuildTree`: requires `WellFormed`, i.e. every stored link target lies in a finite id set. A database is finite; the model needs this to bound the recursion.
- `GetTree.BuildTree`: Python's recursion limit is not modelled. `_build_tree` recurses once per tree level (App/use_cases/get_tree.py:46), so a chain of roughly a thousand distinct mechanics raises `RecursionError` in the source. The model builds the tree for any depth.
- `GetTree.Execute`: requires the same `WellFormed` condition as `GetTree.BuildTree`.
- `Dependencies.ResolveUser`: the scheme is lower-cased for ASCII letters only. No other character lower-cases to a letter of "bearer", so the comparison is unaffected.
- `Text.Lower`: ASCII letters only, for the same reason.
- `GraphView.DisplayTree`: the client reads `tree.root`, `node.cycle` and `child.type`. The backend tree it models has fields `mechanic` and `children` only. The client input is therefore its own JSON datatype, not the backend's `MechanicTree`. An absent `children` is treated as an empty list.
- `GraphView.DisplayTree`: for a tree in which a later copy of an id still has children to walk (a diamond in the backend's tree, whose visited set is per path), no lemma gives the drawing in closed form. The walk itself models that case: such a copy adds only its edge, and nothing below it is drawn.
- The client receives ids as JSON numbers. Only integer ids are modelled, and an absent id (rendered "null") is not. `Text.IntToString` writes every digit of an id, whereas `${id}` on a JavaScript number loses digits above 2^53 and switches to exponent form from 1e21 up; such ids are outside the model.
