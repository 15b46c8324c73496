/** The evolution-tree builder (App/use_cases/get_tree.py): starting from a
    root mechanic, every outgoing link is expanded recursively into a nested
    `MechanicTree`. A mechanic id already on the path from the root is not
    expanded again; it becomes a leaf. Each child call receives its own copy
    of the visited set, so only ancestors, never siblings, cause truncation. */
module GetTree {
  import opened Wrappers
  import opened Mechanic
  import opened Link

  /** The two repositories the use case reads, as pure lookups:
      `getById` is `IMechanicRepository.get_by_id`, `linksFrom` is the
      "outgoing links of a mechanic, in stored order" query, and `ids` is the
      finite set of mechanic ids the stored links can point to. */
  datatype Repositories = Repositories(
    getById: int -> Option<GameMechanic>,
    linksFrom: int -> seq<EvolutionLink>,
    ids: set<int>)

  /** The stored links form a finite graph: every link target lies in `ids`. */
  ghost predicate WellFormed(repo: Repositories) {
    forall id, k :: 0 <= k < |repo.linksFrom(id)| ==> repo.linksFrom(id)[k].toId in repo.ids
  }

  /** `MechanicTree`: the mechanic fetched for a node (absent when the id has
      no mechanic) and one child per outgoing link. */
  datatype MechanicTree = MechanicTree(mechanic: Option<GameMechanic>, children: seq<MechanicTree>)

  function Max(a: nat, b: nat): nat {
    if a < b then b else a
  }

  /** Number of nodes on the longest root-to-leaf path. */
  function Height(t: MechanicTree): nat
    decreases t
  {
    1 + MaxHeight(t.children)
  }

  function MaxHeight(ts: seq<MechanicTree>): nat
    decreases ts
  {
    if |ts| == 0 then 0 else Max(Height(ts[0]), MaxHeight(ts[1..]))
  }

  lemma {:induction false} MaxHeightBounded(ts: seq<MechanicTree>, bound: nat)
    requires forall i :: 0 <= i < |ts| ==> Height(ts[i]) <= bound
    ensures MaxHeight(ts) <= bound
  {
    if |ts| > 0 {
      MaxHeightBounded(ts[1..], bound);
    }
  }

  /** The ids not yet on the path, among the stored ones and `id` itself. */
  function Unvisited(repo: Repositories, id: int, visited: set<int>): set<int> {
    (repo.ids + {id}) - visited
  }

  /** Entering `id` shrinks the unvisited ids of every stored target. */
  lemma UnvisitedShrinks(repo: Repositories, id: int, visited: set<int>)
    requires id !in visited
    ensures forall c :: c in repo.ids ==>
      Unvisited(repo, c, visited + {id}) == Unvisited(repo, id, visited) - {id}
    ensures |Unvisited(repo, id, visited) - {id}| + 1 == |Unvisited(repo, id, visited)|
  {
  }

  /** `_build_tree(mechanic_id, visited)`. */
  function BuildTree(repo: Repositories, mechanicId: int, visited: set<int>): (t: MechanicTree)
    requires WellFormed(repo)
    ensures t.mechanic == repo.getById(mechanicId)
    ensures mechanicId in visited ==> t == MechanicTree(repo.getById(mechanicId), [])
    ensures mechanicId !in visited ==>
      && |t.children| == |repo.linksFrom(mechanicId)|
      && forall i :: 0 <= i < |t.children| ==>
           t.children[i].mechanic == repo.getById(repo.linksFrom(mechanicId)[i].toId)
    ensures Height(t) <= |Unvisited(repo, mechanicId, visited)| + 1
    decreases |Unvisited(repo, mechanicId, visited)|
  {
    if mechanicId in visited then
      MechanicTree(repo.getById(mechanicId), [])
    else
      var links := repo.linksFrom(mechanicId);
      var inner := visited + {mechanicId};
      UnvisitedShrinks(repo, mechanicId, visited);
      var children := seq(|links|, i requires 0 <= i < |links| => BuildTree(repo, links[i].toId, inner));
      MaxHeightBounded(children, |Unvisited(repo, mechanicId, visited)|);
      MechanicTree(repo.getById(mechanicId), children)
  }

  const NotFoundMessage: string := "Mechanic not found"

  /** `GetMechanicTreeUseCase.execute`: an unknown root fails before any tree
      is built; otherwise the tree is built from an empty visited set. */
  function Execute(repo: Repositories, mechanicId: int): (r: Result<MechanicTree, Exception>)
    requires WellFormed(repo)
    ensures r.Failure? <==> repo.getById(mechanicId).None?
    ensures r.Failure? ==> r.error == ValueError(NotFoundMessage)
    ensures r.Success? ==> r.value.mechanic == repo.getById(mechanicId) && r.value.mechanic.Some?
    ensures r.Success? ==> r.value == BuildTree(repo, mechanicId, {})
    ensures r.Success? ==> Height(r.value) <= |repo.ids + {mechanicId}| + 1
  {
    if repo.getById(mechanicId).None? then Failure(ValueError(NotFoundMessage))
    else Success(BuildTree(repo, mechanicId, {}))
  }

  // ---------------------------------------------------------------------
  // Reference semantics: positions in the tree are walks in the graph.
  // ---------------------------------------------------------------------

  /** The ids met when, starting at `id`, the `path[k]`-th outgoing link is
      followed at step `k`; `None` if some step has no such link. */
  function Walk(repo: Repositories, id: int, path: seq<nat>): (w: Option<seq<int>>)
    ensures w.Some? ==> |w.value| == |path| + 1 && w.value[0] == id
    decreases |path|
  {
    if |path| == 0 then Some([id])
    else
      var links := repo.linksFrom(id);
      if path[0] < |links| then
        match Walk(repo, links[path[0]].toId, path[1..])
        case None => None
        case Some(rest) => Some([id] + rest)
      else None
  }

  /** The subtree reached by taking child `path[k]` at depth `k`. */
  function At(t: MechanicTree, path: seq<nat>): Option<MechanicTree>
    decreases |path|
  {
    if |path| == 0 then Some(t)
    else if path[0] < |t.children| then At(t.children[path[0]], path[1..])
    else None
  }

  /** The ids of `ids` are pairwise distinct and none of them is in `visited`. */
  predicate FreshPath(visited: set<int>, ids: seq<int>) {
    && (forall k :: 0 <= k < |ids| ==> ids[k] !in visited)
    && (forall j, k :: 0 <= j < k < |ids| ==> ids[j] != ids[k])
  }

  function Elements(ids: seq<int>): set<int> {
    set x | x in ids
  }

  lemma FreshPathCons(visited: set<int>, x: int, ids: seq<int>)
    ensures FreshPath(visited, [x] + ids) <==> x !in visited && FreshPath(visited + {x}, ids)
  {
    var s := [x] + ids;
    if x !in visited && FreshPath(visited + {x}, ids) {
      forall j, k | 0 <= j < k < |s|
        ensures s[j] != s[k]
      {
        if j > 0 {
          assert s[j] == ids[j - 1] && s[k] == ids[k - 1];
        } else {
          assert s[k] == ids[k - 1];
        }
      }
    }
    if FreshPath(visited, s) {
      forall k | 0 <= k < |ids|
        ensures ids[k] !in visited + {x}
      {
        assert s[0] == x && ids[k] == s[k + 1];
      }
      forall j, k | 0 <= j < k < |ids|
        ensures ids[j] != ids[k]
      {
        assert ids[j] == s[j + 1] && ids[k] == s[k + 1];
      }
    }
  }

  /** Path semantics of `BuildTree`: a position exists in the tree exactly
      when it follows existing links and every id strictly above it is
      expanded, that is, the ids of the walk above it are pairwise distinct
      and outside `visited`. The subtree found there is the tree built for
      the walk's last id with only `visited` and that node's own ancestors
      as its visited set: siblings and their subtrees play no part. */
  lemma {:induction false} PathSemantics(repo: Repositories, id: int, visited: set<int>, path: seq<nat>)
    requires WellFormed(repo)
    ensures At(BuildTree(repo, id, visited), path).Some? <==>
      (Walk(repo, id, path).Some? && FreshPath(visited, Walk(repo, id, path).value[..|path|]))
    ensures At(BuildTree(repo, id, visited), path).Some? ==>
      var w := Walk(repo, id, path).value;
      At(BuildTree(repo, id, visited), path).value
        == BuildTree(repo, w[|path|], visited + Elements(w[..|path|]))
    decreases |path|
  {
    if |path| == 0 {
      assert Walk(repo, id, path).value[..0] == [];
      assert Elements([]) == {};
    } else if id in visited {
      VisitedPosition(repo, id, visited, path);
    } else if path[0] < |repo.linksFrom(id)| {
      PathSemantics(repo, repo.linksFrom(id)[path[0]].toId, visited + {id}, path[1..]);
      ChildCase(repo, id, visited, path);
    }
  }

  /** The inductive step of `PathSemantics` through child `path[0]` of an
      unvisited id, given the property for that child. */
  lemma ChildCase(repo: Repositories, id: int, visited: set<int>, path: seq<nat>)
    requires WellFormed(repo)
    requires |path| > 0 && id !in visited && path[0] < |repo.linksFrom(id)|
    requires var c, inner, rest := repo.linksFrom(id)[path[0]].toId, visited + {id}, path[1..];
      && (At(BuildTree(repo, c, inner), rest).Some? <==>
           (Walk(repo, c, rest).Some? && FreshPath(inner, Walk(repo, c, rest).value[..|rest|])))
      && (At(BuildTree(repo, c, inner), rest).Some? ==>
           var w := Walk(repo, c, rest).value;
           At(BuildTree(repo, c, inner), rest).value
             == BuildTree(repo, w[|rest|], inner + Elements(w[..|rest|])))
    ensures At(BuildTree(repo, id, visited), path).Some? <==>
      (Walk(repo, id, path).Some? && FreshPath(visited, Walk(repo, id, path).value[..|path|]))
    ensures At(BuildTree(repo, id, visited), path).Some? ==>
      var w := Walk(repo, id, path).value;
      At(BuildTree(repo, id, visited), path).value
        == BuildTree(repo, w[|path|], visited + Elements(w[..|path|]))
  {
    var c := repo.linksFrom(id)[path[0]].toId;
    ChildPosition(repo, id, visited, path);
    match Walk(repo, c, path[1..])
    case None =>
    case Some(w') =>
      WalkStep(repo, id, visited, path, w');
  }

  /** Below an already visited id there is no position, and no walk through
      it is fresh. */
  lemma VisitedPosition(repo: Repositories, id: int, visited: set<int>, path: seq<nat>)
    requires WellFormed(repo)
    requires |path| > 0 && id in visited
    ensures At(BuildTree(repo, id, visited), path).None?
    ensures Walk(repo, id, path).Some? ==> !FreshPath(visited, Walk(repo, id, path).value[..|path|])
  {
    if Walk(repo, id, path).Some? {
      assert Walk(repo, id, path).value[..|path|][0] == id;
    }
  }

  /** Below an unvisited id, child `path[0]` is the tree built for that
      link's target with `id` added to the visited set. */
  lemma ChildPosition(repo: Repositories, id: int, visited: set<int>, path: seq<nat>)
    requires WellFormed(repo)
    requires |path| > 0 && id !in visited && path[0] < |repo.linksFrom(id)|
    ensures At(BuildTree(repo, id, visited), path)
         == At(BuildTree(repo, repo.linksFrom(id)[path[0]].toId, visited + {id}), path[1..])
  {
    ChildTree(repo, id, visited, path[0]);
  }

  /** Child `i` of an expanded node is the tree built for link `i`'s target,
      with the node's id added to the visited set. */
  lemma ChildTree(repo: Repositories, id: int, visited: set<int>, i: nat)
    requires WellFormed(repo)
    requires id !in visited && i < |repo.linksFrom(id)|
    ensures BuildTree(repo, id, visited).children[i]
         == BuildTree(repo, repo.linksFrom(id)[i].toId, visited + {id})
  {
  }

  /** One step of `PathSemantics`: the walk from `id` is `id` followed by the
      walk from the chosen child, and its freshness and ancestor set are the
      child's, with `id` added to the visited set. */
  lemma WalkStep(repo: Repositories, id: int, visited: set<int>, path: seq<nat>, w': seq<int>)
    requires |path| > 0 && path[0] < |repo.linksFrom(id)|
    requires Walk(repo, repo.linksFrom(id)[path[0]].toId, path[1..]) == Some(w')
    ensures Walk(repo, id, path) == Some([id] + w')
    ensures FreshPath(visited, ([id] + w')[..|path|]) <==>
      id !in visited && FreshPath(visited + {id}, w'[..|path| - 1])
    ensures ([id] + w')[|path|] == w'[|path| - 1]
    ensures visited + Elements(([id] + w')[..|path|]) == (visited + {id}) + Elements(w'[..|path| - 1])
  {
    var w := [id] + w';
    assert w[..|path|] == [id] + w'[..|path| - 1];
    FreshPathCons(visited, id, w'[..|path| - 1]);
  }

  /** What the use case returns, position by position: a position of the
      returned tree exists exactly when it follows existing links from the
      root through pairwise distinct ids, and the subtree there is the tree
      built for its id with exactly its ancestors visited. */
  lemma ExecutePathSemantics(repo: Repositories, root: int, path: seq<nat>)
    requires WellFormed(repo) && Execute(repo, root).Success?
    ensures At(Execute(repo, root).value, path).Some? <==>
      (Walk(repo, root, path).Some? && FreshPath({}, Walk(repo, root, path).value[..|path|]))
    ensures At(Execute(repo, root).value, path).Some? ==>
      var w := Walk(repo, root, path).value;
      At(Execute(repo, root).value, path).value == BuildTree(repo, w[|path|], Elements(w[..|path|]))
  {
    PathSemantics(repo, root, {}, path);
    if At(Execute(repo, root).value, path).Some? {
      var w := Walk(repo, root, path).value;
      assert {} + Elements(w[..|path|]) == Elements(w[..|path|]);
    }
  }

  /** Two links from the same mechanic to the same target produce identical
      subtrees, whatever lies between them: what one sibling expands never
      truncates another. */
  lemma SiblingsIndependent(repo: Repositories, id: int, visited: set<int>, i: nat, j: nat)
    requires WellFormed(repo)
    requires id !in visited
    requires i < j < |repo.linksFrom(id)|
    requires repo.linksFrom(id)[i].toId == repo.linksFrom(id)[j].toId
    ensures BuildTree(repo, id, visited).children[i] == BuildTree(repo, id, visited).children[j]
  {
  }

  /** A position whose id already occurs higher on its own path is a leaf
      carrying that id's mechanic: cycles are cut exactly where they close. */
  lemma CycleTruncatedToLeaf(repo: Repositories, root: int, path: seq<nat>, w: seq<int>, j: nat)
    requires WellFormed(repo)
    requires Walk(repo, root, path) == Some(w)
    requires At(BuildTree(repo, root, {}), path).Some?
    requires j < |path| && w[j] == w[|path|]
    ensures At(BuildTree(repo, root, {}), path) == Some(MechanicTree(repo.getById(w[|path|]), []))
  {
    PathSemantics(repo, root, {}, path);
    assert w[..|path|][j] == w[j];
  }

  // ---------------------------------------------------------------------
  // The scenarios of the use-case tests.
  // ---------------------------------------------------------------------

  function SampleMechanic(id: int): GameMechanic {
    GameMechanic(Some(id), "M", Some(""), Some(2024))
  }

  function SampleLink(fromId: int, toId: int, linkType: string): EvolutionLink {
    EvolutionLink(None, fromId, toId, linkType)
  }

  function Leaf(id: int): MechanicTree {
    MechanicTree(Some(SampleMechanic(id)), [])
  }

  /** Mechanics 1, 2 and 3 are stored; no other id has one. */
  function SampleMechanics(id: int): Option<GameMechanic> {
    if 1 <= id <= 3 then Some(SampleMechanic(id)) else None
  }

  /** Links 1 -> 2 -> 3 -> 1. */
  function CycleLinks(id: int): seq<EvolutionLink> {
    if id == 1 then [SampleLink(1, 2, "inheritance")]
    else if id == 2 then [SampleLink(2, 3, "inheritance")]
    else if id == 3 then [SampleLink(3, 1, "inheritance")]
    else []
  }

  function CycleRepo(): (repo: Repositories)
    ensures WellFormed(repo)
  {
    Repositories(SampleMechanics, CycleLinks, {1, 2, 3})
  }

  /** An expanded node with a single outgoing link has exactly the tree of
      that link's target as its child. */
  lemma SingleChild(repo: Repositories, id: int, visited: set<int>)
    requires WellFormed(repo)
    requires id !in visited && |repo.linksFrom(id)| == 1
    ensures BuildTree(repo, id, visited) == MechanicTree(repo.getById(id), [
              BuildTree(repo, repo.linksFrom(id)[0].toId, visited + {id})])
  {
    var t := BuildTree(repo, id, visited);
    ChildTree(repo, id, visited, 0);
    assert t.children == [t.children[0]];
  }

  /** The three levels built from mechanic 1 on the three-cycle. */
  lemma CycleTree()
    ensures BuildTree(CycleRepo(), 3, {1, 2}) == MechanicTree(Some(SampleMechanic(3)), [Leaf(1)])
    ensures BuildTree(CycleRepo(), 2, {1}) == MechanicTree(Some(SampleMechanic(2)), [
              MechanicTree(Some(SampleMechanic(3)), [Leaf(1)])])
    ensures BuildTree(CycleRepo(), 1, {}) == MechanicTree(Some(SampleMechanic(1)), [
              MechanicTree(Some(SampleMechanic(2)), [
                MechanicTree(Some(SampleMechanic(3)), [Leaf(1)])])])
  {
    var repo := CycleRepo();
    assert {} + {1} == {1} && {1} + {2} == {1, 2} && {1, 2} + {3} == {1, 2, 3};
    assert BuildTree(repo, 1, {1, 2, 3}) == Leaf(1);
    assert repo.linksFrom(3) == [SampleLink(3, 1, "inheritance")];
    SingleChild(repo, 3, {1, 2});
    assert repo.linksFrom(2) == [SampleLink(2, 3, "inheritance")];
    SingleChild(repo, 2, {1});
    assert repo.linksFrom(1) == [SampleLink(1, 2, "inheritance")];
    SingleChild(repo, 1, {});
  }

  /** Building from 1 on the three-cycle stops at the second occurrence of 1,
      which becomes a leaf. */
  lemma CycleExample()
    ensures Execute(CycleRepo(), 1) == Success(
      MechanicTree(Some(SampleMechanic(1)), [
        MechanicTree(Some(SampleMechanic(2)), [
          MechanicTree(Some(SampleMechanic(3)), [Leaf(1)])])]))
  {
    CycleTree();
  }

  /** Links 1 -> 2 ("inheritance"), 1 -> 3 ("composition") and a dangling
      1 -> 9 ("variant"). */
  function BranchLinks(id: int): seq<EvolutionLink> {
    if id == 1 then [SampleLink(1, 2, "inheritance"), SampleLink(1, 3, "composition"),
                     SampleLink(1, 9, "variant")]
    else []
  }

  function BranchRepo(): (repo: Repositories)
    ensures WellFormed(repo)
  {
    Repositories(SampleMechanics, BranchLinks, {2, 3, 9})
  }

  lemma BranchLeaves()
    ensures BuildTree(BranchRepo(), 2, {1}) == Leaf(2)
    ensures BuildTree(BranchRepo(), 3, {1}) == Leaf(3)
    ensures BuildTree(BranchRepo(), 9, {1}) == MechanicTree(None, [])
  {
    var repo := BranchRepo();
    assert repo.linksFrom(2) == [] && repo.linksFrom(3) == [] && repo.linksFrom(9) == [];
  }

  /** The tree built from mechanic 1 of the branching scenario. */
  lemma BranchTree()
    ensures var t := BuildTree(BranchRepo(), 1, {});
      && t.mechanic == Some(SampleMechanic(1)) && |t.children| == 3
      && t.children[0] == Leaf(2) && t.children[1] == Leaf(3)
      && t.children[2] == MechanicTree(None, [])
  {
    var repo := BranchRepo();
    assert repo.linksFrom(1) == BranchLinks(1);
    assert {} + {1} == {1};
    ChildTree(repo, 1, {}, 0);
    ChildTree(repo, 1, {}, 1);
    ChildTree(repo, 1, {}, 2);
    BranchLeaves();
  }

  /** Children follow link order, leaves have no children, and a link to an
      id without a mechanic is kept as a child with an absent mechanic. */
  lemma BranchExample()
    ensures Execute(BranchRepo(), 1).Success?
    ensures Execute(BranchRepo(), 1).value.mechanic == Some(SampleMechanic(1))
    ensures |Execute(BranchRepo(), 1).value.children| == 3
    ensures Execute(BranchRepo(), 1).value.children[0] == Leaf(2)
    ensures Execute(BranchRepo(), 1).value.children[1] == Leaf(3)
    ensures Execute(BranchRepo(), 1).value.children[2] == MechanicTree(None, [])
  {
    BranchTree();
    assert Execute(BranchRepo(), 1) == Success(BuildTree(BranchRepo(), 1, {}));
  }

  /** An unknown root is reported as not found. */
  lemma NotFoundExample()
    ensures Execute(BranchRepo(), 9999) == Failure(ValueError(NotFoundMessage))
  {
  }
}
