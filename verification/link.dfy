/** The `EvolutionLink` entity (App/entities/link.py): a typed directed edge
    between two mechanics whose construction rejects self-loops and blank
    types. */
module Link {
  import opened Wrappers
  import opened Text

  /** A directed, typed link `fromId -> toId`; `id` is absent until persisted. */
  datatype EvolutionLink = EvolutionLink(
    id: Option<int>,
    fromId: int,
    toId: int,
    linkType: string)

  const SelfLoopMessage: string := "Link cannot point to itself"
  const TypeEmptyMessage: string := "Link type cannot be empty"

  /** The dataclass constructor followed by `__post_init__`: the self-loop
      check runs first, then the blank-type check. */
  function NewEvolutionLink(id: Option<int>, fromId: int, toId: int, linkType: string)
    : (r: Result<EvolutionLink, Exception>)
    ensures fromId == toId ==> r == Failure(ValueError(SelfLoopMessage))
    ensures fromId != toId && IsBlank(linkType) ==> r == Failure(ValueError(TypeEmptyMessage))
    ensures r.Success? <==> fromId != toId && !IsBlank(linkType)
    ensures r.Success? ==>
      && r.value.id == id && r.value.fromId == fromId
      && r.value.toId == toId && r.value.linkType == linkType
  {
    EmptyAfterStripIffBlank(linkType);
    if fromId == toId then Failure(ValueError(SelfLoopMessage))
    else if EmptyAfterStrip(linkType) then Failure(ValueError(TypeEmptyMessage))
    else Success(EvolutionLink(id, fromId, toId, linkType))
  }

  /** Whether a link is accepted does not depend on its `id`. */
  lemma {:induction false} IdIrrelevant(id: Option<int>, fromId: int, toId: int, linkType: string)
    ensures NewEvolutionLink(id, fromId, toId, linkType).Success?
        == NewEvolutionLink(None, fromId, toId, linkType).Success?
  {
  }
}
