/** `CreateMechanicUseCase` (App/use_cases/create_mechanic.py): a blank-name
    guard in front of the mechanic repository's `create`. */
module CreateMechanic {
  import opened Wrappers
  import opened Text
  import opened Mechanic

  /** `execute(mechanic)`; `create` is `IMechanicRepository.create`, and the
      outcome records every mechanic handed to it. */
  function Execute(create: GameMechanic -> GameMechanic, mechanic: GameMechanic)
    : (o: Recorded<GameMechanic, GameMechanic>)
    ensures o.result.Failure? <==> IsBlank(mechanic.name)
    ensures o.result.Failure? ==>
      o.result.error == ValueError(NameEmptyMessage) && o.created == []
    ensures o.result.Success? ==>
      o.created == [mechanic] && o.result.value == create(mechanic)
  {
    EmptyAfterStripIffBlank(mechanic.name);
    if |mechanic.name| == 0 || |Strip(mechanic.name)| == 0 then
      Recorded(Failure(ValueError(NameEmptyMessage)), [])
    else
      Recorded(Success(create(mechanic)), [mechanic])
  }

  /** The use case accepts exactly the mechanics the entity constructor
      accepts, and rejects the others with the constructor's message. */
  lemma {:induction false} GuardMatchesConstructor(
    create: GameMechanic -> GameMechanic, mechanic: GameMechanic)
    ensures Execute(create, mechanic).result.Failure?
        <==> NewGameMechanic(mechanic.id, mechanic.name, mechanic.description, mechanic.year).Failure?
    ensures Execute(create, mechanic).result.Failure? ==>
      Execute(create, mechanic).result.error
        == NewGameMechanic(mechanic.id, mechanic.name, mechanic.description, mechanic.year).error
  {
  }

  /** The empty and the whitespace-only name fail without reaching the
      repository. */
  lemma BlankNameExamples(create: GameMechanic -> GameMechanic)
    ensures Execute(create, GameMechanic(None, "", Some("Test mechanic"), Some(2024)))
         == Recorded(Failure(ValueError(NameEmptyMessage)), [])
    ensures Execute(create, GameMechanic(None, "   ", Some("Test mechanic"), Some(2024)))
         == Recorded(Failure(ValueError(NameEmptyMessage)), [])
  {
  }
}
