/** The `GameMechanic` entity (App/entities/mechanic.py): a record whose
    construction rejects a blank name. */
module Mechanic {
  import opened Wrappers
  import opened Text

  /** A game mechanic; `id` is absent until the mechanic is persisted. */
  datatype GameMechanic = GameMechanic(
    id: Option<int>,
    name: string,
    description: Option<string>,
    year: Option<int>)

  const NameEmptyMessage: string := "Mechanic name cannot be empty"

  /** The dataclass constructor followed by `__post_init__`. */
  function NewGameMechanic(
    id: Option<int>,
    name: string,
    description: Option<string> := None,
    year: Option<int> := None): (r: Result<GameMechanic, Exception>)
    ensures r.Failure? <==> IsBlank(name)
    ensures r.Failure? ==> r.error == ValueError(NameEmptyMessage)
    ensures r.Success? ==>
      && r.value.id == id && r.value.name == name
      && r.value.description == description && r.value.year == year
  {
    EmptyAfterStripIffBlank(name);
    if EmptyAfterStrip(name) then Failure(ValueError(NameEmptyMessage))
    else Success(GameMechanic(id, name, description, year))
  }

  /** Omitting `description` and `year` leaves both absent, and the validity
      of a mechanic never depends on its `id`. */
  lemma {:induction false} DefaultsAndIdIrrelevant(id: Option<int>, name: string)
    ensures NewGameMechanic(id, name).Success? ==>
      NewGameMechanic(id, name).value == GameMechanic(id, name, None, None)
    ensures NewGameMechanic(id, name).Success? == NewGameMechanic(None, name).Success?
  {
  }

  /** The empty name and a whitespace-only name are both rejected, while a
      name with one visible character is accepted. */
  lemma BlankNamesRejected()
    ensures NewGameMechanic(None, "") == Failure(ValueError(NameEmptyMessage))
    ensures NewGameMechanic(None, "   ") == Failure(ValueError(NameEmptyMessage))
    ensures NewGameMechanic(None, " \tx\n").Success?
  {
    assert !IsSpace(" \tx\n"[2]);
  }
}
