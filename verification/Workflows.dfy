/** The workflow entity: its statuses, its validation, and the mask put on a status that is due for recalculation. */
module Workflows {
  import opened Wrappers

  datatype Status = Approved | Canceled | Expired | Rejected | EvaluationInProgress

  datatype Workflow = Workflow(
    id: string,
    name: string,
    description: Option<string>,
    templateId: string,
    status: Status,
    recalculationRequired: bool,
    expiresAt: int,
    createdAt: int,
    updatedAt: int)

  datatype WorkflowError =
    | InvalidTemplateId
    | InvalidName
    | InvalidDescription
    | UpdateBeforeCreate
    | ExpiresAtInThePast

  // The string formats, which are not modelled.
  datatype Formats = Formats(isUuid: string -> bool, isName: string -> bool, isDescription: string -> bool)

  const TERMINAL_STATUSES := [Approved, Canceled, Expired]

  predicate Terminal(s: Status) {
    s in TERMINAL_STATUSES
  }

  // Every workflow read from storage or written by the domain passes through here.
  function Instantiate(f: Formats, data: Workflow): Result<Workflow, WorkflowError> {
    var description := if data.description == Some("") then None else data.description;
    if !f.isUuid(data.templateId) then Err(InvalidTemplateId)
    else if !f.isName(data.name) then Err(InvalidName)
    else if description.Some? && !f.isDescription(description.value) then Err(InvalidDescription)
    else if data.createdAt > data.updatedAt then Err(UpdateBeforeCreate)
    else if data.expiresAt < data.createdAt then Err(ExpiresAtInThePast)
    else Ok(data.(description := description, status := Masked(data.status, data.recalculationRequired)))
  }

  function Masked(stored: Status, recalculationRequired: bool): Status {
    if recalculationRequired then EvaluationInProgress else stored
  }

  // What passes, and as what: a row due for recalculation counts as in progress whatever it stores, an empty
  // description as none, and nothing else changes.
  lemma InstantiateExactly(f: Formats, data: Workflow)
    ensures Instantiate(f, data).Ok? <==>
      && f.isUuid(data.templateId) && f.isName(data.name)
      && (data.description in {None, Some("")} || f.isDescription(data.description.value))
      && data.createdAt <= data.updatedAt && data.createdAt <= data.expiresAt
    ensures Instantiate(f, data).Ok? ==>
      var w := Instantiate(f, data).value;
      && w.status == (if data.recalculationRequired then EvaluationInProgress else data.status)
      && w.description == (if data.description == Some("") then None else data.description)
      && w.(status := data.status, description := data.description) == data
    ensures Instantiate(f, data) == Err(UpdateBeforeCreate) ==> data.createdAt > data.updatedAt
    ensures Instantiate(f, data) == Err(ExpiresAtInThePast) ==> data.expiresAt < data.createdAt
    ensures Instantiate(f, data) == Err(InvalidTemplateId) <==> !f.isUuid(data.templateId)
    ensures Instantiate(f, data) == Err(InvalidName) ==> !f.isName(data.name)
    ensures Instantiate(f, data) == Err(InvalidDescription) ==>
      data.description.Some? && !f.isDescription(data.description.value)
  {
  }

  function ChangeStatus(f: Formats, w: Workflow, status: Status, stamp: int): Result<Workflow, WorkflowError> {
    Instantiate(f, w.(status := status, recalculationRequired := false, updatedAt := stamp))
  }

  // A workflow that was loaded can only fail a status change because the clock ran backwards past its creation.
  lemma ChangeStatusOfLoaded(f: Formats, data: Workflow, status: Status, stamp: int)
    requires Instantiate(f, data).Ok?
    ensures var w := Instantiate(f, data).value;
      ChangeStatus(f, w, status, stamp) ==
      if stamp < w.createdAt then Err(UpdateBeforeCreate)
      else Ok(w.(status := status, recalculationRequired := false, updatedAt := stamp))
  {
  }
}
