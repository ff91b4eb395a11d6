/** Optional values: JavaScript's `undefined` beside a present value. */
module Wrappers {
  datatype Option<T> = None | Some(value: T)
}

/**
 * The registry's records: fault categories and statuses, workers and faults
 * (src/lib/types.ts), and the category translation table (src/lib/utils.ts).
 */
module FaultTypes {
  import opened Wrappers

  /** The declared fault categories. */
  datatype FaultType = Electricity | Plumbing | Heating | General

  /** The lifecycle statuses a fault can carry. */
  datatype Status = New | Assigned | InProgress | Completed

  /**
   * A timestamp held by a fault. `ServerTimestamp` is the store's sentinel,
   * resolved by the store; `At` is a client clock reading. Neither is compared.
   */
  datatype Timestamp = ServerTimestamp | At(millis: int)

  /** A technician; `specialty` lists the categories the worker takes on. */
  datatype Worker = Worker(
    id: string,
    name: string,
    email: string,
    password: string,
    specialty: seq<FaultType>)

  /** What a reporter submits. */
  datatype NewFaultData = NewFaultData(
    reporterName: string,
    reporterEmail: string,
    reporterPhone: string,
    address: string,
    faultType: FaultType,
    description: string)

  /**
   * A stored fault: the submitted data plus its key, status, optional worker
   * id, timestamps and the optional signature and act fields.
   */
  datatype Fault = Fault(
    id: string,
    info: NewFaultData,
    status: Status,
    createdAt: Timestamp,
    assignedTo: Option<string>,
    updatedAt: Timestamp,
    workerSignature: Option<string>,
    customerSignature: Option<string>,
    actImageUrl: Option<string>)

  /** The wire spelling of a category. */
  function TypeName(t: FaultType): string
  {
    match t
    case Electricity => "electricity"
    case Plumbing => "plumbing"
    case Heating => "heating"
    case General => "general"
  }

  /** Reads a category back from its wire spelling. */
  function ParseFaultType(s: string): (r: Option<FaultType>)
    ensures r.Some? ==> TypeName(r.value) == s
    ensures r.None? ==> forall t: FaultType :: TypeName(t) != s
  {
    if s == "electricity" then Some(Electricity)
    else if s == "plumbing" then Some(Plumbing)
    else if s == "heating" then Some(Heating)
    else if s == "general" then Some(General)
    else None
  }

  /** Parsing inverts spelling, so no two categories share a spelling. */
  lemma ParseTypeName(t: FaultType)
    ensures ParseFaultType(TypeName(t)) == Some(t)
  {
  }

  /** The Lithuanian label of every category (`faultTypeTranslations`). */
  function Translation(t: FaultType): (r: string)
    ensures r != []
  {
    match t
    case Electricity => "Elektra"
    case Plumbing => "Santechnika"
    case Heating => "Šildymas"
    case General => "Bendri gedimai"
  }

  /** The categories in the order the translation table lists its keys. */
  const AllFaultTypes: seq<FaultType> := [Electricity, Plumbing, Heating, General]

  lemma AllFaultTypesComplete(t: FaultType)
    ensures t in AllFaultTypes
  {
  }
}
