/**
 * The experiment controller: an append-only list of experiment records with an id
 * counter, creation with validation, lookups, filters and the `verified` toggle.
 * The module-level `experiments` array and `idCounter` become the `Store` value that
 * every operation takes and, when it changes anything, returns.
 */
module Experiments {
  import opened Js
  import opened Paging

  /** The closed list `experimentTypes`. */
  datatype ExperimentType =
    | SpaceDataStorage | SpaceAgriculture | AerospaceMedical
    | EarthAtmosphere | Printing3d | RadiationTesting

  /** The types in the order `experimentTypes` lists them. */
  const AllTypes: seq<ExperimentType> :=
    [SpaceDataStorage, SpaceAgriculture, AerospaceMedical, EarthAtmosphere, Printing3d, RadiationTesting]

  /** The wire spelling of each type. */
  function TypeName(t: ExperimentType): string
  {
    match t
    case SpaceDataStorage => "space_data_storage"
    case SpaceAgriculture => "space_agriculture"
    case AerospaceMedical => "aerospace_medical"
    case EarthAtmosphere => "earth_atmosphere"
    case Printing3d => "3d_printing"
    case RadiationTesting => "radiation_testing"
  }

  /** `experimentTypes.includes(s)`, returning the member it matched. */
  function ParseType(s: string): (r: Option<ExperimentType>)
    ensures r.Some? ==> TypeName(r.value) == s
    ensures r.None? ==> forall t: ExperimentType :: TypeName(t) != s
  {
    if s == "space_data_storage" then Some(SpaceDataStorage)
    else if s == "space_agriculture" then Some(SpaceAgriculture)
    else if s == "aerospace_medical" then Some(AerospaceMedical)
    else if s == "earth_atmosphere" then Some(EarthAtmosphere)
    else if s == "3d_printing" then Some(Printing3d)
    else if s == "radiation_testing" then Some(RadiationTesting)
    else None
  }

  /** Every type parses back from its name and is on the list. */
  lemma TypeNameRoundTrip(t: ExperimentType)
    ensures ParseType(TypeName(t)) == Some(t)
    ensures t in AllTypes
  {
    match t
    case SpaceDataStorage =>
    case SpaceAgriculture =>
    case AerospaceMedical =>
    case EarthAtmosphere =>
    case Printing3d =>
    case RadiationTesting =>
  }

  datatype Experiment = Experiment(
    id: int,
    name: string,
    description: string,
    kind: ExperimentType,
    ipfsDataHash: string,
    timestamp: int,
    scientist: string,
    verified: bool,
    dataFileUrl: Option<string>)

  /** `experiments` plus `idCounter`. */
  datatype Store = Store(records: seq<Experiment>, nextId: int)

  /** What creation and the id counter maintain: ids strictly increase in store order
      and all lie below the counter, so they are unique and never reused. */
  predicate Valid(st: Store)
  {
    && (forall i, j :: 0 <= i < j < |st.records| ==> st.records[i].id < st.records[j].id)
    && (forall i :: 0 <= i < |st.records| ==> st.records[i].id < st.nextId)
  }

  /** The store before the mock seeding: `experiments = []`, `idCounter = 1`. */
  const Empty: Store := Store([], 1)

  /** The client errors the controller answers with. */
  datatype ApiError = MissingFields | InvalidType | NotFound

  function Status(e: ApiError): int
  {
    match e
    case MissingFields => 400
    case InvalidType => 400
    case NotFound => 404
  }

  const MISSING_FIELDS_MESSAGE := "Name, description, experiment type, and scientist address are required fields"
  const INVALID_TYPE_MESSAGE := "Invalid experiment type"
  const NOT_FOUND_MESSAGE := "Experiment does not exist"

  function Message(e: ApiError): string
  {
    match e
    case MissingFields => MISSING_FIELDS_MESSAGE
    case InvalidType => INVALID_TYPE_MESSAGE
    case NotFound => NOT_FOUND_MESSAGE
  }

  // ---------------------------------------------------------------------------
  // listing and lookup
  // ---------------------------------------------------------------------------

  /** `getAllExperiments`: one page of the store, counted against the whole store. */
  function GetAll(st: Store, limitQ: Option<string>, offsetQ: Option<string>): (r: Page<Experiment>)
    ensures r.count == |st.records|
    ensures 0 <= OffsetOf(offsetQ) && 0 < LimitOf(limitQ) ==>
              r.data == Clamped(st.records, OffsetOf(offsetQ), LimitOf(limitQ))
    ensures OffsetOf(offsetQ) >= |st.records| ==> r.data == []
  {
    ListPage(st.records, limitQ, offsetQ)
  }

  /** The first position holding a record with id `id`, as the controller's lookup finds it. */
  function IndexOfId(records: seq<Experiment>, id: int): (r: Option<nat>)
    ensures r.Some? ==> r.value < |records| && records[r.value].id == id
    ensures r.Some? ==> forall j :: 0 <= j < r.value ==> records[j].id != id
    ensures r.None? ==> forall j :: 0 <= j < |records| ==> records[j].id != id
  {
    if |records| == 0 then None
    else if records[0].id == id then Some(0)
    else match IndexOfId(records[1..], id)
      case None => None
      case Some(k) => Some(k + 1)
  }

  /** The record a path parameter names; `NaN` from `parseInt` equals no id. */
  function Locate(st: Store, idParam: string): (r: Option<nat>)
    ensures r.Some? ==> r.value < |st.records|
    ensures r.Some? ==> ParseInt(idParam) == Some(st.records[r.value].id)
    ensures r.None? ==> forall j :: 0 <= j < |st.records| ==> ParseInt(idParam) != Some(st.records[j].id)
  {
    match ParseInt(idParam)
    case None => None
    case Some(n) => IndexOfId(st.records, n)
  }

  /** `getExperimentById`: the record with the parsed id, or 404. Nothing changes either way. */
  function GetById(st: Store, idParam: string): (r: Result<Experiment, ApiError>)
    ensures r.Ok? ==> r.value in st.records && ParseInt(idParam) == Some(r.value.id)
    ensures r.Err? ==> r.error == NotFound
    ensures r.Err? <==> forall j :: 0 <= j < |st.records| ==> ParseInt(idParam) != Some(st.records[j].id)
  {
    match Locate(st, idParam)
    case None => Err(NotFound)
    case Some(k) => Ok(st.records[k])
  }

  /** In a valid store an id names one position only, so the lookup finds exactly it. */
  lemma IdsAreUnique(st: Store, i: nat)
    requires Valid(st) && i < |st.records|
    ensures IndexOfId(st.records, st.records[i].id) == Some(i)
  {
  }

  // ---------------------------------------------------------------------------
  // creation
  // ---------------------------------------------------------------------------

  /** The body fields `createExperiment` reads; `None` is an absent or null field. */
  datatype CreateRequest = CreateRequest(
    name: Option<string>,
    description: Option<string>,
    experimentType: Option<string>,
    scientist: Option<string>)

  /** Where a stored data file is served from. */
  function DataFileUrl(filename: string): string
  {
    "/uploads/experiments/" + filename
  }

  /** Why a request is refused, in the order `createExperiment` checks them: missing fields first. */
  function Rejection(req: CreateRequest): (r: Option<ApiError>)
    ensures r == Some(MissingFields) <==>
              Blank(req.name) || Blank(req.description) || Blank(req.experimentType) || Blank(req.scientist)
    ensures r == Some(InvalidType) <==>
              !Blank(req.name) && !Blank(req.description) && !Blank(req.experimentType) && !Blank(req.scientist)
              && forall t: ExperimentType :: TypeName(t) != req.experimentType.value
    ensures r.Some? ==> r.value != NotFound
  {
    if Blank(req.name) || Blank(req.description) || Blank(req.experimentType) || Blank(req.scientist) then
      Some(MissingFields)
    else if ParseType(req.experimentType.value).None? then Some(InvalidType)
    else None
  }

  /** `createExperiment` without its catch block. `upload` is the name multer stored the
      `dataFile` under, `ipfsHash` the generated hash and `now` the clock. A refused request
      changes neither the records nor the counter; an accepted one takes the counter as its id,
      bumps the counter by one and is appended unverified after the untouched old records. */
  function Create(st: Store, req: CreateRequest, upload: Option<string>, ipfsHash: string, now: int)
    : (r: (Result<Experiment, ApiError>, Store))
    ensures r.0.Err? <==> Rejection(req).Some?
    ensures r.0.Err? ==> r.0.error == Rejection(req).value && r.1 == st
    ensures r.0.Ok? ==> var e := r.0.value;
              && r.1 == Store(st.records + [e], st.nextId + 1)
              && e.id == st.nextId
              && !e.verified
              && e.name == req.name.value && e.description == req.description.value
              && TypeName(e.kind) == req.experimentType.value
              && e.scientist == req.scientist.value
              && e.ipfsDataHash == ipfsHash && e.timestamp == now
              && (e.dataFileUrl.Some? <==> upload.Some?)
              && (upload.Some? ==> e.dataFileUrl.value == DataFileUrl(upload.value))
  {
    match Rejection(req)
    case Some(err) => (Err(err), st)
    case None =>
      var e := Experiment(
        st.nextId, req.name.value, req.description.value,
        ParseType(req.experimentType.value).value, ipfsHash, now, req.scientist.value,
        false,
        if upload.Some? then Some(DataFileUrl(upload.value)) else None);
      (Ok(e), Store(st.records + [e], st.nextId + 1))
  }

  /** Creation keeps ids strictly increasing and below the counter, and the new id is larger
      than every id handed out before. */
  lemma CreatePreservesValid(st: Store, req: CreateRequest, upload: Option<string>, ipfsHash: string, now: int)
    requires Valid(st)
    ensures Valid(Empty)
    ensures Valid(Create(st, req, upload, ipfsHash, now).1)
    ensures var r := Create(st, req, upload, ipfsHash, now);
            r.0.Ok? ==> forall i :: 0 <= i < |st.records| ==> st.records[i].id < r.0.value.id
  {
  }

  /** A created record is found again under its id, printed as the URL would carry it. */
  lemma CreateThenGetById(st: Store, req: CreateRequest, upload: Option<string>, ipfsHash: string, now: int)
    requires Valid(st)
    requires Rejection(req).None?
    ensures var r := Create(st, req, upload, ipfsHash, now);
            GetById(r.1, ToDecimalString(r.0.value.id)) == Ok(r.0.value)
  {
    var r := Create(st, req, upload, ipfsHash, now);
    CreatePreservesValid(st, req, upload, ipfsHash, now);
    ParseIntDecimalRoundTrip(r.0.value.id);
    IdsAreUnique(r.1, |st.records|);
  }

  // ---------------------------------------------------------------------------
  // filters
  // ---------------------------------------------------------------------------

  function OfType(t: ExperimentType): Experiment -> bool
  {
    (e: Experiment) => e.kind == t
  }

  function OwnedBy(address: string): Experiment -> bool
  {
    (e: Experiment) => EqualsIgnoreCase(e.scientist, address)
  }

  function IsVerified(): Experiment -> bool
  {
    (e: Experiment) => e.verified
  }

  /** `getExperimentsByType`: an unknown type is a 400, not an empty list; a known one
      gives exactly the records of that type in store order. */
  function ByType(st: Store, typeParam: string): (r: Result<seq<Experiment>, ApiError>)
    ensures r.Err? <==> ParseType(typeParam).None?
    ensures r.Err? ==> r.error == InvalidType
    ensures r.Ok? ==> r.value == Filter(st.records, OfType(ParseType(typeParam).value))
    ensures r.Ok? ==> forall i :: 0 <= i < |r.value| ==> TypeName(r.value[i].kind) == typeParam
    ensures r.Ok? ==> forall i :: 0 <= i < |st.records| && TypeName(st.records[i].kind) == typeParam ==>
                        st.records[i] in r.value
  {
    match ParseType(typeParam)
    case None => Err(InvalidType)
    case Some(t) => Ok(Filter(st.records, OfType(t)))
  }

  /** `getScientistExperiments`: case-insensitive whole-address equality, store order. */
  function ByScientist(st: Store, address: string): (r: seq<Experiment>)
    ensures r == Filter(st.records, OwnedBy(address))
    ensures forall i :: 0 <= i < |r| ==> r[i] in st.records && EqualsIgnoreCase(r[i].scientist, address)
    ensures forall i :: 0 <= i < |st.records| && EqualsIgnoreCase(st.records[i].scientist, address) ==>
              st.records[i] in r
  {
    Filter(st.records, OwnedBy(address))
  }

  /** `getVerifiedExperiments`: every verified record and nothing else, unpaged. */
  function VerifiedOnly(st: Store): (r: seq<Experiment>)
    ensures r == Filter(st.records, IsVerified())
    ensures forall i :: 0 <= i < |r| ==> r[i] in st.records && r[i].verified
    ensures forall i :: 0 <= i < |st.records| && st.records[i].verified ==> st.records[i] in r
  {
    Filter(st.records, IsVerified())
  }

  /** Each filter, applied to its own output, returns that output unchanged. */
  lemma FiltersIdempotent(st: Store, t: ExperimentType, address: string)
    ensures Filter(ByType(st, TypeName(t)).value, OfType(t)) == ByType(st, TypeName(t)).value
    ensures Filter(ByScientist(st, address), OwnedBy(address)) == ByScientist(st, address)
    ensures Filter(VerifiedOnly(st), IsVerified()) == VerifiedOnly(st)
  {
    TypeNameRoundTrip(t);
    FilterIdempotent(st.records, OfType(t));
    FilterIdempotent(st.records, OwnedBy(address));
    FilterIdempotent(st.records, IsVerified());
  }

  /** A created record shows up at the end of its type's list and nowhere else changes. */
  lemma CreateThenByType(st: Store, req: CreateRequest, upload: Option<string>, ipfsHash: string, now: int)
    requires Rejection(req).None?
    ensures var r := Create(st, req, upload, ipfsHash, now);
            ByType(r.1, req.experimentType.value) == Ok(ByType(st, req.experimentType.value).value + [r.0.value])
  {
    var r := Create(st, req, upload, ipfsHash, now);
    var t := ParseType(req.experimentType.value).value;
    FilterAppend(st.records, [r.0.value], OfType(t));
    assert r.0.value.kind == t;
    assert Filter([r.0.value], OfType(t)) == [r.0.value];
  }

  // ---------------------------------------------------------------------------
  // verification flag
  // ---------------------------------------------------------------------------

  /** `Experiment ${verified ? 'verified' : 'unverified'}`. */
  function VerifyMessage(flag: JsValue): string
  {
    if Truthy(flag) then "Experiment verified" else "Experiment unverified"
  }

  /** `verifyExperiment`: the first record with the parsed id gets `verified = !!flag`;
      nothing else in the store changes. An unknown id is a 404 and changes nothing. */
  function Verify(st: Store, idParam: string, flag: JsValue): (r: (Result<Experiment, ApiError>, Store))
    ensures r.0.Err? <==> Locate(st, idParam).None?
    ensures r.0.Err? ==> r.0.error == NotFound && r.1 == st
    ensures r.0.Ok? ==> var k := Locate(st, idParam).value;
              && r.1.nextId == st.nextId
              && |r.1.records| == |st.records|
              && r.0.value == st.records[k].(verified := Truthy(flag))
              && r.1.records[k] == r.0.value
              && forall j :: 0 <= j < |st.records| && j != k ==> r.1.records[j] == st.records[j]
  {
    match Locate(st, idParam)
    case None => (Err(NotFound), st)
    case Some(k) =>
      var e := st.records[k].(verified := Truthy(flag));
      (Ok(e), Store(st.records[k := e], st.nextId))
  }

  /** The response message names the flag as stored: `verified ? ...` and `!!verified` read
      the same truthiness. */
  lemma VerifyMessageMatchesFlag(st: Store, idParam: string, flag: JsValue)
    ensures var r := Verify(st, idParam, flag);
            r.0.Ok? ==> (r.0.value.verified <==> VerifyMessage(flag) == "Experiment verified")
                        && (!r.0.value.verified <==> VerifyMessage(flag) == "Experiment unverified")
  {
  }

  /** Toggling the flag keeps the id invariant. */
  lemma VerifyPreservesValid(st: Store, idParam: string, flag: JsValue)
    requires Valid(st)
    ensures Valid(Verify(st, idParam, flag).1)
  {
  }

  /** Sending the same flag twice leaves the store as the first call left it. */
  lemma VerifyIdempotent(st: Store, idParam: string, flag: JsValue)
    ensures var once := Verify(st, idParam, flag);
            var twice := Verify(once.1, idParam, flag);
            twice.1 == once.1 && twice.0 == once.0
  {
    var once := Verify(st, idParam, flag);
    if once.0.Ok? {
      var k := Locate(st, idParam).value;
      var n := ParseInt(idParam).value;
      assert Locate(once.1, idParam) == Some(k) by {
        assert forall j :: 0 <= j < |st.records| ==> once.1.records[j].id == st.records[j].id;
      }
      assert once.1.records[k := once.0.value] == once.1.records;
    }
  }

  /** After verifying record `k`, the verified view is the old view with that record's entry
      turned on: it contains the verified copy, and nothing unverified. */
  lemma VerifyShowsInVerifiedView(st: Store, idParam: string)
    requires Locate(st, idParam).Some?
    ensures var r := Verify(st, idParam, Bool(true));
            r.0.Ok? && r.0.value.verified && r.0.value in VerifiedOnly(r.1)
  {
    var r := Verify(st, idParam, Bool(true));
    var k := Locate(st, idParam).value;
    assert r.1.records[k] == r.0.value;
  }

  // ---------------------------------------------------------------------------
  // error responses
  // ---------------------------------------------------------------------------

  /** A refused creation, which carries the `Rejection` error, is a 400, and its message tells
      a missing field from an unknown type. */
  lemma CreateRefusalResponse(req: CreateRequest)
    ensures Rejection(req).Some? ==> Status(Rejection(req).value) == 400
    ensures Blank(req.name) || Blank(req.description) || Blank(req.experimentType) || Blank(req.scientist)
            ==> Message(Rejection(req).value) == MISSING_FIELDS_MESSAGE
    ensures Rejection(req).Some? && !(Blank(req.name) || Blank(req.description) || Blank(req.experimentType) || Blank(req.scientist))
            ==> Message(Rejection(req).value) == INVALID_TYPE_MESSAGE
  {
    if Blank(req.name) || Blank(req.description) || Blank(req.experimentType) || Blank(req.scientist) {
      assert Rejection(req) == Some(MissingFields);
    } else if Rejection(req).Some? {
      assert Rejection(req) == Some(InvalidType);
    }
  }

  /** An unknown type is a 400 with its own message. */
  lemma UnknownTypeResponse(st: Store, typeParam: string)
    ensures ByType(st, typeParam).Err? ==>
              Status(ByType(st, typeParam).error) == 400 && Message(ByType(st, typeParam).error) == INVALID_TYPE_MESSAGE
  {
  }

  /** An id that names no record is a 404, for the lookup and for the flag toggle alike. */
  lemma UnknownIdResponse(st: Store, idParam: string, flag: JsValue)
    ensures GetById(st, idParam).Err? ==>
              Status(GetById(st, idParam).error) == 404 && Message(GetById(st, idParam).error) == NOT_FOUND_MESSAGE
    ensures Verify(st, idParam, flag).0.Err? ==>
              Status(Verify(st, idParam, flag).0.error) == 404
              && Message(Verify(st, idParam, flag).0.error) == NOT_FOUND_MESSAGE
  {
  }
}
