/**
 * The postcard controller: the same append-only store shape as the experiments, with
 * every new postcard starting in status `created` in batch 1, an owner filter that skips
 * postcards without a wallet, a batch filter and a four-bucket status count.
 */
module Postcards {
  import opened Js
  import opened Paging

  /** `PostcardStatus`: the four lifecycle states. */
  datatype PostcardStatus = Created | LaunchedToSpace | ReturnedToEarth | MailedToOwner

  function StatusName(s: PostcardStatus): string
  {
    match s
    case Created => "created"
    case LaunchedToSpace => "launched_to_space"
    case ReturnedToEarth => "returned_to_earth"
    case MailedToOwner => "mailed_to_owner"
  }

  /** The batch every postcard is currently put in. */
  const CURRENT_BATCH: int := 1

  datatype Postcard = Postcard(
    id: int,
    name: string,
    email: string,
    content: string,
    walletAddress: Option<string>,
    status: PostcardStatus,
    createdAt: int,
    launchDate: Option<int>,
    returnDate: Option<int>,
    batchId: int,
    nftTokenId: Option<string>,
    imageUrl: Option<string>)

  /** `postcards` plus `idCounter`. */
  datatype Store = Store(records: seq<Postcard>, nextId: int)

  /** The defaults creation gives every postcard, which nothing later changes. */
  predicate Fresh(p: Postcard)
  {
    && p.status == Created
    && p.batchId == CURRENT_BATCH
    && p.launchDate.None? && p.returnDate.None? && p.nftTokenId.None?
    && p.walletAddress != Some("")
  }

  /** Ids strictly increase in store order and stay below the counter; every postcard
      still carries its creation defaults. */
  predicate Valid(st: Store)
  {
    && (forall i, j :: 0 <= i < j < |st.records| ==> st.records[i].id < st.records[j].id)
    && (forall i :: 0 <= i < |st.records| ==> st.records[i].id < st.nextId)
    && (forall i :: 0 <= i < |st.records| ==> Fresh(st.records[i]))
  }

  /** The store at start-up: no postcards are seeded and the counter is 1. */
  const Empty: Store := Store([], 1)

  datatype ApiError = MissingFields | NotFound

  function Status(e: ApiError): int
  {
    match e
    case MissingFields => 400
    case NotFound => 404
  }

  const MISSING_FIELDS_MESSAGE := "Name, email, and content are required fields"
  const NOT_FOUND_MESSAGE := "Postcard does not exist"

  function Message(e: ApiError): string
  {
    match e
    case MissingFields => MISSING_FIELDS_MESSAGE
    case NotFound => NOT_FOUND_MESSAGE
  }

  // ---------------------------------------------------------------------------
  // listing and lookup
  // ---------------------------------------------------------------------------

  /** `getAllPostcards`: one page, counted against the whole store. */
  function GetAll(st: Store, limitQ: Option<string>, offsetQ: Option<string>): (r: Page<Postcard>)
    ensures r.count == |st.records|
    ensures 0 <= OffsetOf(offsetQ) && 0 < LimitOf(limitQ) ==>
              r.data == Clamped(st.records, OffsetOf(offsetQ), LimitOf(limitQ))
    ensures OffsetOf(offsetQ) >= |st.records| ==> r.data == []
  {
    ListPage(st.records, limitQ, offsetQ)
  }

  /** The first position holding `id`. */
  function IndexOfId(records: seq<Postcard>, id: int): (r: Option<nat>)
    ensures r.Some? ==> r.value < |records| && records[r.value].id == id
    ensures r.Some? ==> forall j :: 0 <= j < r.value ==> records[j].id != id
    ensures r.None? ==> forall j :: 0 <= j < |records| ==> records[j].id != id
  {
    if |records| == 0 then None
    else if records[0].id == id then Some(0)
    else match IndexOfId(records[1..], id)
      case None => None
      case Some(k) => Some(k + 1)
  }

  /** `getPostcardById`: the postcard with the parsed id, or 404. */
  function GetById(st: Store, idParam: string): (r: Result<Postcard, ApiError>)
    ensures r.Ok? ==> r.value in st.records && ParseInt(idParam) == Some(r.value.id)
    ensures r.Err? ==> r.error == NotFound
    ensures r.Err? <==> forall j :: 0 <= j < |st.records| ==> ParseInt(idParam) != Some(st.records[j].id)
  {
    match ParseInt(idParam)
    case None => Err(NotFound)
    case Some(n) =>
      match IndexOfId(st.records, n)
      case None => Err(NotFound)
      case Some(k) => Ok(st.records[k])
  }

  // ---------------------------------------------------------------------------
  // creation
  // ---------------------------------------------------------------------------

  /** The body fields `createPostcard` reads; `None` is an absent or null field. */
  datatype CreateRequest = CreateRequest(
    name: Option<string>,
    email: Option<string>,
    content: Option<string>,
    walletAddress: Option<string>)

  /** Where a stored image is served from. */
  function ImageUrl(filename: string): string
  {
    "/uploads/" + filename
  }

  /** `walletAddress || null`. */
  function WalletOrNull(w: Option<string>): (r: Option<string>)
    ensures r.None? <==> Blank(w)
    ensures r.Some? ==> r == w
  {
    if Blank(w) then None else w
  }

  /** `createPostcard` without its catch block. A request missing its name, email or content
      changes nothing; otherwise the new postcard takes the counter as its id, the counter
      moves on by one, and the postcard is appended with status `created`, batch 1 and no
      launch date, return date or token id. */
  function Create(st: Store, req: CreateRequest, upload: Option<string>, now: int)
    : (r: (Result<Postcard, ApiError>, Store))
    ensures r.0.Err? <==> Blank(req.name) || Blank(req.email) || Blank(req.content)
    ensures r.0.Err? ==> r.0.error == MissingFields && r.1 == st
    ensures r.0.Ok? ==> var p := r.0.value;
              && r.1 == Store(st.records + [p], st.nextId + 1)
              && p.id == st.nextId
              && Fresh(p)
              && p.name == req.name.value && p.email == req.email.value && p.content == req.content.value
              && (p.walletAddress.None? <==> Blank(req.walletAddress))
              && (!Blank(req.walletAddress) ==> p.walletAddress == req.walletAddress)
              && p.createdAt == now
              && (p.imageUrl.Some? <==> upload.Some?)
              && (upload.Some? ==> p.imageUrl.value == ImageUrl(upload.value))
  {
    if Blank(req.name) || Blank(req.email) || Blank(req.content) then (Err(MissingFields), st)
    else
      var p := Postcard(
        st.nextId, req.name.value, req.email.value, req.content.value,
        WalletOrNull(req.walletAddress), Created, now, None, None, CURRENT_BATCH, None,
        if upload.Some? then Some(ImageUrl(upload.value)) else None);
      (Ok(p), Store(st.records + [p], st.nextId + 1))
  }

  /** The start-up store is valid and creation keeps it so; the new id exceeds all older ones. */
  lemma CreatePreservesValid(st: Store, req: CreateRequest, upload: Option<string>, now: int)
    requires Valid(st)
    ensures Valid(Empty)
    ensures Valid(Create(st, req, upload, now).1)
    ensures var r := Create(st, req, upload, now);
            r.0.Ok? ==> forall i :: 0 <= i < |st.records| ==> st.records[i].id < r.0.value.id
  {
  }

  /** In a valid store an id names one position only. */
  lemma IdsAreUnique(st: Store, i: nat)
    requires Valid(st) && i < |st.records|
    ensures IndexOfId(st.records, st.records[i].id) == Some(i)
  {
  }

  /** A created postcard is found again under its id, printed as the URL would carry it. */
  lemma CreateThenGetById(st: Store, req: CreateRequest, upload: Option<string>, now: int)
    requires Valid(st)
    requires !(Blank(req.name) || Blank(req.email) || Blank(req.content))
    ensures var r := Create(st, req, upload, now);
            GetById(r.1, ToDecimalString(r.0.value.id)) == Ok(r.0.value)
  {
    var r := Create(st, req, upload, now);
    CreatePreservesValid(st, req, upload, now);
    ParseIntDecimalRoundTrip(r.0.value.id);
    IdsAreUnique(r.1, |st.records|);
  }

  // ---------------------------------------------------------------------------
  // filters
  // ---------------------------------------------------------------------------

  /** A postcard belongs to `wallet` when it has a non-empty wallet address equal to
      `wallet` once both are lower-cased. */
  function OwnedBy(wallet: string): Postcard -> bool
  {
    (p: Postcard) => p.walletAddress.Some? && p.walletAddress.value != ""
                     && EqualsIgnoreCase(p.walletAddress.value, wallet)
  }

  /** `getUserPostcards`: postcards without a wallet never match; the rest match by
      case-insensitive whole-string equality, in store order. */
  function ByOwner(st: Store, wallet: string): (r: seq<Postcard>)
    ensures r == Filter(st.records, OwnedBy(wallet))
    ensures forall i :: 0 <= i < |r| ==> r[i] in st.records && r[i].walletAddress.Some?
    ensures forall i :: 0 <= i < |r| ==> EqualsIgnoreCase(r[i].walletAddress.value, wallet)
    ensures forall i :: 0 <= i < |st.records| && OwnedBy(wallet)(st.records[i]) ==> st.records[i] in r
    ensures Filter(r, OwnedBy(wallet)) == r
  {
    FilterIdempotent(st.records, OwnedBy(wallet));
    Filter(st.records, OwnedBy(wallet))
  }

  /** A postcard created with a wallet is listed last for that wallet, spelt in any case;
      one created without a wallet is listed for nobody. */
  lemma CreateThenByOwner(st: Store, req: CreateRequest, upload: Option<string>, now: int, wallet: string)
    requires !(Blank(req.name) || Blank(req.email) || Blank(req.content))
    ensures var r := Create(st, req, upload, now);
            ByOwner(r.1, wallet) == ByOwner(st, wallet)
              + (if !Blank(req.walletAddress) && EqualsIgnoreCase(req.walletAddress.value, wallet)
                 then [r.0.value] else [])
  {
    var r := Create(st, req, upload, now);
    FilterAppend(st.records, [r.0.value], OwnedBy(wallet));
  }

  function InBatch(b: int): Postcard -> bool
  {
    (p: Postcard) => p.batchId == b
  }

  /** `getBatchPostcards`: postcards whose batch equals the parsed id; `NaN` matches none. */
  function ByBatch(st: Store, batchParam: string): (r: seq<Postcard>)
    ensures ParseInt(batchParam).None? ==> r == []
    ensures ParseInt(batchParam).Some? ==> r == Filter(st.records, InBatch(ParseInt(batchParam).value))
    ensures forall i :: 0 <= i < |r| ==> r[i] in st.records && Some(r[i].batchId) == ParseInt(batchParam)
    ensures forall i :: 0 <= i < |st.records| && Some(st.records[i].batchId) == ParseInt(batchParam) ==>
              st.records[i] in r
  {
    match ParseInt(batchParam)
    case None => []
    case Some(b) => Filter(st.records, InBatch(b))
  }

  /** Since every postcard sits in batch 1, batch 1 lists the whole store and any other
      batch lists nothing. */
  lemma BatchOneIsEverything(st: Store, batchParam: string)
    requires Valid(st)
    ensures ParseInt(batchParam) == Some(CURRENT_BATCH) ==> ByBatch(st, batchParam) == st.records
    ensures ParseInt(batchParam) != Some(CURRENT_BATCH) ==> ByBatch(st, batchParam) == []
  {
    match ParseInt(batchParam)
    case None =>
    case Some(b) =>
      if b == CURRENT_BATCH {
        FilterAll(st.records, InBatch(b));
      } else {
        FilterNone(st.records, InBatch(b));
      }
  }

  // ---------------------------------------------------------------------------
  // status statistics
  // ---------------------------------------------------------------------------

  datatype StatusStats = StatusStats(total: nat, created: nat, launchedToSpace: nat,
                                     returnedToEarth: nat, mailedToOwner: nat)

  function HasStatus(s: PostcardStatus): Postcard -> bool
  {
    (p: Postcard) => p.status == s
  }

  function CountStatus(records: seq<Postcard>, s: PostcardStatus): nat
  {
    |Filter(records, HasStatus(s))|
  }

  /** `getStatusStats`: `total` is the store size and no bucket exceeds it; since each
      postcard has exactly one status the four buckets add up to `total`. */
  function GetStatusStats(st: Store): (r: StatusStats)
    ensures r.total == |st.records|
    ensures r.created == CountStatus(st.records, Created)
    ensures r.launchedToSpace == CountStatus(st.records, LaunchedToSpace)
    ensures r.returnedToEarth == CountStatus(st.records, ReturnedToEarth)
    ensures r.mailedToOwner == CountStatus(st.records, MailedToOwner)
    ensures r.created <= r.total && r.launchedToSpace <= r.total
    ensures r.returnedToEarth <= r.total && r.mailedToOwner <= r.total
    ensures r.created + r.launchedToSpace + r.returnedToEarth + r.mailedToOwner == r.total
  {
    BucketsSumToSize(st.records);
    StatusStats(
      |st.records|,
      CountStatus(st.records, Created), CountStatus(st.records, LaunchedToSpace),
      CountStatus(st.records, ReturnedToEarth), CountStatus(st.records, MailedToOwner))
  }

  lemma {:induction false} BucketsSumToSize(records: seq<Postcard>)
    ensures CountStatus(records, Created) + CountStatus(records, LaunchedToSpace)
            + CountStatus(records, ReturnedToEarth) + CountStatus(records, MailedToOwner) == |records|
    decreases |records|
  {
    if |records| > 0 {
      BucketsSumToSize(records[1..]);
      assert forall s :: CountStatus(records, s) == CountStatus(records[1..], s) + (if records[0].status == s then 1 else 0);
    }
  }

  /** No operation moves a postcard past `created`, so in any reachable store every postcard
      is counted as created and the other three buckets are empty. */
  lemma StatusStatsAllCreated(st: Store)
    requires Valid(st)
    ensures var r := GetStatusStats(st);
            r.created == r.total && r.launchedToSpace == 0 && r.returnedToEarth == 0 && r.mailedToOwner == 0
  {
    FilterAll(st.records, HasStatus(Created));
  }

  /** The four status strings are distinct, so comparing `p.status` with one of them is
      comparing the statuses themselves, as `HasStatus` does. */
  lemma StatusNamesDistinct(a: PostcardStatus, b: PostcardStatus)
    ensures StatusName(a) == StatusName(b) <==> a == b
  {
  }

  // ---------------------------------------------------------------------------
  // error responses
  // ---------------------------------------------------------------------------

  /** A refused creation is a 400 naming the required fields; an unknown id is a 404. */
  lemma ErrorResponses(st: Store, req: CreateRequest, idParam: string, upload: Option<string>, now: int)
    ensures var c := Create(st, req, upload, now).0;
            c.Err? ==> Status(c.error) == 400 && Message(c.error) == MISSING_FIELDS_MESSAGE
    ensures GetById(st, idParam).Err? ==>
              Status(GetById(st, idParam).error) == 404 && Message(GetById(st, idParam).error) == NOT_FOUND_MESSAGE
  {
  }
}
