/**
 * The five request handlers of the blacklist router, mounted under `/api/blacklist`.
 * Each validates its input (trimmed, non-empty), picks the status code and calls the
 * store. The three GET handlers only read, so they are functions of the store's
 * registry and the clock. POST and DELETE change the store: each is specified by a
 * function from (registry, request, clock) to (response, new registry), and a method
 * over the store object carries it out and is proved to agree with it.
 */
module BlacklistRoutes {
  import opened Wrappers
  import opened Text
  import opened BlacklistStore

  /** The `name` field of a POST body, as destructuring sees it. */
  datatype NameField =
    | Missing               // the field is absent
    | Str(value: string)    // a JSON string
    | NotStr                // any other JSON value (number, boolean, null, object, array)

  /** A POST body. `None` in an optional field stands for a missing field or a falsy
      non-string value; a string, empty or not, is passed as it is. */
  datatype AddRequest = AddRequest(
    name: NameField,
    reason: Option<string>,
    addedBy: Option<string>,
    category: Option<string>)

  /** The JSON body of a response, one variant per response shape. Timestamps are the
      clock reading of the request. */
  datatype Body =
    | Listing(data: seq<Entry>, total: nat, categories: map<string, nat>, lastUpdated: int,
              timestamp: int)
    | CheckResult(name: string, isBlacklisted: bool, entry: Option<Entry>, checkedAt: int)
    | StatsReport(stats: Stats, retrievedAt: int)
    | Created(message: string, stored: Entry)  // sent as the `entry` field
    | Removed(message: string, removedAt: int)
    | Failure(error: string, message: string)

  /** A status code with the body's `success` flag and the rest of the body. */
  datatype Response = Response(status: int, success: bool, body: Body)

  const InvalidNameParameter := "Invalid name parameter"
  const NameMustBeNonEmpty := "Name must be a non-empty string"
  const InvalidName := "Invalid name"
  const NameIsRequired := "Name is required and must be a non-empty string"
  const EntryAlreadyExists := "Entry already exists"
  const EntryNotFound := "Entry not found"
  const FailedToRemove := "Failed to remove entry"
  const UnexpectedRemovalError := "Unexpected error occurred during removal"
  const AddedMessage := "Entry added to blacklist successfully"
  const DefaultReason := "No reason provided"
  const DefaultAddedBy := "api"
  const DefaultCategory := "other"

  /** `value || fallback` for a string field. */
  function OrElse(value: Option<string>, fallback: string): string {
    if value.None? || value.value == "" then fallback else value.value
  }

  // ---------------------------------------------------------------- GET /

  /** `GET /`: every entry, with the store's statistics as metadata. */
  function ListAll(r: Registry, now: int): (resp: Response)
    requires WellFormed(r)
    ensures resp.status == 200 && resp.success && resp.body.Listing?
    ensures resp.body.total == |resp.body.data| == |r.names|
    ensures forall e :: e in resp.body.data ==> GetBlacklistEntry(r, e.name) == Some(e)
    ensures forall k :: k in r.names ==> r.names[k] in resp.body.data
    ensures resp.body.categories == GetBlacklistStats(r, now).categories
    ensures resp.body.lastUpdated == GetBlacklistStats(r, now).lastUpdated
    ensures resp.body.timestamp == now
  {
    ListingIsComplete(r);
    var entries := GetAllBlacklisted(r);
    var stats := GetBlacklistStats(r, now);
    Response(200, true, Listing(entries, stats.total, stats.categories, stats.lastUpdated, now))
  }

  /** The listing's per-category counts add up to the number of entries it lists. */
  lemma ListAllCountsAddUp(r: Registry, now: int)
    requires WellFormed(r)
    ensures MapSum(ListAll(r, now).body.categories) == |ListAll(r, now).body.data|
  {
    StatsCategoriesSumToTotal(r, now);
  }

  // ---------------------------------------------------------------- GET /check/:name

  /** `GET /check/:name`: a blank name is refused; otherwise the trimmed name is looked up
      and its entry is included exactly when it is blacklisted. */
  function Check(r: Registry, name: string, now: int): (resp: Response)
    requires WellFormed(r)
    ensures resp.status == 400 <==> IsBlank(name)
    ensures resp.status == 400 ==>
      resp == Response(400, false, Failure(InvalidNameParameter, NameMustBeNonEmpty))
    ensures resp.status != 400 ==>
      && resp.status == 200 && resp.success && resp.body.CheckResult?
      && resp.body.name == Trim(name)
      && resp.body.isBlacklisted == IsBlacklisted(r, Trim(name))
      && (resp.body.entry.Some? <==> resp.body.isBlacklisted)
      && (resp.body.entry.Some? ==> resp.body.entry == GetBlacklistEntry(r, Trim(name)))
      && resp.body.checkedAt == now
  {
    if IsBlank(name) then
      Response(400, false, Failure(InvalidNameParameter, NameMustBeNonEmpty))
    else
      var trimmed := Trim(name);
      var listed := IsBlacklisted(r, trimmed);
      var entry := if listed then GetBlacklistEntry(r, trimmed) else None;
      Response(200, true, CheckResult(trimmed, listed, entry, now))
  }

  /** A check is blind to surrounding whitespace and to case: checking the trimmed,
      lower-cased name gives the same verdict and the same entry. */
  lemma CheckNormalizes(r: Registry, name: string, now: int)
    requires WellFormed(r)
    requires !IsBlank(name)
    ensures var key := Lower(Trim(name));
      && !IsBlank(key)
      && Check(r, key, now).body.isBlacklisted == Check(r, name, now).body.isBlacklisted
      && Check(r, key, now).body.entry == Check(r, name, now).body.entry
  {
    var t := Trim(name);
    var key := Lower(t);
    TrimIdempotent(name);
    TrimLowerCommute(t);
    assert Trim(key) == key;
    assert |key| == |t| && t != [];
    LookupIgnoresCase(r, t);
    assert Check(r, key, now).body.isBlacklisted == IsBlacklisted(r, t);
    assert Check(r, name, now).body.isBlacklisted == IsBlacklisted(r, t);
  }

  // ---------------------------------------------------------------- GET /stats

  /** `GET /stats`: the store's statistics, unchanged, with the time they were read. */
  function GetStats(r: Registry, now: int): (resp: Response)
    requires WellFormed(r)
    ensures resp.status == 200 && resp.success && resp.body.StatsReport?
    ensures resp.body.stats == GetBlacklistStats(r, now) && resp.body.retrievedAt == now
    ensures resp.body.stats.total == |GetAllBlacklisted(r)|
  {
    Response(200, true, StatsReport(GetBlacklistStats(r, now), now))
  }

  // ---------------------------------------------------------------- POST /

  /** Whether the POST `name` passes `!name || typeof name !== 'string' || name.trim().length === 0`. */
  predicate ValidName(f: NameField) {
    f.Str? && !IsBlank(f.value)
  }

  /** What `POST /` answers and what the store holds afterwards. */
  function AddOutcome(r: Registry, req: AddRequest, now: int): (out: (Response, Registry))
    requires WellFormed(r)
    ensures WellFormed(out.1)
    ensures out.0.status == 201 || out.0.status == 400 || out.0.status == 409
    ensures out.0.status == 400 <==> !ValidName(req.name)
    ensures out.0.status == 409 <==> ValidName(req.name) && IsBlacklisted(r, Trim(req.name.value))
    ensures out.0.success <==> out.0.status == 201
    ensures out.0.status != 201 ==> out.1 == r && out.0.body.Failure?
    ensures out.0.status == 400 ==> out.0.body.error == InvalidName
    ensures out.0.status == 409 ==> out.0.body.error == EntryAlreadyExists
    ensures out.0.status == 201 ==>
      && out.0.body.Created?
      && out.0.body.stored.name == Trim(req.name.value)
      && out.0.body.stored.addedAt == now
      && out.1 == Put(r, Lower(Trim(req.name.value)), out.0.body.stored)
      && GetBlacklistEntry(out.1, Trim(req.name.value)) == Some(out.0.body.stored)
      && |out.1.names| == |r.names| + 1
      && (forall k :: k != Lower(Trim(req.name.value)) ==>
            (k in out.1.names <==> k in r.names) && (k in r.names ==> out.1.names[k] == r.names[k]))
  {
    if !req.name.Str? || IsBlank(req.name.value) then
      (Response(400, false, Failure(InvalidName, NameIsRequired)), r)
    else
      var trimmed := Trim(req.name.value);
      if IsBlacklisted(r, trimmed) then
        (Response(409, false, Failure(EntryAlreadyExists,
           "Name '" + trimmed + "' is already blacklisted")), r)
      else
        var draft := Draft(trimmed, Some(OrElse(req.reason, DefaultReason)),
                           Some(OrElse(req.addedBy, DefaultAddedBy)),
                           Some(OrElse(req.category, DefaultCategory)));
        var entry := Stamp(draft, now);
        AddSemantics(r, draft, now);
        (Response(201, true, Created(AddedMessage, entry)), Put(r, Lower(trimmed), entry))
  }

  /** The entry a successful POST stores: falsy `reason`, `addedBy` and `category` become
      `No reason provided`, `api` and `other`; any other category is kept as given. */
  lemma AddFillsDefaults(r: Registry, req: AddRequest, now: int)
    requires WellFormed(r)
    requires AddOutcome(r, req, now).0.status == 201
    ensures var e := AddOutcome(r, req, now).0.body.stored;
      && e.name == Trim(req.name.value) && e.addedAt == now
      && (req.reason.Some? && req.reason.value != "" ==> e.reason == req.reason)
      && (req.reason.None? || req.reason == Some("") ==> e.reason == Some(DefaultReason))
      && (req.addedBy.Some? && req.addedBy.value != "" ==> e.addedBy == req.addedBy)
      && (req.addedBy.None? || req.addedBy == Some("") ==> e.addedBy == Some(DefaultAddedBy))
      && (req.category.Some? && req.category.value != "" ==> e.category == req.category)
      && (req.category.None? || req.category == Some("") ==> e.category == Some(DefaultCategory))
  {
  }

  /** Two POSTs of names that trim and lower-case alike: the first creates the entry (201),
      the second is refused (409) and changes nothing. */
  lemma AddThenAddConflicts(r: Registry, req1: AddRequest, req2: AddRequest, t1: int, t2: int)
    requires WellFormed(r)
    requires ValidName(req1.name) && ValidName(req2.name)
    requires Lower(Trim(req1.name.value)) == Lower(Trim(req2.name.value))
    requires !IsBlacklisted(r, Trim(req1.name.value))
    ensures var (resp1, r1) := AddOutcome(r, req1, t1);
      var (resp2, r2) := AddOutcome(r1, req2, t2);
      && resp1.status == 201
      && resp2.status == 409
      && r2 == r1
  {
    var (resp1, r1) := AddOutcome(r, req1, t1);
    TrimIdempotent(req1.name.value);
    assert GetBlacklistEntry(r1, Trim(req1.name.value)) == Some(resp1.body.stored);
  }

  /** `POST /` on the store object. */
  method Post(store: Store, req: AddRequest, now: int) returns (resp: Response)
    requires store.Valid()
    modifies store
    ensures store.Valid()
    ensures (resp, store.State()) == AddOutcome(old(store.State()), req, now)
  {
    if !req.name.Str? || IsBlank(req.name.value) {
      resp := Response(400, false, Failure(InvalidName, NameIsRequired));
      return;
    }
    var trimmed := Trim(req.name.value);
    if IsBlacklisted(store.State(), trimmed) {
      resp := Response(409, false, Failure(EntryAlreadyExists,
        "Name '" + trimmed + "' is already blacklisted"));
      return;
    }
    var entry := store.Add(Draft(trimmed, Some(OrElse(req.reason, DefaultReason)),
                                 Some(OrElse(req.addedBy, DefaultAddedBy)),
                                 Some(OrElse(req.category, DefaultCategory))), now);
    resp := Response(201, true, Created(AddedMessage, entry));
  }

  // ---------------------------------------------------------------- DELETE /:name

  /** What `DELETE /:name` answers and what the store holds afterwards. The `500` answer
      for a removal that reports nothing deleted is kept as written. */
  function RemoveOutcome(r: Registry, name: string, now: int): (out: (Response, Registry))
    requires WellFormed(r)
    ensures WellFormed(out.1)
    ensures out.0.status == 200 || out.0.status == 400 || out.0.status == 404
    ensures out.0.status == 400 <==> IsBlank(name)
    ensures out.0.status == 404 <==> !IsBlank(name) && !IsBlacklisted(r, Trim(name))
    ensures out.0.success <==> out.0.status == 200
    ensures out.0.status != 200 ==> out.1 == r && out.0.body.Failure?
    ensures out.0.status == 400 ==> out.0.body.error == InvalidNameParameter
    ensures out.0.status == 404 ==> out.0.body.error == EntryNotFound
    ensures out.0.status == 200 ==>
      && out.0.body.Removed? && out.0.body.removedAt == now
      && out.1 == Delete(r, Lower(Trim(name)))
      && !IsBlacklisted(out.1, Trim(name))
      && |out.1.names| == |r.names| - 1
      && (forall k :: k != Lower(Trim(name)) ==>
            (k in out.1.names <==> k in r.names) && (k in r.names ==> out.1.names[k] == r.names[k]))
  {
    if IsBlank(name) then
      (Response(400, false, Failure(InvalidNameParameter, NameMustBeNonEmpty)), r)
    else
      var trimmed := Trim(name);
      if !IsBlacklisted(r, trimmed) then
        (Response(404, false, Failure(EntryNotFound,
           "Name '" + trimmed + "' is not in the blacklist")), r)
      else
        var removed := IsBlacklisted(r, trimmed);
        var r' := if removed then Delete(r, Lower(trimmed)) else r;
        RemoveSemantics(r, trimmed);
        if removed then
          (Response(200, true, Removed("Entry '" + trimmed + "' removed from blacklist successfully",
             now)), r')
        else
          (Response(500, false, Failure(FailedToRemove, UnexpectedRemovalError)), r')
  }

  /** `DELETE /:name` on the store object. */
  method Remove(store: Store, name: string, now: int) returns (resp: Response)
    requires store.Valid()
    modifies store
    ensures store.Valid()
    ensures (resp, store.State()) == RemoveOutcome(old(store.State()), name, now)
  {
    if IsBlank(name) {
      resp := Response(400, false, Failure(InvalidNameParameter, NameMustBeNonEmpty));
      return;
    }
    var trimmed := Trim(name);
    if !IsBlacklisted(store.State(), trimmed) {
      resp := Response(404, false, Failure(EntryNotFound,
        "Name '" + trimmed + "' is not in the blacklist"));
      return;
    }
    var removed := store.Remove(trimmed);
    if removed {
      resp := Response(200, true, Removed("Entry '" + trimmed + "' removed from blacklist successfully",
        now));
    } else {
      resp := Response(500, false, Failure(FailedToRemove, UnexpectedRemovalError));
    }
  }

  /** A present name can be deleted once: a second DELETE of it answers 404. */
  lemma DeleteThenDeleteNotFound(r: Registry, name: string, t1: int, t2: int)
    requires WellFormed(r)
    requires !IsBlank(name) && IsBlacklisted(r, Trim(name))
    ensures var (resp1, r1) := RemoveOutcome(r, name, t1);
      && resp1.status == 200
      && RemoveOutcome(r1, name, t2).0.status == 404
  {
    var out1 := RemoveOutcome(r, name, t1);
    assert out1.0.status == 200;
    assert !IsBlacklisted(out1.1, Trim(name));
  }

  /** Adding a new name through POST and deleting it through DELETE restores the store,
      iteration order included. */
  lemma AddThenDeleteRestores(r: Registry, req: AddRequest, t1: int, t2: int)
    requires WellFormed(r)
    requires ValidName(req.name) && !IsBlacklisted(r, Trim(req.name.value))
    ensures AddOutcome(r, req, t1).0.status == 201
    ensures RemoveOutcome(AddOutcome(r, req, t1).1, req.name.value, t2).0.status == 200
    ensures RemoveOutcome(AddOutcome(r, req, t1).1, req.name.value, t2).1 == r
  {
    var out1 := AddOutcome(r, req, t1);
    var key := Lower(Trim(req.name.value));
    assert out1.1 == Put(r, key, out1.0.body.stored);
    assert IsBlacklisted(out1.1, Trim(req.name.value));
    PutThenDeleteRestores(r, key, out1.0.body.stored);
  }
}
