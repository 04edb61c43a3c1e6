/**
 * The candidate handlers of backend/controllers/candidates.js over the stored
 * collection: list, get, create, update, delete and search. The collection is a
 * `CandidateStore` whose records the handlers read and change; the caller's id,
 * the clock and the id of a new document are inputs. Every handler catches
 * whatever the store throws and answers 500 "Server Error".
 */
module CandidateController {
  import opened Basics
  import opened CandidateSchema
  import opened Http
  import opened Pagination
  import opened SearchQuery

  const AccessRefused: string := "Not authorized to access this candidate"
  const UpdateRefused: string := "Not authorized to update this candidate"
  const DeleteRefused: string := "Not authorized to delete this candidate"

  /** The 404 answer, quoting the id parameter as the client wrote it. */
  function NotFound(idParam: string): Response {
    Response(404, false, Message("No candidate found with id " + idParam))
  }

  /** The 401 answer of an operation on someone else's candidate. */
  function NotAuthorized(message: string): Response {
    Response(401, false, Message(message))
  }

  predicate Distinct(s: seq<Id>) {
    forall i, j :: 0 <= i < j < |s| ==> s[i] != s[j]
  }

  /** The stored documents in the collection's natural (insertion) order. */
  function DocsOf(records: map<Id, Candidate>, order: seq<Id>): (docs: seq<Candidate>)
    requires forall k :: k in order ==> k in records
    ensures |docs| == |order|
    ensures forall i :: 0 <= i < |order| ==> docs[i] == records[order[i]]
  {
    seq(|order|, i requires 0 <= i < |order| => records[order[i]])
  }

  /**
   * `find({createdBy: owner})`: the owner's documents, each as often as it is
   * stored, in stored order (`OwnedByMultiplicity`, `OwnedByConcat`).
   */
  function OwnedBy(docs: seq<Candidate>, owner: UserId): (r: seq<Candidate>)
    ensures forall c :: c in r <==> c in docs && c.createdBy == owner
    ensures |r| <= |docs|
  {
    if docs == [] then []
    else
      assert docs == [docs[0]] + docs[1..];
      (if docs[0].createdBy == owner then [docs[0]] else []) + OwnedBy(docs[1..], owner)
  }

  /** The order of ids with `id` taken out; the others keep their order. */
  function Without(ids: seq<Id>, id: Id): (r: seq<Id>)
    ensures forall k :: k in r <==> k in ids && k != id
    ensures Distinct(ids) ==> Distinct(r)
  {
    if ids == [] then []
    else
      var rest := Without(ids[1..], id);
      if ids[0] == id then rest
      else
        assert Distinct(ids) ==> ids[0] !in ids[1..];
        [ids[0]] + rest
  }

  // ---------------------------------------------------------------------------
  // The listing and search answers, as functions of the stored documents
  // ---------------------------------------------------------------------------

  /**
   * `getCandidates`: a page of the caller's documents, in stored order. The
   * caller's id is cast to an ObjectId for the `createdBy` condition; an id that
   * does not cast makes the store throw.
   */
  function ListResponse(docs: seq<Candidate>, caller: UserId, pageParam: Option<string>, limitParam: Option<string>): (r: Response)
    ensures !IsObjectIdText(caller) ==> r == ServerError
    ensures r.status == 200 || r == ServerError
    ensures r.status == 200 ==>
      && IsObjectIdText(caller)
      && r.body.Listing?
      && forall c :: c in r.body.data ==> c in docs && c.createdBy == CanonicalId(caller)
  {
    if !IsObjectIdText(caller) then ServerError
    else ListAnswer(OwnedBy(docs, CanonicalId(caller)), PageNumber(pageParam), PageLimit(limitParam))
  }

  /** The list answer once `page` and `limit` are parsed: a negative skip makes the store throw. */
  function ListAnswer(owned: seq<Candidate>, page: int, limit: int): (r: Response)
    requires limit != 0
    ensures r == ServerError <==> StartIndex(page, limit) < 0
    ensures r.status == 200 || r == ServerError
    ensures r.status == 200 ==>
      && r.body.Listing?
      && r.body.count == |r.body.data| <= Abs(limit)
      && r.body.data == Window(owned, StartIndex(page, limit), limit)
      && r.body.pagination == Links(page, limit, |owned|)
      && forall c :: c in r.body.data ==> c in owned
  {
    if StartIndex(page, limit) < 0 then ServerError
    else
      var data := Window(owned, StartIndex(page, limit), limit);
      WindowElementsIn(owned, StartIndex(page, limit), limit);
      Response(200, true, Listing(|data|, Links(page, limit, |owned|), data))
  }

  /**
   * The documents a search returns before paging: the owner's that pass every
   * filter, each as often as it is stored, in stored order
   * (`SelectedMultiplicity`, `SelectedConcat`).
   */
  function Selected(docs: seq<Candidate>, owner: UserId, p: SearchParams, textMatch: TextMatch): (r: seq<Candidate>)
    ensures forall c :: c in r <==> c in docs && c.createdBy == owner && Filters(p, c, textMatch)
    ensures |r| <= |docs|
  {
    if docs == [] then []
    else
      assert docs == [docs[0]] + docs[1..];
      var keep := docs[0].createdBy == owner && Filters(p, docs[0], textMatch);
      (if keep then [docs[0]] else []) + Selected(docs[1..], owner, p, textMatch)
  }

  /** An `experience` parameter that is given but is not a number. */
  predicate ExperienceNaN(p: SearchParams) {
    Truthy(p.experience) && ThresholdOf(p.experience.value) == NotANumber
  }

  /**
   * `searchCandidates`: a page of the matching documents, newest first, with
   * their total. The store throws when the caller's id does not cast to an
   * ObjectId or the experience bound is `NaN`.
   */
  function SearchResponse(docs: seq<Candidate>, caller: UserId, p: SearchParams, textMatch: TextMatch): (r: Response)
    ensures !IsObjectIdText(caller) || ExperienceNaN(p) ==> r == ServerError
    ensures r.status == 200 || r == ServerError
    ensures r.status == 200 ==>
      && IsObjectIdText(caller)
      && r.body.SearchListing?
      && r.body.total == |Selected(docs, CanonicalId(caller), p, textMatch)|
      && forall c :: c in r.body.data ==> c in docs && c.createdBy == CanonicalId(caller) && Filters(p, c, textMatch)
  {
    if !IsObjectIdText(caller) || ExperienceNaN(p) then ServerError
    else SearchResult(Selected(docs, CanonicalId(caller), p, textMatch), PageNumber(p.page), PageLimit(p.limit))
  }

  /** The search answer once the matches are known and `page` and `limit` are parsed. */
  function SearchResult(matches: seq<Candidate>, page: int, limit: int): (r: Response)
    requires limit != 0
    ensures r == ServerError <==> StartIndex(page, limit) < 0
    ensures r.status == 200 || r == ServerError
    ensures r.status == 200 ==>
      && r.body.SearchListing?
      && r.body.total == |matches|
      && r.body.count == |r.body.data| <= Abs(limit)
      && NewestFirst(r.body.data)
      && forall c :: c in r.body.data ==> c in matches
  {
    if StartIndex(page, limit) < 0 then ServerError
    else
      var data := Window(SortNewestFirst(matches), StartIndex(page, limit), limit);
      SortedWindowIn(matches, StartIndex(page, limit), limit);
      Response(200, true, SearchListing(|data|, Links(page, limit, |matches|), |matches|, data))
  }

  /** What an update writes: the patched document, or None when the store refuses the update. */
  function UpdatedRecord(c: Candidate, b: CandidateBody, now: int): (r: Option<Candidate>)
    ensures r.Some? ==> r.value.id == c.id && r.value.createdAt == c.createdAt && r.value.updatedAt == now
    ensures r.Some? && IsValid(c) ==> IsValid(r.value)
    ensures r.Some? && IsCanonicalId(c.createdBy) ==> IsCanonicalId(r.value.createdBy)
    ensures r.None? <==> UpdateErrors(b) != [] || (b.createdBy.Some? && !IsObjectIdText(b.createdBy.value))
  {
    if b.createdBy.Some? && !IsObjectIdText(b.createdBy.value) then None
    else
      var cast := if b.createdBy.Some? then b.(createdBy := Some(CanonicalId(b.createdBy.value))) else b;
      assert UpdateErrors(cast) == UpdateErrors(b);
      match ApplyUpdate(c, cast, now)
      case Failure(_) => None
      case Success(d) =>
        if IsValid(c) then UpdatePreservesValidity(c, cast, now); Some(d) else Some(d)
  }

  // ---------------------------------------------------------------------------
  // The collection and the handlers
  // ---------------------------------------------------------------------------

  /** Every id is stored once, in canonical form, under its own document, and every document passed validation. */
  ghost predicate Consistent(records: map<Id, Candidate>, order: seq<Id>) {
    && Distinct(order)
    && (forall k :: k in records <==> k in order)
    && (forall k :: k in records ==> StoredUnder(k, records[k]))
  }

  /**
   * A document fit to be stored under `k`: a canonical id, its own, an owner
   * that is an ObjectId in canonical form, and it passed validation.
   */
  predicate StoredUnder(k: Id, c: Candidate) {
    IsCanonicalId(k) && c.id == k && IsCanonicalId(c.createdBy) && IsValid(c)
  }

  /** Storing a new valid document under a fresh canonical id, at the end of the order, keeps the collection consistent. */
  lemma InsertKeepsConsistent(records: map<Id, Candidate>, order: seq<Id>, id: Id, c: Candidate)
    requires Consistent(records, order)
    requires IsCanonicalId(id) && id !in records && c.id == id && IsCanonicalId(c.createdBy) && IsValid(c)
    ensures Consistent(records[id := c], order + [id])
  {
    var added := records[id := c];
    var ids := order + [id];
    forall k | k in added
      ensures StoredUnder(k, added[k])
    {
      if k != id {
        assert added[k] == records[k];
      }
    }
    forall i, j | 0 <= i < j < |ids|
      ensures ids[i] != ids[j]
    {
      if j == |order| {
        assert ids[i] == order[i];
      }
    }
  }

  /** Replacing a stored document by a valid one with the same id keeps the collection consistent. */
  lemma ReplaceKeepsConsistent(records: map<Id, Candidate>, order: seq<Id>, id: Id, d: Candidate)
    requires Consistent(records, order)
    requires id in records && d.id == id && IsCanonicalId(d.createdBy) && IsValid(d)
    ensures Consistent(records[id := d], order)
  {
    var updated := records[id := d];
    assert StoredUnder(id, d);
    forall k | k in updated
      ensures StoredUnder(k, updated[k])
    {
      if k != id {
        assert updated[k] == records[k];
      }
    }
  }

  /** Removing a document and its id keeps the collection consistent. */
  lemma RemoveKeepsConsistent(records: map<Id, Candidate>, order: seq<Id>, id: Id)
    requires Consistent(records, order)
    ensures Consistent(records - {id}, Without(order, id))
  {
  }

  class CandidateStore {
    /** The stored documents by id. */
    var records: map<Id, Candidate>
    /** The ids in the order the documents were inserted. */
    var order: seq<Id>

    ghost predicate Valid()
      reads this
    {
      Consistent(records, order)
    }

    /** An empty collection. */
    constructor ()
      ensures Valid()
      ensures records == map[] && order == []
    {
      records := map[];
      order := [];
    }

    /** The stored documents in natural order. */
    function Docs(): seq<Candidate>
      reads this
      requires Valid()
    {
      DocsOf(records, order)
    }

    /** GET /api/candidates: one page of the caller's candidates. */
    method GetCandidates(caller: UserId, pageParam: Option<string>, limitParam: Option<string>) returns (r: Response)
      requires Valid()
      ensures r == ListResponse(Docs(), caller, pageParam, limitParam)
      ensures !IsObjectIdText(caller) ==> r == ServerError
      ensures r.status == 200 ==> IsObjectIdText(caller) && r.body.Listing? && |r.body.data| <= Abs(PageLimit(limitParam))
      ensures r.status == 200 ==> forall c :: c in r.body.data ==> c.createdBy == CanonicalId(caller) && c.id in records && records[c.id] == c
      ensures r.status != 200 ==> r == ServerError
    {
      if !IsObjectIdText(caller) {
        // the `createdBy` condition cannot cast the caller's id
        return ServerError;
      }
      var owner := CanonicalId(caller);
      var page := PageNumber(pageParam);
      var limit := PageLimit(limitParam);
      var startIndex := StartIndex(page, limit);
      var endIndex := EndIndex(page, limit);
      var owned := OwnedBy(Docs(), owner);
      var total := |owned|;
      assert ListResponse(Docs(), caller, pageParam, limitParam) == ListAnswer(owned, page, limit);
      if startIndex < 0 {
        // the store refuses a negative skip
        return ServerError;
      }
      var candidates := Window(owned, startIndex, limit);
      var next := if endIndex < total then Some(PageRef(page + 1, limit)) else None;
      var prev := if startIndex > 0 then Some(PageRef(page - 1, limit)) else None;
      r := Response(200, true, Listing(|candidates|, Pagination(next, prev), candidates));
      assert r == ListAnswer(owned, page, limit);
      WindowElementsIn(owned, startIndex, limit);
      DocsAreStored(records, order);
    }

    /** GET /api/candidates/:id. */
    method GetCandidate(caller: UserId, idParam: string) returns (r: Response)
      requires Valid()
      ensures !IsObjectIdText(idParam) ==> r == ServerError
      ensures IsObjectIdText(idParam) && CanonicalId(idParam) !in records ==> r == NotFound(idParam)
      ensures IsObjectIdText(idParam) && CanonicalId(idParam) in records ==>
        var c := records[CanonicalId(idParam)];
        r == if c.createdBy == caller then Response(200, true, Record(c)) else NotAuthorized(AccessRefused)
      ensures r.status == 200 ==> r.body.Record? && r.body.candidate.createdBy == caller
                                  && r.body.candidate.id in records && records[r.body.candidate.id] == r.body.candidate
    {
      if !IsObjectIdText(idParam) {
        // findById throws a CastError
        return ServerError;
      }
      var id := CanonicalId(idParam);
      if id !in records {
        return NotFound(idParam);
      }
      var candidate := records[id];
      if candidate.createdBy != caller {
        return NotAuthorized(AccessRefused);
      }
      r := Response(200, true, Record(candidate));
    }

    /**
     * POST /api/candidates: the body with the caller as owner is validated and
     * stored under `newId`, the owner cast to an ObjectId. A caller id that does
     * not cast, a validation failure, or an id already taken, is a 500 and stores
     * nothing.
     */
    method CreateCandidate(caller: UserId, body: CandidateBody, now: int, newId: Id) returns (r: Response)
      requires Valid() && IsCanonicalId(newId)
      modifies this
      ensures Valid()
      ensures !IsObjectIdText(caller) ==> r == ServerError && records == old(records) && order == old(order)
      ensures IsObjectIdText(caller) && (NewCandidate(newId, body, CanonicalId(caller), now).Failure? || newId in old(records)) ==>
        r == ServerError && records == old(records) && order == old(order)
      ensures IsObjectIdText(caller) && NewCandidate(newId, body, CanonicalId(caller), now).Success? && newId !in old(records) ==>
        var c := NewCandidate(newId, body, CanonicalId(caller), now).value;
        && c.createdBy == CanonicalId(caller)
        && records == old(records)[newId := c]
        && order == old(order) + [newId]
        && r == Response(201, true, Record(c))
    {
      if !IsObjectIdText(caller) {
        // `createdBy` fails its ObjectId cast
        return ServerError;
      }
      var owner := CanonicalId(caller);
      var withOwner := body.(createdBy := Some(owner));
      CreateIgnoresBodyOwner(newId, body, owner, owner, now);
      match NewCandidate(newId, withOwner, owner, now)
      case Failure(_) =>
        return ServerError;
      case Success(candidate) =>
        if newId in records {
          // the insert hits the unique index on _id
          return ServerError;
        }
        InsertKeepsConsistent(records, order, newId, candidate);
        records := records[newId := candidate];
        order := order + [newId];
        r := Response(201, true, Record(candidate));
    }

    /**
     * PUT /api/candidates/:id: the caller's own candidate gets the body's paths
     * set (validated) and a new `updatedAt`; any other outcome changes nothing.
     */
    method UpdateCandidate(caller: UserId, idParam: string, body: CandidateBody, now: int) returns (r: Response)
      requires Valid()
      modifies this
      ensures Valid()
      ensures order == old(order)
      ensures !IsObjectIdText(idParam) ==> r == ServerError && records == old(records)
      ensures IsObjectIdText(idParam) && CanonicalId(idParam) !in old(records) ==>
        r == NotFound(idParam) && records == old(records)
      ensures IsObjectIdText(idParam) && CanonicalId(idParam) in old(records) ==>
        var id := CanonicalId(idParam);
        var c := old(records)[id];
        if c.createdBy != caller then
          r == NotAuthorized(UpdateRefused) && records == old(records)
        else
          match UpdatedRecord(c, body, now)
          case None => r == ServerError && records == old(records)
          case Some(d) => records == old(records)[id := d] && r == Response(200, true, Record(d))
    {
      if !IsObjectIdText(idParam) {
        return ServerError;
      }
      var id := CanonicalId(idParam);
      if id !in records {
        return NotFound(idParam);
      }
      var candidate := records[id];
      if candidate.createdBy != caller {
        return NotAuthorized(UpdateRefused);
      }
      match UpdatedRecord(candidate, body, now)
      case None =>
        // a cast or validation failure of findByIdAndUpdate
        return ServerError;
      case Some(updated) =>
        ReplaceKeepsConsistent(records, order, id, updated);
        records := records[id := updated];
        r := Response(200, true, Record(updated));
    }

    /** DELETE /api/candidates/:id: the caller's own candidate is removed; any other outcome changes nothing. */
    method DeleteCandidate(caller: UserId, idParam: string) returns (r: Response)
      requires Valid()
      modifies this
      ensures Valid()
      ensures !IsObjectIdText(idParam) ==> r == ServerError && records == old(records) && order == old(order)
      ensures IsObjectIdText(idParam) && CanonicalId(idParam) !in old(records) ==>
        r == NotFound(idParam) && records == old(records) && order == old(order)
      ensures IsObjectIdText(idParam) && CanonicalId(idParam) in old(records) ==>
        var id := CanonicalId(idParam);
        if old(records)[id].createdBy != caller then
          r == NotAuthorized(DeleteRefused) && records == old(records) && order == old(order)
        else
          && records == old(records) - {id}
          && order == Without(old(order), id)
          && r == Response(200, true, NoData)
    {
      if !IsObjectIdText(idParam) {
        return ServerError;
      }
      var id := CanonicalId(idParam);
      if id !in records {
        return NotFound(idParam);
      }
      var candidate := records[id];
      if candidate.createdBy != caller {
        return NotAuthorized(DeleteRefused);
      }
      RemoveKeepsConsistent(records, order, id);
      records := records - {id};
      order := Without(order, id);
      r := Response(200, true, NoData);
    }

    /** GET /api/candidates/search: one page of the caller's matching candidates, newest first. */
    method SearchCandidates(caller: UserId, p: SearchParams, textMatch: TextMatch) returns (r: Response)
      requires Valid()
      ensures r == SearchResponse(Docs(), caller, p, textMatch)
    {
      if !IsObjectIdText(caller) {
        // the `createdBy` condition cannot cast the caller's id
        return ServerError;
      }
      var owner := CanonicalId(caller);
      var query := BuildQuery(owner, p);
      var page := PageNumber(p.page);
      var limit := PageLimit(p.limit);
      var startIndex := StartIndex(page, limit);
      var endIndex := EndIndex(page, limit);
      if CastFails(query) {
        // countDocuments cannot cast the NaN bound
        return ServerError;
      }
      var matches := Select(Docs(), query, textMatch);
      SelectIsSelected(Docs(), query, owner, p, textMatch);
      var total := |matches|;
      if startIndex < 0 {
        return ServerError;
      }
      var candidates := Window(SortNewestFirst(matches), startIndex, limit);
      var next := if endIndex < total then Some(PageRef(page + 1, limit)) else None;
      var prev := if startIndex > 0 then Some(PageRef(page - 1, limit)) else None;
      r := Response(200, true, SearchListing(|candidates|, Pagination(next, prev), total, candidates));
    }
  }

  /** Every element of a window is an element of the sequence it is taken from. */
  lemma WindowElementsIn<T>(s: seq<T>, skip: nat, limit: int)
    requires limit != 0
    ensures forall x :: x in Window(s, skip, limit) ==> x in s
  {
    var w := Window(s, skip, limit);
    forall x | x in w
      ensures x in s
    {
      var i :| 0 <= i < |w| && w[i] == x;
      assert s[skip + i] == x;
    }
  }

  /** A window of the sorted matches is newest first and holds only matches. */
  lemma SortedWindowIn(matches: seq<Candidate>, skip: nat, limit: int)
    requires limit != 0
    ensures NewestFirst(Window(SortNewestFirst(matches), skip, limit))
    ensures forall c :: c in Window(SortNewestFirst(matches), skip, limit) ==> c in matches
  {
    var sorted := SortNewestFirst(matches);
    WindowNewestFirst(sorted, skip, limit);
    WindowElementsIn(sorted, skip, limit);
    forall c | c in sorted
      ensures c in matches
    {
      assert c in multiset(sorted);
    }
  }

  /** A window of a newest-first sequence is newest first. */
  lemma WindowNewestFirst(s: seq<Candidate>, skip: nat, limit: int)
    requires limit != 0 && NewestFirst(s)
    ensures NewestFirst(Window(s, skip, limit))
  {
    var w := Window(s, skip, limit);
    forall i, j | 0 <= i < j < |w|
      ensures w[i].createdAt >= w[j].createdAt
    {
      assert w[i] == s[skip + i] && w[j] == s[skip + j];
    }
  }

  /** In a valid collection each stored document sits under its own id. */
  lemma DocsAreStored(records: map<Id, Candidate>, order: seq<Id>)
    requires forall k :: k in order ==> k in records
    requires forall k :: k in records ==> records[k].id == k
    ensures forall c :: c in DocsOf(records, order) ==> c.id in records && records[c.id] == c
  {
    var docs := DocsOf(records, order);
    forall c | c in docs
      ensures c.id in records && records[c.id] == c
    {
      var i :| 0 <= i < |docs| && docs[i] == c;
      assert records[order[i]] == c;
    }
  }

  /**
   * Running the built query selects what the parameters ask for: `Select` with a
   * query that matches exactly the caller's candidates passing the filters is
   * `Selected`.
   */
  lemma {:induction false} SelectIsSelected(docs: seq<Candidate>, query: Query, owner: UserId, p: SearchParams, textMatch: TextMatch)
    requires forall c, tm :: Matches(query, c, tm) <==> c.createdBy == owner && Filters(p, c, tm)
    ensures Select(docs, query, textMatch) == Selected(docs, owner, p, textMatch)
  {
    if docs != [] {
      SelectIsSelected(docs[1..], query, owner, p, textMatch);
    }
  }

  // ---------------------------------------------------------------------------
  // Properties of the listing and the search
  // ---------------------------------------------------------------------------

  /**
   * With a positive limit and a page from 1 on, the list answers 200 with the
   * page's window of the owner's candidates: at most `limit` of them, `prev`
   * exactly after the first page, `next` exactly while candidates remain.
   */
  lemma ListPage(docs: seq<Candidate>, owner: UserId, page: int, limit: int)
    requires page >= 1 && limit >= 1
    ensures var owned := OwnedBy(docs, owner);
      var r := ListAnswer(owned, page, limit);
      && r.status == 200
      && r.body.Listing?
      && r.body.data == Window(owned, StartIndex(page, limit), limit)
      && r.body.count == |r.body.data| <= limit
      && r.body.pagination == Links(page, limit, |owned|)
      && (r.body.pagination.prev.Some? <==> page > 1)
      && (r.body.pagination.next.Some? <==> page * limit < |owned|)
  {
    MulMonotone(page - 1, limit);
    LinksForPositiveLimit(page, limit, |OwnedBy(docs, owner)|);
  }

  /** Pages 1 to `k` of the list, taken in turn, are the owner's first `k * limit` candidates. */
  lemma ListPagesPartition(docs: seq<Candidate>, owner: UserId, k: nat, limit: int)
    requires limit >= 1
    ensures k * limit >= 0
    ensures FirstPages(OwnedBy(docs, owner), k, limit) == OwnedBy(docs, owner)[..Min(k * limit, |OwnedBy(docs, owner)|)]
  {
    PagesPartition(OwnedBy(docs, owner), k, limit);
  }

  /** Concatenation regroups freely. */
  lemma AppendAssociates(a: seq<Candidate>, b: seq<Candidate>, c: seq<Candidate>)
    ensures a + (b + c) == (a + b) + c
  {
  }

  /** The owner's documents in a run of stored documents are those of each part, in turn. */
  lemma {:induction false} OwnedByConcat(a: seq<Candidate>, b: seq<Candidate>, owner: UserId)
    ensures OwnedBy(a + b, owner) == OwnedBy(a, owner) + OwnedBy(b, owner)
  {
    if a == [] {
      assert a + b == b;
    } else {
      var head := if a[0].createdBy == owner then [a[0]] else [];
      assert (a + b)[0] == a[0];
      assert (a + b)[1..] == a[1..] + b;
      assert OwnedBy(a + b, owner) == head + OwnedBy(a[1..] + b, owner);
      OwnedByConcat(a[1..], b, owner);
      assert OwnedBy(a, owner) == head + OwnedBy(a[1..], owner);
      AppendAssociates(head, OwnedBy(a[1..], owner), OwnedBy(b, owner));
    }
  }

  /** The matches in a run of stored documents are those of each part, in turn. */
  lemma {:induction false} SelectedConcat(a: seq<Candidate>, b: seq<Candidate>, owner: UserId, p: SearchParams, textMatch: TextMatch)
    ensures Selected(a + b, owner, p, textMatch) == Selected(a, owner, p, textMatch) + Selected(b, owner, p, textMatch)
  {
    if a == [] {
      assert a + b == b;
    } else {
      var head := if a[0].createdBy == owner && Filters(p, a[0], textMatch) then [a[0]] else [];
      assert (a + b)[0] == a[0];
      assert (a + b)[1..] == a[1..] + b;
      assert Selected(a + b, owner, p, textMatch) == head + Selected(a[1..] + b, owner, p, textMatch);
      SelectedConcat(a[1..], b, owner, p, textMatch);
      assert Selected(a, owner, p, textMatch) == head + Selected(a[1..], owner, p, textMatch);
      AppendAssociates(head, Selected(a[1..], owner, p, textMatch), Selected(b, owner, p, textMatch));
    }
  }

  /** Each of the owner's documents appears as often as it is stored; no other appears. */
  lemma {:induction false} OwnedByMultiplicity(docs: seq<Candidate>, owner: UserId)
    ensures forall c :: multiset(OwnedBy(docs, owner))[c] == if c.createdBy == owner then multiset(docs)[c] else 0
  {
    if docs != [] {
      OwnedByMultiplicity(docs[1..], owner);
      assert docs == [docs[0]] + docs[1..];
    }
  }

  /** Each matching document appears as often as it is stored; no other appears. */
  lemma {:induction false} SelectedMultiplicity(docs: seq<Candidate>, owner: UserId, p: SearchParams, textMatch: TextMatch)
    ensures forall c :: multiset(Selected(docs, owner, p, textMatch))[c]
                        == if c.createdBy == owner && Filters(p, c, textMatch) then multiset(docs)[c] else 0
  {
    if docs != [] {
      SelectedMultiplicity(docs[1..], owner, p, textMatch);
      assert docs == [docs[0]] + docs[1..];
    }
  }

  /**
   * With a positive limit and a page from 1 on, the search answers 200 with the
   * page's window of the sorted matches: at most `limit` of them, `total` all of
   * the matches, `prev` exactly after the first page, `next` exactly while
   * matches remain.
   */
  lemma SearchPage(matches: seq<Candidate>, page: int, limit: int)
    requires page >= 1 && limit >= 1
    ensures var r := SearchResult(matches, page, limit);
      && r.status == 200
      && r.body.SearchListing?
      && r.body.data == Window(SortNewestFirst(matches), StartIndex(page, limit), limit)
      && r.body.count == |r.body.data| <= limit
      && r.body.total == |matches|
      && (r.body.pagination.prev.Some? <==> page > 1)
      && (r.body.pagination.next.Some? <==> page * limit < |matches|)
  {
    MulMonotone(page - 1, limit);
    LinksForPositiveLimit(page, limit, |matches|);
  }

  /** Pages 1 to `k` of a search, taken in turn, are the first `k * limit` matches, newest first. */
  lemma SearchPagesPartition(docs: seq<Candidate>, owner: UserId, p: SearchParams, textMatch: TextMatch, k: nat, limit: int)
    requires limit >= 1
    ensures var sorted := SortNewestFirst(Selected(docs, owner, p, textMatch));
      && k * limit >= 0
      && FirstPages(sorted, k, limit) == sorted[..Min(k * limit, |sorted|)]
  {
    PagesPartition(SortNewestFirst(Selected(docs, owner, p, textMatch)), k, limit);
  }

  /**
   * A search answers 500 exactly when the caller's id does not cast, `experience`
   * is not a number or the skip is negative. Otherwise the page is the window of
   * the caller's matches sorted newest first, with the descriptors of the
   * matches' total; every returned candidate is stored, is the caller's and
   * passes every filter.
   */
  lemma SearchAnswer(docs: seq<Candidate>, caller: UserId, p: SearchParams, textMatch: TextMatch)
    ensures var r := SearchResponse(docs, caller, p, textMatch);
      && (r == ServerError <==>
            !IsObjectIdText(caller) || ExperienceNaN(p) || StartIndex(PageNumber(p.page), PageLimit(p.limit)) < 0)
      && (r.status == 200 ==>
            && IsObjectIdText(caller)
            && StartIndex(PageNumber(p.page), PageLimit(p.limit)) >= 0
            && var page, limit := PageNumber(p.page), PageLimit(p.limit);
               var matches := Selected(docs, CanonicalId(caller), p, textMatch);
            && r.body.SearchListing?
            && r.body.data == Window(SortNewestFirst(matches), StartIndex(page, limit), limit)
            && r.body.pagination == Links(page, limit, |matches|)
            && r.body.count == |r.body.data|
            && r.body.total == |matches|
            && NewestFirst(r.body.data)
            && |r.body.data| <= Abs(limit)
            && forall c :: c in r.body.data ==> c in docs && c.createdBy == CanonicalId(caller) && Filters(p, c, textMatch))
  {
    var r := SearchResponse(docs, caller, p, textMatch);
    if r.status == 200 {
      var limit := PageLimit(p.limit);
      var skip := StartIndex(PageNumber(p.page), limit);
      var matches := Selected(docs, CanonicalId(caller), p, textMatch);
      assert r == SearchResult(matches, PageNumber(p.page), limit);
    }
  }

  /** `total` counts every match, whatever page and limit are asked for. */
  lemma SearchTotalIgnoresPaging(docs: seq<Candidate>, caller: UserId, p: SearchParams, pageParam: Option<string>, limitParam: Option<string>, textMatch: TextMatch)
    requires SearchResponse(docs, caller, p, textMatch).status == 200
    requires SearchResponse(docs, caller, p.(page := pageParam, limit := limitParam), textMatch).status == 200
    ensures IsObjectIdText(caller)
    ensures SearchResponse(docs, caller, p, textMatch).body.total
            == SearchResponse(docs, caller, p.(page := pageParam, limit := limitParam), textMatch).body.total
            == |Selected(docs, CanonicalId(caller), p, textMatch)|
  {
    SelectedIgnoresPaging(docs, CanonicalId(caller), p, pageParam, limitParam, textMatch);
  }

  lemma {:induction false} SelectedIgnoresPaging(docs: seq<Candidate>, owner: UserId, p: SearchParams, pageParam: Option<string>, limitParam: Option<string>, textMatch: TextMatch)
    ensures Selected(docs, owner, p.(page := pageParam, limit := limitParam), textMatch) == Selected(docs, owner, p, textMatch)
  {
    if docs != [] {
      SelectedIgnoresPaging(docs[1..], owner, p, pageParam, limitParam, textMatch);
    }
  }

  /** A search with no filter counts the same candidates the list shows: all of the owner's. */
  lemma {:induction false} UnfilteredSearchIsTheList(docs: seq<Candidate>, owner: UserId, p: SearchParams, textMatch: TextMatch)
    requires !Truthy(p.q) && !Truthy(p.skills) && !Truthy(p.location)
    requires !Truthy(p.experience) && !Truthy(p.status) && !Truthy(p.source)
    ensures Selected(docs, owner, p, textMatch) == OwnedBy(docs, owner)
  {
    if docs != [] {
      NoFiltersAdmitAll(p, docs[0], textMatch);
      UnfilteredSearchIsTheList(docs[1..], owner, p, textMatch);
    }
  }

  /**
   * An update's body may name a new owner: the update then moves the candidate
   * to that user, and the caller loses access to it.
   */
  lemma UpdateCanTransferOwnership(c: Candidate, b: CandidateBody, other: UserId, now: int)
    requires IsCanonicalId(other) && c.createdBy != other
    requires b.createdBy == Some(other) && UpdateErrors(b) == []
    ensures UpdatedRecord(c, b, now).Some? && UpdatedRecord(c, b, now).value.createdBy == other
  {
    assert CanonicalId(other) == other;
  }
}
