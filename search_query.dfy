/**
 * The query `searchCandidates` in backend/controllers/candidates.js builds from
 * its request parameters, what a stored candidate must satisfy to match it, and
 * the newest-first order its results come back in.
 */
module SearchQuery {
  import opened Basics
  import opened JsText
  import opened CandidateSchema

  /** The search request's query parameters, each absent or given as text. */
  datatype SearchParams = SearchParams(
    q: Option<string>,
    skills: Option<string>,
    location: Option<string>,
    experience: Option<string>,
    status: Option<string>,
    source: Option<string>,
    page: Option<string>,
    limit: Option<string>)

  /** The store's text search: does the search string match these indexed strings? */
  type TextMatch = (string, seq<string>) -> bool

  /** The `$gte` bound on `experienceYears`: a number, or the `NaN` of an unparsable parameter. */
  datatype Threshold = AtLeast(years: int) | NotANumber

  /** The query object: the owner, then one optional condition per filter. */
  datatype Query = Query(
    owner: UserId,
    text: Option<string>,
    skillsIn: Option<seq<string>>,
    locationPattern: Option<string>,
    minExperience: Option<Threshold>,
    status: Option<string>,
    source: Option<string>)

  /** `if (x)` on a query parameter: given, and not the empty string. */
  predicate Truthy(p: Option<string>) {
    p.Some? && p.value != ""
  }

  /** `skills.split(',').map(skill => skill.trim())`. */
  function SkillList(raw: string): seq<string> {
    seq(|Split(raw, ',')|, i requires 0 <= i < |Split(raw, ',')| => Trim(Split(raw, ',')[i]))
  }

  /** `parseInt(experience)`, with no radix: `NaN` when no digits lead. */
  function ThresholdOf(raw: string): Threshold {
    match ParseInt(raw, Unspecified)
    case Some(n) => AtLeast(n)
    case None => NotANumber
  }

  // ---------------------------------------------------------------------------
  // What a candidate must satisfy, parameter by parameter
  // ---------------------------------------------------------------------------

  /** `skills: {$in: list}` on an array path: some skill of the candidate is in the list. */
  predicate SharesSkill(c: Candidate, list: seq<string>) {
    exists s :: s in c.skills && s in list
  }

  /** `location: {$regex: pattern, $options: 'i'}`, for a pattern read as literal text. */
  predicate LocationMatches(c: Candidate, pattern: string) {
    c.location.Some? && Contains(ToLower(c.location.value), ToLower(pattern))
  }

  /** `experienceYears: {$gte: n}`: the field is set and at least `n`. */
  predicate HasExperience(c: Candidate, n: int) {
    c.experienceYears.Some? && c.experienceYears.value >= n
  }

  /**
   * The search filters as the parameters state them: each truthy parameter adds
   * its condition, an absent or empty one adds none.
   */
  predicate Filters(p: SearchParams, c: Candidate, textMatch: TextMatch) {
    && (Truthy(p.q) ==> textMatch(p.q.value, TextIndexed(c)))
    && (Truthy(p.skills) ==> SharesSkill(c, SkillList(p.skills.value)))
    && (Truthy(p.location) ==> LocationMatches(c, p.location.value))
    && (Truthy(p.experience) ==> ThresholdOf(p.experience.value).AtLeast?
                                 && HasExperience(c, ThresholdOf(p.experience.value).years))
    && (Truthy(p.status) ==> StatusName(c.status) == p.status.value)
    && (Truthy(p.source) ==> SourceName(c.source) == p.source.value)
  }

  /** A `NaN` bound cannot be cast to a Number, so the store refuses the whole query. */
  predicate CastFails(query: Query) {
    query.minExperience == Some(NotANumber)
  }

  /** Whether a stored candidate matches a query: every condition it holds, ANDed. */
  predicate Matches(query: Query, c: Candidate, textMatch: TextMatch) {
    && c.createdBy == query.owner
    && (query.text.Some? ==> textMatch(query.text.value, TextIndexed(c)))
    && (query.skillsIn.Some? ==> SharesSkill(c, query.skillsIn.value))
    && (query.locationPattern.Some? ==> LocationMatches(c, query.locationPattern.value))
    && (match query.minExperience
        case None => true
        case Some(AtLeast(n)) => HasExperience(c, n)
        case Some(NotANumber) => false)
    && (query.status.Some? ==> StatusName(c.status) == query.status.value)
    && (query.source.Some? ==> SourceName(c.source) == query.source.value)
  }

  /**
   * The handler's query building: start from the owner and add one condition
   * per truthy parameter. A candidate matches the result exactly when the caller
   * owns it and it passes every filter the parameters ask for; the store refuses
   * the query exactly when `experience` is given but not a number.
   */
  method BuildQuery(caller: UserId, p: SearchParams) returns (query: Query)
    ensures query.owner == caller
    ensures CastFails(query) <==> Truthy(p.experience) && ThresholdOf(p.experience.value) == NotANumber
    ensures forall c, textMatch :: Matches(query, c, textMatch) <==> c.createdBy == caller && Filters(p, c, textMatch)
  {
    query := Query(caller, None, None, None, None, None, None);
    if Truthy(p.q) {
      query := query.(text := p.q);
    }
    if Truthy(p.skills) {
      query := query.(skillsIn := Some(SkillList(p.skills.value)));
    }
    if Truthy(p.location) {
      query := query.(locationPattern := p.location);
    }
    if Truthy(p.experience) {
      query := query.(minExperience := Some(ThresholdOf(p.experience.value)));
    }
    if Truthy(p.status) {
      query := query.(status := p.status);
    }
    if Truthy(p.source) {
      query := query.(source := p.source);
    }
    QueryMeansFilters(caller, p, query);
  }

  /** A query holding exactly the conditions of the truthy parameters matches what the filters state. */
  lemma QueryMeansFilters(caller: UserId, p: SearchParams, query: Query)
    requires query.owner == caller
    requires query.text == (if Truthy(p.q) then p.q else None)
    requires query.skillsIn == (if Truthy(p.skills) then Some(SkillList(p.skills.value)) else None)
    requires query.locationPattern == (if Truthy(p.location) then p.location else None)
    requires query.minExperience == (if Truthy(p.experience) then Some(ThresholdOf(p.experience.value)) else None)
    requires query.status == (if Truthy(p.status) then p.status else None)
    requires query.source == (if Truthy(p.source) then p.source else None)
    ensures forall c, textMatch :: Matches(query, c, textMatch) <==> c.createdBy == caller && Filters(p, c, textMatch)
  {
    forall c, textMatch
      ensures Matches(query, c, textMatch) <==> c.createdBy == caller && Filters(p, c, textMatch)
    {
      if Truthy(p.experience) {
        match ThresholdOf(p.experience.value)
        case AtLeast(n) =>
        case NotANumber =>
      }
    }
  }

  // ---------------------------------------------------------------------------
  // Properties of the filters
  // ---------------------------------------------------------------------------

  /** Whatever the parameters, a query only ever matches the caller's own candidates. */
  lemma OnlyOwnCandidates(query: Query, c: Candidate, textMatch: TextMatch)
    requires Matches(query, c, textMatch)
    ensures c.createdBy == query.owner
  {
  }

  /** With no truthy filter parameter, every candidate passes: the search is the caller's whole list. */
  lemma NoFiltersAdmitAll(p: SearchParams, c: Candidate, textMatch: TextMatch)
    requires !Truthy(p.q) && !Truthy(p.skills) && !Truthy(p.location)
    requires !Truthy(p.experience) && !Truthy(p.status) && !Truthy(p.source)
    ensures Filters(p, c, textMatch)
  {
  }

  /** `p` asks for every filter `broad` asks for, with the same value, and maybe more. */
  predicate Narrows(p: SearchParams, broad: SearchParams) {
    && (Truthy(broad.q) ==> p.q == broad.q)
    && (Truthy(broad.skills) ==> p.skills == broad.skills)
    && (Truthy(broad.location) ==> p.location == broad.location)
    && (Truthy(broad.experience) ==> p.experience == broad.experience)
    && (Truthy(broad.status) ==> p.status == broad.status)
    && (Truthy(broad.source) ==> p.source == broad.source)
  }

  /** Adding filters never adds results: the filters are ANDed. */
  lemma MoreFiltersFewerResults(p: SearchParams, broad: SearchParams, c: Candidate, textMatch: TextMatch)
    requires Narrows(p, broad)
    requires Filters(p, c, textMatch)
    ensures Filters(broad, c, textMatch)
  {
  }

  /** The location filter ignores the case of the parameter. */
  lemma LocationIgnoresCase(c: Candidate, pattern: string)
    ensures LocationMatches(c, pattern) <==> LocationMatches(c, ToLower(pattern))
  {
    ToLowerIdempotent(pattern);
  }

  /** A `status` outside the enum matches no candidate. */
  lemma UnknownStatusMatchesNothing(p: SearchParams, c: Candidate, textMatch: TextMatch)
    requires Truthy(p.status) && StatusFromName(p.status.value).None?
    ensures !Filters(p, c, textMatch)
  {
  }

  /** A `source` outside the enum matches no candidate. */
  lemma UnknownSourceMatchesNothing(p: SearchParams, c: Candidate, textMatch: TextMatch)
    requires Truthy(p.source) && SourceFromName(p.source.value).None?
    ensures !Filters(p, c, textMatch)
  {
  }

  /**
   * `experience=k` for a written-out integer `k` keeps exactly the candidates
   * whose `experienceYears` is set and at least `k`.
   */
  lemma ExperienceFilter(p: SearchParams, k: int, c: Candidate, textMatch: TextMatch)
    requires p.experience == Some(SignedDecimalText(k))
    ensures Truthy(p.experience)
    ensures Filters(p, c, textMatch) ==> c.experienceYears.Some? && c.experienceYears.value >= k
    ensures Filters(p.(experience := None), c, textMatch) && c.experienceYears.Some? && c.experienceYears.value >= k
            ==> Filters(p, c, textMatch)
  {
    ParseSignedDecimal(k, Unspecified);
    assert SignedDecimalText(k) != "" by {
      if k < 0 {
        assert SignedDecimalText(k) == "-" + DecimalText(-k);
      } else {
        assert SignedDecimalText(k) == DecimalText(k);
      }
    }
    assert ThresholdOf(p.experience.value) == AtLeast(k);
  }

  /**
   * `skills=a,b` (say `React,Go`) keeps exactly the candidates that list `a` or
   * `b`, for skills without commas or surrounding white space.
   */
  lemma SkillsEitherOf(a: string, b: string, c: Candidate)
    requires ',' !in a && ',' !in b
    requires Trim(a) == a && Trim(b) == b
    ensures SharesSkill(c, SkillList(a + [','] + b)) <==> a in c.skills || b in c.skills
  {
    SkillListOfTwo(a, b);
    var list := SkillList(a + [','] + b);
    if a in c.skills {
      assert a in list;
    }
    if b in c.skills {
      assert b in list;
    }
  }

  /** Two trimmed skills without a comma, written with a comma between them, are read back as the two. */
  lemma SkillListOfTwo(a: string, b: string)
    requires ',' !in a && ',' !in b
    requires Trim(a) == a && Trim(b) == b
    ensures SkillList(a + [','] + b) == [a, b]
  {
    SplitTwo(a, b, ',');
  }

  /** Two pieces without the separator, joined by it, split back into the two. */
  lemma SplitTwo(a: string, b: string, sep: char)
    requires sep !in a && sep !in b
    ensures Split(a + [sep] + b, sep) == [a, b]
  {
    SplitJoin([a, b], sep);
    assert Join([a, b], sep) == a + [sep] + b by {
      assert Join([b], sep) == b;
    }
  }

  // ---------------------------------------------------------------------------
  // Selection and order
  // ---------------------------------------------------------------------------

  /** The matching candidates, in the order they are stored. */
  function Select(cs: seq<Candidate>, query: Query, textMatch: TextMatch): (r: seq<Candidate>)
    ensures forall c :: c in r <==> c in cs && Matches(query, c, textMatch)
    ensures multiset(r) <= multiset(cs)
    ensures |r| <= |cs|
  {
    if cs == [] then []
    else
      var rest := Select(cs[1..], query, textMatch);
      assert cs == [cs[0]] + cs[1..];
      if Matches(query, cs[0], textMatch) then [cs[0]] + rest else rest
  }

  /** Newest first: `createdAt` never increases along the sequence. */
  predicate NewestFirst(s: seq<Candidate>) {
    forall i, j :: 0 <= i < j < |s| ==> s[i].createdAt >= s[j].createdAt
  }

  /** Puts `c` before the first candidate that is not newer than it. */
  function Insert(c: Candidate, s: seq<Candidate>): (r: seq<Candidate>)
    requires NewestFirst(s)
    ensures NewestFirst(r)
    ensures multiset(r) == multiset(s) + multiset{c}
    ensures |r| == |s| + 1
  {
    if s == [] || c.createdAt >= s[0].createdAt then
      [c] + s
    else
      var rest := Insert(c, s[1..]);
      assert s == [s[0]] + s[1..];
      InsertBelowHead(c, s, rest);
      [s[0]] + rest
  }

  /** What `Insert` puts after the head of `s` is no newer than that head. */
  lemma InsertBelowHead(c: Candidate, s: seq<Candidate>, rest: seq<Candidate>)
    requires NewestFirst(s) && s != [] && c.createdAt < s[0].createdAt
    requires multiset(rest) == multiset(s[1..]) + multiset{c}
    ensures forall i :: 0 <= i < |rest| ==> rest[i].createdAt <= s[0].createdAt
  {
    forall i | 0 <= i < |rest|
      ensures rest[i].createdAt <= s[0].createdAt
    {
      assert rest[i] in multiset(rest);
      if rest[i] != c {
        assert rest[i] in multiset(s[1..]);
        var j :| 0 <= j < |s[1..]| && s[1..][j] == rest[i];
        assert s[j + 1] == rest[i];
      }
    }
  }

  /**
   * `.sort({createdAt: -1})`: the same candidates, newest first; among equal
   * creation times the stored order is kept.
   */
  function SortNewestFirst(s: seq<Candidate>): (r: seq<Candidate>)
    ensures NewestFirst(r)
    ensures multiset(r) == multiset(s)
    ensures |r| == |s|
  {
    if s == [] then []
    else
      assert s == [s[0]] + s[1..];
      Insert(s[0], SortNewestFirst(s[1..]))
  }

  /** Candidates already newest first come back unchanged. */
  lemma {:induction false} SortKeepsSorted(s: seq<Candidate>)
    requires NewestFirst(s)
    ensures SortNewestFirst(s) == s
  {
    if s != [] {
      TailNewestFirst(s);
      SortKeepsSorted(s[1..]);
      InsertAtFront(s[0], s[1..]);
      assert s == [s[0]] + s[1..];
    }
  }

  lemma TailNewestFirst(s: seq<Candidate>)
    requires s != [] && NewestFirst(s)
    ensures NewestFirst(s[1..])
  {
    var tail := s[1..];
    forall i, j | 0 <= i < j < |tail|
      ensures tail[i].createdAt >= tail[j].createdAt
    {
      assert tail[i] == s[i + 1] && tail[j] == s[j + 1];
    }
  }

  lemma InsertAtFront(c: Candidate, s: seq<Candidate>)
    requires NewestFirst(s) && (s == [] || c.createdAt >= s[0].createdAt)
    ensures Insert(c, s) == [c] + s
  {
  }

  /** Sorting twice is sorting once. */
  lemma SortIdempotent(s: seq<Candidate>)
    ensures SortNewestFirst(SortNewestFirst(s)) == SortNewestFirst(s)
  {
    SortKeepsSorted(SortNewestFirst(s));
  }
}
