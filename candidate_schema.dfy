/**
 * The Candidate document of backend/models/Candidate.js: its fields, the
 * required/match/enum validators and defaults Mongoose applies on create and on
 * a validated update, and the set of fields covered by the text index.
 */
module CandidateSchema {
  import opened Basics
  import opened JsText

  /** The text of a document id (a Mongo ObjectId). */
  type Id = string

  /** The id of a user, the owner of a candidate. */
  type UserId = string

  predicate IsHexChar(c: char) {
    '0' <= c <= '9' || 'a' <= c <= 'f' || 'A' <= c <= 'F'
  }

  /** A route parameter Mongoose can cast to an ObjectId: 24 hexadecimal digits. */
  predicate IsObjectIdText(s: string) {
    |s| == 24 && forall i :: 0 <= i < |s| ==> IsHexChar(s[i])
  }

  /** The canonical text of an ObjectId: 24 lower-case hexadecimal digits. */
  predicate IsCanonicalId(s: string) {
    |s| == 24 && forall i :: 0 <= i < |s| ==> '0' <= s[i] <= '9' || 'a' <= s[i] <= 'f'
  }

  /** The ObjectId that an id parameter casts to, in canonical form. */
  function CanonicalId(s: string): (r: Id)
    requires IsObjectIdText(s)
    ensures IsCanonicalId(r)
    ensures IsCanonicalId(s) ==> r == s
    ensures |r| == |s| && forall i :: 0 <= i < |s| ==> r[i] == LowerChar(s[i])
  {
    ToLower(s)
  }

  datatype Status = New | Contacted | Interviewing | Offered | Hired | Rejected

  datatype Source = LinkedIn | Indeed | Referral | Direct | Other

  const DefaultStatus: Status := New
  const DefaultSource: Source := Other

  function StatusName(s: Status): string {
    match s
    case New => "new"
    case Contacted => "contacted"
    case Interviewing => "interviewing"
    case Offered => "offered"
    case Hired => "hired"
    case Rejected => "rejected"
  }

  function SourceName(s: Source): string {
    match s
    case LinkedIn => "linkedin"
    case Indeed => "indeed"
    case Referral => "referral"
    case Direct => "direct"
    case Other => "other"
  }

  /** The enum check on `status`: the value it names, if it is one of the six. */
  function StatusFromName(name: string): (r: Option<Status>)
    ensures r.Some? ==> StatusName(r.value) == name
    ensures r.None? ==> forall s :: StatusName(s) != name
  {
    if name == "new" then Some(New)
    else if name == "contacted" then Some(Contacted)
    else if name == "interviewing" then Some(Interviewing)
    else if name == "offered" then Some(Offered)
    else if name == "hired" then Some(Hired)
    else if name == "rejected" then Some(Rejected)
    else None
  }

  /** The enum check on `source`: the value it names, if it is one of the five. */
  function SourceFromName(name: string): (r: Option<Source>)
    ensures r.Some? ==> SourceName(r.value) == name
    ensures r.None? ==> forall s :: SourceName(s) != name
  {
    if name == "linkedin" then Some(LinkedIn)
    else if name == "indeed" then Some(Indeed)
    else if name == "referral" then Some(Referral)
    else if name == "direct" then Some(Direct)
    else if name == "other" then Some(Other)
    else None
  }

  /** Each status is accepted by the enum check under its own name, and only under it. */
  lemma StatusNameRoundTrip(s: Status)
    ensures StatusFromName(StatusName(s)) == Some(s)
  {
  }

  /** Each source is accepted by the enum check under its own name, and only under it. */
  lemma SourceNameRoundTrip(s: Source)
    ensures SourceFromName(SourceName(s)) == Some(s)
  {
  }

  datatype EducationEntry = EducationEntry(
    institution: Option<string>, degree: Option<string>, field: Option<string>,
    startDate: Option<int>, endDate: Option<int>, current: Option<bool>)

  datatype ExperienceEntry = ExperienceEntry(
    company: Option<string>, position: Option<string>, description: Option<string>,
    startDate: Option<int>, endDate: Option<int>, current: Option<bool>)

  /** A stored candidate document; dates are milliseconds since the epoch. */
  datatype Candidate = Candidate(
    id: Id,
    firstName: string,
    lastName: string,
    email: string,
    phone: Option<string>,
    location: Option<string>,
    currentPosition: Option<string>,
    currentCompany: Option<string>,
    skills: seq<string>,
    experienceYears: Option<int>,
    resumeUrl: Option<string>,
    linkedInProfile: Option<string>,
    githubProfile: Option<string>,
    portfolio: Option<string>,
    education: seq<EducationEntry>,
    experience: seq<ExperienceEntry>,
    notes: Option<string>,
    status: Status,
    source: Source,
    createdBy: UserId,
    createdAt: int,
    updatedAt: int)

  /** A request body: every field may be absent; `status` and `source` are unchecked text. */
  datatype CandidateBody = CandidateBody(
    firstName: Option<string>,
    lastName: Option<string>,
    email: Option<string>,
    phone: Option<string>,
    location: Option<string>,
    currentPosition: Option<string>,
    currentCompany: Option<string>,
    skills: Option<seq<string>>,
    experienceYears: Option<int>,
    resumeUrl: Option<string>,
    linkedInProfile: Option<string>,
    githubProfile: Option<string>,
    portfolio: Option<string>,
    education: Option<seq<EducationEntry>>,
    experience: Option<seq<ExperienceEntry>>,
    notes: Option<string>,
    status: Option<string>,
    source: Option<string>,
    createdBy: Option<UserId>)

  /** One validator failure: the path it concerns and its message. */
  datatype FieldError = FieldError(path: string, message: string)

  const FirstNameRequired := FieldError("firstName", "Please add a first name")
  const LastNameRequired := FieldError("lastName", "Please add a last name")
  const EmailRequired := FieldError("email", "Please add an email")
  const EmailInvalid := FieldError("email", "Please add a valid email")

  /** Mongoose's default message for a value outside an enum. */
  function EnumError(path: string, value: string): FieldError {
    FieldError(path, "`" + value + "` is not a valid enum value for path `" + path + "`.")
  }

  // ---------------------------------------------------------------------------
  // The email pattern ^\w+([.-]?\w+)*@\w+([.-]?\w+)*(\.\w{2,3})+$
  // ---------------------------------------------------------------------------

  /** `\w`: an ASCII letter, digit or underscore. */
  predicate IsWordChar(c: char) {
    'a' <= c <= 'z' || 'A' <= c <= 'Z' || '0' <= c <= '9' || c == '_'
  }

  predicate IsSeparator(c: char) {
    c == '.' || c == '-'
  }

  /** `\w+([.-]?\w+)*`: word characters with single dots or dashes between them. */
  predicate IsWordRun(s: string) {
    && |s| > 0
    && IsWordChar(s[0])
    && IsWordChar(s[|s| - 1])
    && (forall i :: 0 <= i < |s| ==> IsWordChar(s[i]) || IsSeparator(s[i]))
    && (forall i :: 0 <= i < |s| - 1 ==> IsSeparator(s[i]) ==> IsWordChar(s[i + 1]))
  }

  /** `(\.\w{2,3})+`: one or more labels of two or three word characters, each after a dot. */
  predicate IsLabelChain(s: string)
    decreases |s|
  {
    && |s| >= 3 && s[0] == '.' && IsWordChar(s[1]) && IsWordChar(s[2])
    && (|s| == 3 || IsLabelChain(s[3..]) || (IsWordChar(s[3]) && (|s| == 4 || IsLabelChain(s[4..]))))
  }

  /** The part after `@`: a word run followed by a chain of short labels. */
  predicate IsDomain(d: string) {
    exists k :: 0 < k < |d| && IsWordRun(d[..k]) && IsLabelChain(d[k..])
  }

  /** The email pattern of the schema's `match` validator. */
  predicate EmailShape(s: string) {
    exists at :: 0 <= at < |s| && s[at] == '@' && IsWordRun(s[..at]) && IsDomain(s[at + 1..])
  }

  /** A label chain holds no `@`. */
  lemma {:induction false} LabelChainHasNoAt(s: string)
    requires IsLabelChain(s)
    ensures '@' !in s
    decreases |s|
  {
    if |s| > 3 && IsLabelChain(s[3..]) {
      LabelChainHasNoAt(s[3..]);
      assert s == s[..3] + s[3..];
    } else if |s| > 4 {
      LabelChainHasNoAt(s[4..]);
      assert s == s[..4] + s[4..];
    }
  }

  /** A valid email holds exactly one `@`, with a word run before it. */
  lemma EmailHasOneAt(s: string)
    requires EmailShape(s)
    ensures exists at :: 0 <= at < |s| && s[at] == '@' && IsWordRun(s[..at]) && '@' !in s[at + 1..]
  {
    var at :| 0 <= at < |s| && s[at] == '@' && IsWordRun(s[..at]) && IsDomain(s[at + 1..]);
    DomainHasNoAt(s[at + 1..]);
  }

  /** A word run holds no `@`. */
  lemma WordRunHasNoAt(r: string)
    requires IsWordRun(r)
    ensures '@' !in r
  {
    forall i | 0 <= i < |r|
      ensures r[i] != '@'
    {
      assert IsWordChar(r[i]) || IsSeparator(r[i]);
    }
  }

  /** The domain part holds no `@`. */
  lemma DomainHasNoAt(d: string)
    requires IsDomain(d)
    ensures '@' !in d
  {
    var k :| 0 < k < |d| && IsWordRun(d[..k]) && IsLabelChain(d[k..]);
    WordRunHasNoAt(d[..k]);
    LabelChainHasNoAt(d[k..]);
    assert d == d[..k] + d[k..];
  }

  /** A label chain ends with a word character, so a valid email cannot end with `.` or `-`. */
  lemma {:induction false} LabelChainEndsWithWordChar(s: string)
    requires IsLabelChain(s)
    ensures IsWordChar(s[|s| - 1])
    decreases |s|
  {
    if |s| > 3 && IsLabelChain(s[3..]) {
      LabelChainEndsWithWordChar(s[3..]);
      assert s[3..][|s| - 4] == s[|s| - 1];
    } else if |s| > 4 {
      LabelChainEndsWithWordChar(s[4..]);
      assert s[4..][|s| - 5] == s[|s| - 1];
    }
  }

  /** A concrete address the pattern accepts: `jo.li@ex-1.co.uk`. */
  lemma EmailShapeExample()
    ensures EmailShape("jo.li" + "@" + "ex-1.co.uk")
  {
    ExampleDomain();
    ExampleLocalPart();
    EmailOfParts("jo.li", "ex-1.co.uk");
  }

  /** A word run, an `@` and a domain make an address the pattern accepts. */
  lemma EmailOfParts(local: string, domain: string)
    requires IsWordRun(local) && IsDomain(domain)
    ensures EmailShape(local + ['@'] + domain)
  {
    var s := local + ['@'] + domain;
    var at := |local|;
    assert s[..at] == local && s[at] == '@' && s[at + 1..] == domain;
  }

  lemma ExampleDomain()
    ensures IsDomain("ex-1.co.uk")
  {
    var d := "ex-1.co.uk";
    assert d[4..] == ".co.uk" && d[4..][3..] == ".uk";
    assert IsLabelChain(d[4..][3..]);
    assert IsLabelChain(d[4..]);
    assert d[..4] == "ex-1" && IsWordRun(d[..4]);
  }

  lemma ExampleLocalPart()
    ensures IsWordRun("jo.li")
  {
  }

  /** Addresses the pattern refuses: no `@`, and a top-level label of one character. */
  lemma EmailShapeCounterExamples()
    ensures !EmailShape("jo.li")
    ensures !EmailShape("jo@ex.c")
  {
    var t := "jo@ex.c";
    forall at | 0 <= at < |t| && t[at] == '@'
      ensures !IsDomain(t[at + 1..])
    {
      assert at == 2;
      var d := t[3..];
      assert d == "ex.c";
      forall k | 0 < k < |d|
        ensures !IsLabelChain(d[k..])
      {
        assert |d[k..]| < 3 || d[k] != '.';
      }
    }
  }

  // ---------------------------------------------------------------------------
  // Validation
  // ---------------------------------------------------------------------------

  /** Mongoose's `required` check on a string path: present and not empty. */
  predicate Present(v: Option<string>) {
    v.Some? && |v.value| > 0
  }

  function FirstNameErrors(v: Option<string>): seq<FieldError> {
    if Present(v) then [] else [FirstNameRequired]
  }

  function LastNameErrors(v: Option<string>): seq<FieldError> {
    if Present(v) then [] else [LastNameRequired]
  }

  /** `required` is checked first; the pattern only applies to a non-empty value. */
  function EmailErrors(v: Option<string>): seq<FieldError> {
    if !Present(v) then [EmailRequired]
    else if !EmailShape(v.value) then [EmailInvalid]
    else []
  }

  /** An absent `status` takes the default; a given one must be in the enum. */
  function StatusErrors(v: Option<string>): seq<FieldError> {
    match v
    case None => []
    case Some(name) => if StatusFromName(name).Some? then [] else [EnumError("status", name)]
  }

  function SourceErrors(v: Option<string>): seq<FieldError> {
    match v
    case None => []
    case Some(name) => if SourceFromName(name).Some? then [] else [EnumError("source", name)]
  }

  /** The validator failures of a new document, in schema order. */
  function CreateErrors(b: CandidateBody): seq<FieldError> {
    FirstNameErrors(b.firstName) + LastNameErrors(b.lastName) + EmailErrors(b.email)
    + StatusErrors(b.status) + SourceErrors(b.source)
  }

  /**
   * The validator failures of an update: only paths the update sets are
   * validated, so an update never fails where a create of the same body would
   * pass, and with every required path given it fails exactly as the create.
   */
  function UpdateErrors(b: CandidateBody): (r: seq<FieldError>)
    ensures forall e :: e in r ==> e in CreateErrors(b)
    ensures b.firstName.Some? && b.lastName.Some? && b.email.Some? ==> r == CreateErrors(b)
  {
    (if b.firstName.Some? then FirstNameErrors(b.firstName) else [])
    + (if b.lastName.Some? then LastNameErrors(b.lastName) else [])
    + (if b.email.Some? then EmailErrors(b.email) else [])
    + StatusErrors(b.status) + SourceErrors(b.source)
  }

  /** The invariant every stored candidate satisfies. */
  predicate IsValid(c: Candidate) {
    c.firstName != "" && c.lastName != "" && c.email != "" && EmailShape(c.email)
  }

  function StatusOrDefault(v: Option<string>): Status {
    match v
    case Some(name) => (match StatusFromName(name) case Some(s) => s case None => DefaultStatus)
    case None => DefaultStatus
  }

  function SourceOrDefault(v: Option<string>): Source {
    match v
    case Some(name) => (match SourceFromName(name) case Some(s) => s case None => DefaultSource)
    case None => DefaultSource
  }

  /** The given value, or `default` when absent; for an update, absent paths keep their old value. */
  function OrElse<T>(v: Option<T>, default: T): T {
    match v
    case Some(x) => x
    case None => default
  }

  /**
   * `Candidate.create(body)`: validate, then build the document with its id, the
   * owner, and both timestamps set to `now`; absent arrays default to empty and
   * absent `status`/`source` to their defaults.
   */
  function NewCandidate(id: Id, b: CandidateBody, owner: UserId, now: int): (r: Result<Candidate, seq<FieldError>>)
    ensures r.Failure? ==> r.error == CreateErrors(b) && r.error != []
    ensures r.Success? ==> CreateErrors(b) == [] && IsValid(r.value)
    ensures r.Success? ==> r.value.id == id && r.value.createdBy == owner
                           && r.value.createdAt == now && r.value.updatedAt == now
  {
    if CreateErrors(b) != [] then Failure(CreateErrors(b))
    else
      Success(Candidate(
        id := id,
        firstName := b.firstName.value,
        lastName := b.lastName.value,
        email := b.email.value,
        phone := b.phone,
        location := b.location,
        currentPosition := b.currentPosition,
        currentCompany := b.currentCompany,
        skills := OrElse(b.skills, []),
        experienceYears := b.experienceYears,
        resumeUrl := b.resumeUrl,
        linkedInProfile := b.linkedInProfile,
        githubProfile := b.githubProfile,
        portfolio := b.portfolio,
        education := OrElse(b.education, []),
        experience := OrElse(b.experience, []),
        notes := b.notes,
        status := StatusOrDefault(b.status),
        source := SourceOrDefault(b.source),
        createdBy := owner,
        createdAt := now,
        updatedAt := now))
  }

  /** The document with the body's paths set and `updatedAt` stamped; nothing else changes. */
  function Patched(c: Candidate, b: CandidateBody, now: int): Candidate {
    c.(
      firstName := OrElse(b.firstName, c.firstName),
      lastName := OrElse(b.lastName, c.lastName),
      email := OrElse(b.email, c.email),
      phone := if b.phone.Some? then b.phone else c.phone,
      location := if b.location.Some? then b.location else c.location,
      currentPosition := if b.currentPosition.Some? then b.currentPosition else c.currentPosition,
      currentCompany := if b.currentCompany.Some? then b.currentCompany else c.currentCompany,
      skills := OrElse(b.skills, c.skills),
      experienceYears := if b.experienceYears.Some? then b.experienceYears else c.experienceYears,
      resumeUrl := if b.resumeUrl.Some? then b.resumeUrl else c.resumeUrl,
      linkedInProfile := if b.linkedInProfile.Some? then b.linkedInProfile else c.linkedInProfile,
      githubProfile := if b.githubProfile.Some? then b.githubProfile else c.githubProfile,
      portfolio := if b.portfolio.Some? then b.portfolio else c.portfolio,
      education := OrElse(b.education, c.education),
      experience := OrElse(b.experience, c.experience),
      notes := if b.notes.Some? then b.notes else c.notes,
      status := if b.status.Some? then StatusOrDefault(b.status) else c.status,
      source := if b.source.Some? then SourceOrDefault(b.source) else c.source,
      createdBy := OrElse(b.createdBy, c.createdBy),
      updatedAt := now)
  }

  /**
   * `findByIdAndUpdate(id, body, {runValidators: true})`: validate the given paths,
   * then set them and stamp `updatedAt`.
   */
  function ApplyUpdate(c: Candidate, b: CandidateBody, now: int): (r: Result<Candidate, seq<FieldError>>)
    ensures r.Failure? ==> r.error == UpdateErrors(b) && r.error != []
    ensures r.Success? ==> UpdateErrors(b) == []
    ensures r.Success? ==> r.value.id == c.id && r.value.createdAt == c.createdAt && r.value.updatedAt == now
  {
    if UpdateErrors(b) != [] then Failure(UpdateErrors(b)) else Success(Patched(c, b, now))
  }

  /** The body a client would send to reproduce a stored candidate. */
  function BodyOf(c: Candidate): CandidateBody {
    CandidateBody(
      firstName := Some(c.firstName),
      lastName := Some(c.lastName),
      email := Some(c.email),
      phone := c.phone,
      location := c.location,
      currentPosition := c.currentPosition,
      currentCompany := c.currentCompany,
      skills := Some(c.skills),
      experienceYears := c.experienceYears,
      resumeUrl := c.resumeUrl,
      linkedInProfile := c.linkedInProfile,
      githubProfile := c.githubProfile,
      portfolio := c.portfolio,
      education := Some(c.education),
      experience := Some(c.experience),
      notes := c.notes,
      status := Some(StatusName(c.status)),
      source := Some(SourceName(c.source)),
      createdBy := Some(c.createdBy))
  }

  /**
   * A create succeeds exactly when the three required fields are present and
   * non-empty, the email has the pattern's shape, and any given status and
   * source are enum values.
   */
  lemma CreateSucceedsIff(b: CandidateBody)
    ensures CreateErrors(b) == [] <==>
      && Present(b.firstName) && Present(b.lastName) && Present(b.email)
      && EmailShape(b.email.value)
      && (b.status.Some? ==> StatusFromName(b.status.value).Some?)
      && (b.source.Some? ==> SourceFromName(b.source.value).Some?)
  {
  }

  /**
   * An update passes exactly when every given name and email is non-empty, a
   * given email has the pattern's shape, and a given status or source is an
   * enum value: a path the update leaves out is not validated.
   */
  lemma UpdateSucceedsIff(b: CandidateBody)
    ensures UpdateErrors(b) == [] <==>
      && (b.firstName.Some? ==> Present(b.firstName))
      && (b.lastName.Some? ==> Present(b.lastName))
      && (b.email.Some? ==> Present(b.email) && EmailShape(b.email.value))
      && (b.status.Some? ==> StatusFromName(b.status.value).Some?)
      && (b.source.Some? ==> SourceFromName(b.source.value).Some?)
  {
  }

  /** Omitting a required field is reported with that field's own message. */
  lemma MissingRequiredReported(b: CandidateBody)
    ensures FirstNameRequired in CreateErrors(b) <==> !Present(b.firstName)
    ensures LastNameRequired in CreateErrors(b) <==> !Present(b.lastName)
    ensures EmailRequired in CreateErrors(b) <==> !Present(b.email)
    ensures EmailInvalid in CreateErrors(b) <==> Present(b.email) && !EmailShape(b.email.value)
  {
    var required := FirstNameErrors(b.firstName) + LastNameErrors(b.lastName) + EmailErrors(b.email);
    var enums := StatusErrors(b.status) + SourceErrors(b.source);
    assert CreateErrors(b) == required + enums;
    EnumErrorsPaths(b);
    assert FirstNameRequired.path == "firstName" && LastNameRequired.path == "lastName";
    assert EmailRequired.path == "email" && EmailInvalid.path == "email";
  }

  /** Enum failures concern `status` or `source` only. */
  lemma EnumErrorsPaths(b: CandidateBody)
    ensures forall x :: x in StatusErrors(b.status) + SourceErrors(b.source) ==> x.path == "status" || x.path == "source"
  {
  }

  /** Absent `status` and `source` take the defaults `new` and `other`. */
  lemma CreateDefaults(id: Id, b: CandidateBody, owner: UserId, now: int)
    requires NewCandidate(id, b, owner, now).Success?
    ensures b.status.None? ==> NewCandidate(id, b, owner, now).value.status == New
    ensures b.source.None? ==> NewCandidate(id, b, owner, now).value.source == Other
    ensures b.status.Some? ==> StatusName(NewCandidate(id, b, owner, now).value.status) == b.status.value
    ensures b.source.Some? ==> SourceName(NewCandidate(id, b, owner, now).value.source) == b.source.value
  {
  }

  /**
   * The owner is the one the controller passes, whatever the body says: a body
   * naming another owner yields the same document.
   */
  lemma CreateIgnoresBodyOwner(id: Id, b: CandidateBody, owner: UserId, other: UserId, now: int)
    ensures NewCandidate(id, b, owner, now) == NewCandidate(id, b.(createdBy := Some(other)), owner, now)
  {
  }

  /** Re-creating a stored valid candidate from its own body gives it back. */
  lemma CreateFromBodyOf(c: Candidate)
    requires IsValid(c) && c.updatedAt == c.createdAt
    ensures NewCandidate(c.id, BodyOf(c), c.createdBy, c.createdAt) == Success(c)
  {
    StatusNameRoundTrip(c.status);
    SourceNameRoundTrip(c.source);
  }

  /** A successful update of a valid candidate leaves a valid candidate. */
  lemma UpdatePreservesValidity(c: Candidate, b: CandidateBody, now: int)
    requires IsValid(c)
    requires ApplyUpdate(c, b, now).Success?
    ensures IsValid(ApplyUpdate(c, b, now).value)
  {
  }

  /**
   * An update sets exactly the paths the body gives: each of them takes the
   * body's value, and each absent one keeps its old value.
   */
  lemma UpdateSetsGivenPaths(c: Candidate, b: CandidateBody, now: int)
    requires ApplyUpdate(c, b, now).Success?
    ensures var r := ApplyUpdate(c, b, now).value;
      && r.firstName == OrElse(b.firstName, c.firstName)
      && r.lastName == OrElse(b.lastName, c.lastName)
      && r.email == OrElse(b.email, c.email)
      && r.skills == OrElse(b.skills, c.skills)
      && r.phone == (if b.phone.Some? then b.phone else c.phone)
      && r.location == (if b.location.Some? then b.location else c.location)
      && r.currentPosition == (if b.currentPosition.Some? then b.currentPosition else c.currentPosition)
      && r.currentCompany == (if b.currentCompany.Some? then b.currentCompany else c.currentCompany)
      && r.experienceYears == (if b.experienceYears.Some? then b.experienceYears else c.experienceYears)
      && r.resumeUrl == (if b.resumeUrl.Some? then b.resumeUrl else c.resumeUrl)
      && r.linkedInProfile == (if b.linkedInProfile.Some? then b.linkedInProfile else c.linkedInProfile)
      && r.githubProfile == (if b.githubProfile.Some? then b.githubProfile else c.githubProfile)
      && r.portfolio == (if b.portfolio.Some? then b.portfolio else c.portfolio)
      && r.education == OrElse(b.education, c.education)
      && r.experience == OrElse(b.experience, c.experience)
      && r.notes == (if b.notes.Some? then b.notes else c.notes)
      && (b.status.None? ==> r.status == c.status)
      && (b.status.Some? ==> StatusName(r.status) == b.status.value)
      && (b.source.None? ==> r.source == c.source)
      && (b.source.Some? ==> SourceName(r.source) == b.source.value)
      && r.createdBy == OrElse(b.createdBy, c.createdBy)
  {
  }

  /** Updating a valid candidate with its own body changes nothing but `updatedAt`. */
  lemma UpdateWithOwnBody(c: Candidate, now: int)
    requires IsValid(c)
    ensures ApplyUpdate(c, BodyOf(c), now) == Success(c.(updatedAt := now))
  {
    StatusNameRoundTrip(c.status);
    SourceNameRoundTrip(c.source);
  }

  // ---------------------------------------------------------------------------
  // The text index
  // ---------------------------------------------------------------------------

  function OptionalText(v: Option<string>): seq<string> {
    match v
    case Some(s) => [s]
    case None => []
  }

  /**
   * The strings the text index covers: firstName, lastName, currentPosition,
   * currentCompany, every skill, and location.
   */
  function TextIndexed(c: Candidate): seq<string> {
    [c.firstName, c.lastName] + OptionalText(c.currentPosition) + OptionalText(c.currentCompany)
    + c.skills + OptionalText(c.location)
  }

  /**
   * Only the six indexed fields feed the text index: two candidates that agree on
   * them are indexed alike, whatever their email, notes or other fields.
   */
  lemma TextIndexedOnlyReadsIndexedFields(c: Candidate, d: Candidate)
    requires c.firstName == d.firstName && c.lastName == d.lastName
    requires c.currentPosition == d.currentPosition && c.currentCompany == d.currentCompany
    requires c.skills == d.skills && c.location == d.location
    ensures TextIndexed(c) == TextIndexed(d)
  {
  }

  /** Every indexed string comes from one of the six indexed fields. */
  lemma TextIndexedComesFromIndexedFields(c: Candidate, s: string)
    requires s in TextIndexed(c)
    ensures || s == c.firstName || s == c.lastName || s in c.skills
            || Some(s) == c.currentPosition || Some(s) == c.currentCompany || Some(s) == c.location
  {
  }

  /** Conversely, every indexed field feeds the text index: the names, each skill, and each present optional field. */
  lemma TextIndexedCoversIndexedFields(c: Candidate)
    ensures c.firstName in TextIndexed(c) && c.lastName in TextIndexed(c)
    ensures forall s :: s in c.skills ==> s in TextIndexed(c)
    ensures c.currentPosition.Some? ==> c.currentPosition.value in TextIndexed(c)
    ensures c.currentCompany.Some? ==> c.currentCompany.value in TextIndexed(c)
    ensures c.location.Some? ==> c.location.value in TextIndexed(c)
  {
  }
}
