# Candidate service of a recruitment tracker, modelled in Dafny

The backend of this recruitment tracker keeps candidate records for each
recruiter. A recruiter may only see and change the candidates they created.
This project models its three core pieces:

- **The candidate controller** (`backend/controllers/candidates.js`):
  - listing with `page`/`limit` pagination;
  - get, update and delete of one record, each behind a not-found check and then an ownership check;
  - create, which stamps the caller as the owner;
  - search, which ANDs optional filters with the owner condition, sorts newest first and paginates;
  - the resume upload: extension filter, 5 MiB limit, stored file name and the response for each outcome.
- **The Candidate schema** (`backend/models/Candidate.js`): required fields, the email pattern, the `status`/`source` enumerations and their defaults, and the fields under the text index.
- **The error middleware** (`backend/middleware/error.js`): a first-match chain from an error to an HTTP status and message.

Modules, one per concern:

| module | file | contents |
|---|---|---|
| `Basics` | basics.dfy | `Option`, `Result` |
| `JsText` | js_text.dfy | the JavaScript string built-ins the controller relies on: `trim`, `toLowerCase`, `split`, `indexOf`/`lastIndexOf`, `parseInt` with and without a radix, and decimal printing of integers |
| `CandidateSchema` | candidate_schema.dfy | the `Candidate` document, the request body, validation on create and on a validated update, defaults, the text-indexed fields |
| `Http` | http.dfy | the JSON envelope `{success, ...}` with its status code |
| `Pagination` | pagination.dfy | `parseInt(x, 10) \|\| fallback`, the skip/limit window, the `next`/`prev` descriptors |
| `ErrorHandler` | error_handler.dfy | `errorHandler` as one total function, and as a first-match table |
| `ResumeUpload` | resume_upload.dfy | `path.extname`, the file filter, multer's `.single('resume')` with its size limit, and the `uploadResume` responses |
| `SearchQuery` | search_query.dfy | the query object `searchCandidates` builds, what a candidate must satisfy to match it, and the newest-first sort |
| `CandidateController` | candidate_controller.dfy | the collection as a class `CandidateStore`, with one method per handler |

The collection is a class with two fields:

- `records`, a map from id to document;
- `order`, the ids in insertion order (the collection's natural order).

Create, update and delete are methods that change these fields. Every method keeps the invariant `Valid()`:

- the ids in `order` are distinct;
- they are exactly the keys of `records`;
- every stored document sits under its own canonical id, has an owner that is an ObjectId in canonical form (the schema's `createdBy: ObjectId, required`), and satisfies the schema's validators.

The read-only handlers are methods that change nothing. Each returns the value of a function of the stored documents, such as `ListResponse` or `SearchResponse`. Lemmas state what those functions promise.

The following are inputs to the model, not things it computes:

- the caller's id, the text the auth middleware sets as `req.user.id`. List, create and search cast it to an ObjectId: an id that does not cast gives 500, and an upper-case id is stored and matched in lower case. Get, update and delete compare it as text with the stored owner;
- the clock (`now`, in ms);
- the id the store assigns to a new document;
- the database's `$text` matcher.

### Where the code and the API's documented behaviour differ

The model follows the code in each of these places:

- **Validation failures give 500, not 400.** Every handler catches its own exceptions and answers 500 `Server Error`. The error middleware is never reached from them. So these all give 500 (`CandidateStore.CreateCandidate`, `CandidateStore.UpdateCandidate`):
  - a create or update that fails validation;
  - an id parameter that is not an ObjectId;
  - a non-ObjectId `createdBy` in an update body.
- **A disallowed file extension gives 500, not 400.** The file filter raises a plain `Error`, not a `MulterError`, so the response is 500 with the filter's message (`ResumeUpload.ExeRefused`). Oversized files do give 400.
- **`prev` follows `startIndex > 0`, not `page > 1`.** The two agree whenever the limit is positive (`Pagination.LinksForPositiveLimit`).
- **An update can change the owner.** Create overwrites `createdBy` with the caller. Update passes the body through unchanged, so a body that names another user's id hands the record over to that user (`CandidateController.UpdateCanTransferOwnership`).
- **Listing and search use different orders.** The plain listing comes back in natural (insertion) order, unsorted. Search sorts newest first.
- **A non-numeric `experience` gives 500.** If `experience` is given but `parseInt` reads no number, the `$gte: NaN` condition cannot be cast to a Number and the search answers 500 (`CandidateController.SearchAnswer`).

## Model

| member | source | states |
|---|---|---|
| JsText.TrimStart | backend/controllers/candidates.js:248 | The result is a suffix of the input that does not start with whitespace, and everything removed is whitespace. |
| JsText.TrimEnd | backend/controllers/candidates.js:248 | The result is a prefix of the input that does not end with whitespace, and everything removed is whitespace. |
| JsText.TrimIsPiece | backend/controllers/candidates.js:248 | `trim` keeps one contiguous piece of its input: a prefix of what is left once the leading whitespace is dropped. |
| JsText.TrimEndsClean | backend/controllers/candidates.js:248 | A trimmed string neither starts nor ends with whitespace. |
| JsText.TrimDropsOnlyWhitespace | backend/controllers/candidates.js:248 | Everything `trim` drops, before the kept piece and after it, is whitespace. |
| JsText.TrimIdempotent | backend/controllers/candidates.js:248 | Trimming an already trimmed skill changes nothing. |
| JsText.ToLowerHasNoUpper | backend/controllers/candidates.js:27 | Lower-casing keeps the length and leaves no upper-case ASCII letter. Each upper-case letter becomes its lower-case letter, and every other character is kept. |
| JsText.ToLowerIdempotent | backend/controllers/candidates.js:27 | Lower-casing twice is lower-casing once. |
| JsText.ContainsAt | backend/controllers/candidates.js:254 | The substring test holds exactly when the needle occurs at some position of the haystack. |
| JsText.IndexOf | backend/controllers/candidates.js:248 | The result is the first position holding the character, or none when the character does not occur. |
| JsText.LastIndexOf | backend/controllers/candidates.js:27 | The result is the last position holding the character, or none when the character does not occur. |
| JsText.Split | backend/controllers/candidates.js:248 | `split` gives at least one piece, and no piece contains the separator. |
| JsText.JoinSplit | backend/controllers/candidates.js:248 | Joining the pieces of a split with the separator gives back the original text. |
| JsText.SplitJoin | backend/controllers/candidates.js:248 | Splitting a join of separator-free pieces gives back exactly those pieces. |
| JsText.ParseParam | backend/controllers/candidates.js:53-54 | An absent query parameter parses to `NaN`. |
| JsText.ParseDecimalPrefix | backend/controllers/candidates.js:20 | `parseInt` reads the decimal text of n back as n, whatever non-digit text follows it, with or without a radix; the one exception is `0` followed by `x` or `X` without a radix, which is a hexadecimal prefix. |
| JsText.ParseIntSkipsLeadingWhitespace | backend/controllers/candidates.js:53-54 | `parseInt` skips whitespace before the number: a leading whitespace character does not change what it reads. |
| JsText.ParseNegatedDecimal | backend/controllers/candidates.js:273-274 | The text of a negative integer, a minus sign and its digits, is read by `parseInt` as that integer, with or without a radix. |
| JsText.ParseSignedDecimal | backend/controllers/candidates.js:273-274 | `parseInt` reads the decimal text of any integer, negative or not, back as that integer, with or without a radix. |
| CandidateSchema.CanonicalId | backend/controllers/candidates.js:101 | Casting a 24-hex-digit id gives a canonical id: the input lower-cased character by character, so an upper-case id casts to the same ObjectId as its lower-case form, and an id already canonical is kept. |
| CandidateSchema.StatusFromName | backend/models/Candidate.js:70-74 | The status enum check accepts exactly the six status names and yields the status with that name. |
| CandidateSchema.SourceFromName | backend/models/Candidate.js:75-79 | The source enum check accepts exactly the five source names and yields the source with that name. |
| CandidateSchema.StatusNameRoundTrip | backend/models/Candidate.js:70-74 | Every status's name passes the enum check and gives back that status. |
| CandidateSchema.SourceNameRoundTrip | backend/models/Candidate.js:75-79 | Every source's name passes the enum check and gives back that source. |
| CandidateSchema.EmailHasOneAt | backend/models/Candidate.js:16-19 | An email that matches the pattern has exactly one `@`, with a run of word characters before it. |
| CandidateSchema.EmailShapeExample | backend/models/Candidate.js:16-19 | `jo.li@ex-1.co.uk` matches the email pattern. |
| CandidateSchema.EmailShapeCounterExamples | backend/models/Candidate.js:16-19 | A text without `@` does not match, and neither does one whose last label has a single character. |
| CandidateSchema.NewCandidate | backend/models/Candidate.js:4-93 | Create fails exactly with the validators' errors, and these are never empty. On success the document is valid and has the given id, the given owner and both timestamps set to now. |
| CandidateSchema.CreateSucceedsIff | backend/models/Candidate.js:5-79 | Validation passes on create exactly when first name, last name and email are present, the email matches, and any given status or source is in its enum. |
| CandidateSchema.MissingRequiredReported | backend/models/Candidate.js:5-19 | Each required-field error is reported exactly when that field is missing. The invalid-email error is reported exactly when an email is present but does not match. |
| CandidateSchema.CreateDefaults | backend/models/Candidate.js:70-79 | An absent status becomes `new` and an absent source becomes `other`. Given ones are stored with the name supplied. |
| CandidateSchema.CreateIgnoresBodyOwner | backend/controllers/candidates.js:137-139 | The document created does not depend on any `createdBy` in the request body. |
| CandidateSchema.CreateFromBodyOf | backend/controllers/candidates.js:139 | Creating from the fields of a valid document, with its id, owner and time, gives back that same document. |
| CandidateSchema.ApplyUpdate | backend/controllers/candidates.js:176-179 | A validated update fails exactly with the errors of the paths it sets. On success it keeps the id and `createdAt` and stamps `updatedAt`. |
| CandidateSchema.UpdatePreservesValidity | backend/controllers/candidates.js:176-179 | A successful update of a valid document gives a valid document. |
| CandidateSchema.UpdateErrors | backend/models/Candidate.js:5-79 | Every error an update reports is one a create of the same body would report, and with first name, last name and email all given it reports exactly the create's errors. |
| CandidateSchema.UpdateSucceedsIff | backend/models/Candidate.js:5-79 | An update validates only the paths it sets: it passes exactly when every given name and email is non-empty, a given email matches, and a given status or source is in its enum, so a body that omits the required paths passes. |
| CandidateSchema.UpdateSetsGivenPaths | backend/controllers/candidates.js:176-179 | For every path of the document (the three names, email, phone, location, current position and company, skills, experience years, resume URL, the three profile links, education, experience, notes, status, source and `createdBy`), a path the body gives takes the body's value and a path it omits keeps the old value. |
| CandidateSchema.UpdateWithOwnBody | backend/controllers/candidates.js:176-179 | Updating a valid document with its own fields changes only `updatedAt`. |
| CandidateSchema.TextIndexedOnlyReadsIndexedFields | backend/models/Candidate.js:96-103 | Two candidates that agree on the six indexed fields are indexed alike, whatever their email or notes. |
| CandidateSchema.TextIndexedComesFromIndexedFields | backend/models/Candidate.js:96-103 | Every indexed string is the candidate's first name, last name, current position, current company, one of its skills or its location. |
| CandidateSchema.TextIndexedCoversIndexedFields | backend/models/Candidate.js:96-103 | Conversely, the first name, the last name, every skill and any current position, current company or location that is present are all indexed. |
| Pagination.PageNumber | backend/controllers/candidates.js:53 | The page number in use is never 0. |
| Pagination.PageLimit | backend/controllers/candidates.js:54 | The limit in use is never 0. |
| Pagination.Window | backend/controllers/candidates.js:59 | `skip(s).limit(l)` returns at most \|l\| records. It is empty when s is past the end and otherwise holds min(\|l\|, total - s) records, each the stored record at position s + i. |
| Pagination.Fallbacks | backend/controllers/candidates.js:53-54 | A missing, non-numeric or zero parameter falls back to page 1 and limit 10. |
| Pagination.NumbersKept | backend/controllers/candidates.js:53-54 | Any non-zero integer a client sends, negative ones included, is used as it is. |
| Pagination.LinksForPositiveLimit | backend/controllers/candidates.js:65-79 | With a positive limit, `prev` = {page-1, limit} is present exactly when page > 1, and `next` = {page+1, limit} exactly when page * limit < total. |
| Pagination.PagesPartition | backend/controllers/candidates.js:55-59 | With a positive limit, pages 1 to k taken in turn are exactly the first k * limit records, with no overlap and no gap. |
| Pagination.PastTheEnd | backend/controllers/candidates.js:65-72 | A page that starts past the last record is empty and has no `next`. |
| ErrorHandler.MessagesOf | backend/middleware/error.js:23 | The messages are the field errors' messages, one for one, in order. |
| ErrorHandler.Handle | backend/middleware/error.js:2-50 | The middleware never answers with success, and its status is 400, 401 or the fallback status. |
| ErrorHandler.HandleIsFirstMatch | backend/middleware/error.js:6-49 | The middleware answers as the first applicable rule of its ordered table, or with the fallback when no rule applies. |
| ErrorHandler.CastErrorFirst | backend/middleware/error.js:6-11 | A `CastError` gives 400 "Resource not found", whatever its code. |
| ErrorHandler.DuplicateKeyBeforeValidation | backend/middleware/error.js:14-19 | Code 11000 gives 400 "Duplicate field value entered", even on a `ValidationError`. |
| ErrorHandler.TokenErrors | backend/middleware/error.js:31-43 | `JsonWebTokenError` gives 401 "Invalid token" and `TokenExpiredError` gives 401 "Token expired". |
| ErrorHandler.OtherErrors | backend/middleware/error.js:46-49 | Any other error gives its `statusCode` if non-zero, else 500, and its message if non-empty, else "Server Error". |
| ErrorHandler.ValidationErrorOfCreate | backend/middleware/error.js:22-28 | A `ValidationError` gives 400 listing every field error's message, and a required field's message is listed exactly when that field is missing. |
| ErrorHandler.RequiredMessageListed | backend/middleware/error.js:23 | A required field's message is among the listed messages exactly when its error was reported. |
| ResumeUpload.Extname | backend/controllers/candidates.js:27 | `path.extname` is empty or a `.` followed by text with no `.` or `/`, and a non-empty extension is shorter than the path. |
| ResumeUpload.AfterLastSeparatorIsLastSegment | backend/controllers/candidates.js:20 | The text after the last `/` or `\` is a separator-free end of the name, preceded by a separator unless it is the whole name. |
| ResumeUpload.BasenameShape | backend/controllers/candidates.js:20 | The name multer reports has no `/` or `\` and is never `.` or `..`; a non-empty one is the last segment of the client's name, and a plain name is kept. |
| ResumeUpload.AcceptsFile | backend/controllers/candidates.js:25-34 | The filter accepts a name only when its lower-cased extension is `.pdf`, `.doc` or `.docx`; an accepted name is at least five characters long. |
| ResumeUpload.Receive | backend/controllers/candidates.js:37-43 | multer's `.single('resume')`, after cutting each client name to its base name, stops only with "Unexpected field", the filter's error or "File too large"; once a file is taken, it is the one kept. |
| ResumeUpload.UploadResume | backend/controllers/candidates.js:315-348 | The upload answers 200, 400 or 500, with success exactly on 200. A 200 names the stored file and its path under `/uploads/`; a 500 always carries the filter's message. |
| ResumeUpload.Named | backend/controllers/candidates.js:37-43 | The parts whose base name is not empty are exactly those among the request's parts, and there are no more of them than parts; `NamedConcat` gives their order. |
| ResumeUpload.NamedConcat | backend/controllers/candidates.js:37-43 | Keeping the named parts distributes over concatenation, so they keep their arrival order. |
| ResumeUpload.ReceiveSkipsUnnamed | backend/controllers/candidates.js:37-43 | A part whose base name is empty is drained and ignored by multer before the field check and the filter: the outcome is that of the named parts alone. |
| ResumeUpload.ReceiveSeesBaseNamesOnly | backend/controllers/candidates.js:19-43 | Two requests whose parts agree on field, size and base name, part by part, get the same outcome: the filter and the storage only see the base name. |
| ResumeUpload.SucceedsIffOneAcceptable | backend/controllers/candidates.js:37-43 | Over named parts, multer keeps a file exactly when there is one part and it is acceptable, and the file is then named `<ms>-<base name>`. |
| ResumeUpload.ExtnameOfSimpleName | backend/controllers/candidates.js:26-29 | For `base.ext`, the extension is `.ext`, and the file is accepted exactly when `ext` lower-cased is pdf, doc or docx. |
| ResumeUpload.UploadSucceedsIff | backend/controllers/candidates.js:316-346 | An upload answers 200 exactly when its named parts are one file, under `resume`, with an allowed extension and at most 5 MiB. The answer then names `<ms>-<base name>` and `/uploads/` + that name. |
| ResumeUpload.NoFile | backend/controllers/candidates.js:332-337 | A request with no part whose base name is non-empty gives 400 "Please upload a file". |
| ResumeUpload.NoBaseName | backend/controllers/candidates.js:332-337 | A name ending in `/`, or whose last segment is `.` or `..`, has no base name, so the request gives 400 "Please upload a file". |
| ResumeUpload.DirectoryDropped | backend/controllers/candidates.js:19-43 | A directory before `/` or `\` is dropped from the client's name: `dir/name` is received exactly as `name`. |
| ResumeUpload.DirectoryNotStored | backend/controllers/candidates.js:19-21 | `dir/base.pdf` within the limit is stored as `<ms>-base.pdf` under `/uploads/`. |
| ResumeUpload.SimpleNameIsItsBasename | backend/controllers/candidates.js:20 | A name `base.ext` without separators is its own base name. |
| ResumeUpload.WrongExtension | backend/controllers/candidates.js:25-34 | A first named file with a disallowed extension gives 500 with the filter's message. |
| ResumeUpload.TooLarge | backend/controllers/candidates.js:317-322 | A first named file, allowed but over 5 MiB, gives 400 "Upload error: File too large". |
| ResumeUpload.WrongField | backend/controllers/candidates.js:317-322 | A first named file under another form field gives 400 "Upload error: Unexpected field". |
| ResumeUpload.StoredFileNameParts | backend/controllers/candidates.js:20 | The stored name is the time in ms, a dash and the original name, and `parseInt` reads the time back from it. |
| ResumeUpload.DocxAccepted | backend/controllers/candidates.js:25-43 | A `.docx` of at most 5 MiB is accepted. |
| ResumeUpload.ExeRefused | backend/controllers/candidates.js:25-34 | An `.exe` is refused with 500. |
| ResumeUpload.LargePdfRefused | backend/controllers/candidates.js:40-42 | A `.pdf` over 5 MiB is refused with 400. |
| ResumeUpload.UpperCasePdfAtLimitAccepted | backend/controllers/candidates.js:27-41 | A `.PDF` of exactly 5 MiB is accepted: the extension is compared lower-cased and the limit is inclusive. |
| SearchQuery.BuildQuery | backend/controllers/candidates.js:239-270 | The query is owned by the caller. A candidate matches it exactly when the caller owns it and it passes every filter the parameters ask for. The store refuses it exactly when `experience` is given but not a number. |
| SearchQuery.QueryMeansFilters | backend/controllers/candidates.js:239-270 | A query with one condition per truthy parameter matches exactly the caller's candidates that pass every filter. |
| SearchQuery.OnlyOwnCandidates | backend/controllers/candidates.js:239 | Whatever filters are given, only the caller's candidates match. |
| SearchQuery.NoFiltersAdmitAll | backend/controllers/candidates.js:241-270 | Absent or empty filters impose nothing. |
| SearchQuery.MoreFiltersFewerResults | backend/controllers/candidates.js:241-270 | Adding filters never admits a candidate that fewer filters exclude. |
| SearchQuery.LocationIgnoresCase | backend/controllers/candidates.js:253-255 | The location match does not depend on the case of the pattern. |
| SearchQuery.UnknownStatusMatchesNothing | backend/controllers/candidates.js:263-265 | A status filter that names no status matches no candidate. |
| SearchQuery.UnknownSourceMatchesNothing | backend/controllers/candidates.js:268-270 | A source filter that names no source matches no candidate. |
| SearchQuery.ExperienceFilter | backend/controllers/candidates.js:258-260 | With `experience=k`, a candidate passes only with `experienceYears` set and at least k, and with the other filters passed that is also enough. |
| SearchQuery.SkillsEitherOf | backend/controllers/candidates.js:247-250 | `skills=a,b` matches exactly the candidates that have skill a or skill b. |
| SearchQuery.SkillListOfTwo | backend/controllers/candidates.js:248 | Splitting `a,b` on commas and trimming gives [a, b]. |
| SearchQuery.Select | backend/controllers/candidates.js:280 | The selection holds exactly the stored candidates that match, each no more often than stored. |
| SearchQuery.Insert | backend/controllers/candidates.js:283 | Inserting into a newest-first list keeps it newest first and adds exactly that candidate. |
| SearchQuery.SortNewestFirst | backend/controllers/candidates.js:283 | `sort({createdAt: -1})` gives a newest-first permutation of its input. |
| SearchQuery.SortKeepsSorted | backend/controllers/candidates.js:283 | Sorting a list that is already newest first changes nothing, so ties keep their order. |
| SearchQuery.SortIdempotent | backend/controllers/candidates.js:283 | Sorting twice is sorting once. |
| CandidateController.DocsOf | backend/controllers/candidates.js:62 | The stored documents in natural order: one per stored id, in order. |
| CandidateController.OwnedBy | backend/controllers/candidates.js:50 | `find({createdBy: owner})` holds exactly the owner's documents, and no more of them than are stored. |
| CandidateController.OwnedByMultiplicity | backend/controllers/candidates.js:50 | Each of the owner's documents appears as often as it is stored, and no other document appears. |
| CandidateController.OwnedByConcat | backend/controllers/candidates.js:50 | The owner's documents of two runs of stored documents are those of the first run followed by those of the second: the filter keeps stored order. |
| CandidateController.ListResponse | backend/controllers/candidates.js:48-94 | A caller id that does not cast gives 500. Any answer is 200 or 500, and a 200 lists only stored documents of the caller. |
| CandidateController.ListAnswer | backend/controllers/candidates.js:53-85 | Once page and limit are parsed, the list answers 500 exactly when the skip is negative; a 200 holds the skip/limit window of the owner's records with their `next`/`prev` links, and `count` equals the number of records, at most \|limit\|, all among the owner's. |
| CandidateController.Without | backend/controllers/candidates.js:216 | Taking an id out of the order keeps every other id and keeps them distinct. |
| CandidateController.Selected | backend/controllers/candidates.js:277 | The search's matches are exactly the owner's documents that pass every filter, and no more of them than are stored. |
| CandidateController.SelectedMultiplicity | backend/controllers/candidates.js:277 | Each matching document appears as often as it is stored, and no other document appears. |
| CandidateController.SelectedConcat | backend/controllers/candidates.js:277 | The matches of two runs of stored documents are those of the first run followed by those of the second: the selection keeps stored order. |
| CandidateController.SearchResponse | backend/controllers/candidates.js:234-310 | A caller id that does not cast or a non-numeric `experience` gives 500. Any answer is 200 or 500; a 200 has `total` equal to the number of matches and returns only stored documents of the caller that pass every filter. |
| CandidateController.SearchResult | backend/controllers/candidates.js:273-302 | Once the matches are known and page and limit are parsed, the search answers 500 exactly when the skip is negative; a 200 has `total` equal to the number of matches, `count` equal to the number returned, at most \|limit\|, newest first, all among the matches. |
| CandidateController.UpdatedRecord | backend/controllers/candidates.js:176-179 | An update is written exactly when the body validates and any `createdBy` is an ObjectId. It keeps the id and `createdAt`, stamps `updatedAt`, keeps a valid document valid, and keeps a canonical owner canonical. |
| CandidateController.InsertKeepsConsistent | backend/controllers/candidates.js:139 | Adding a valid document with a canonical owner under a fresh canonical id, at the end of the order, keeps the collection consistent. |
| CandidateController.ReplaceKeepsConsistent | backend/controllers/candidates.js:176-179 | Replacing a stored document with a valid one with a canonical owner under the same id keeps the collection consistent. |
| CandidateController.RemoveKeepsConsistent | backend/controllers/candidates.js:216 | Removing one id from the map and from the order keeps the collection consistent. |
| CandidateController.CandidateStore.GetCandidates | backend/controllers/candidates.js:48-94 | The list answer is the listing of the stored documents. A caller id that does not cast to an ObjectId gives 500. On 200 it holds at most \|limit\| stored candidates owned by the caller's id in canonical form; otherwise it is 500 "Server Error". The store is unchanged. |
| CandidateController.CandidateStore.GetCandidate | backend/controllers/candidates.js:99-129 | A non-ObjectId gives 500, an unknown id 404, another owner's record 401 and the caller's record 200 with that record. The store is unchanged. |
| CandidateController.CandidateStore.CreateCandidate | backend/controllers/candidates.js:134-152 | A caller id that does not cast to an ObjectId gives 500 and changes nothing. Otherwise a body that validates is stored under the new id, owned by the caller's id in canonical (lower-case) form, at the end of the order, and the answer is 201 with it; a body that does not validate gives 500 and changes nothing. |
| CandidateController.CandidateStore.UpdateCandidate | backend/controllers/candidates.js:157-192 | Checked in order: 500, 404, 401, then 500 for a refused update, each leaving the store unchanged. Otherwise only the target record is replaced by its update and the answer is 200 with it. The order never changes. |
| CandidateController.CandidateStore.DeleteCandidate | backend/controllers/candidates.js:197-229 | Checked in order: 500, 404, 401, each leaving the store unchanged. Otherwise exactly the target is removed from the map and the order, and the answer is 200 with empty data. |
| CandidateController.CandidateStore.SearchCandidates | backend/controllers/candidates.js:234-310 | The search answer is the search over the stored documents, with the caller's id cast to an ObjectId. The store is unchanged. |
| CandidateController.WindowNewestFirst | backend/controllers/candidates.js:280-283 | A page of a newest-first list is newest first. |
| CandidateController.SelectIsSelected | backend/controllers/candidates.js:277-283 | Selecting with the built query gives exactly the documents the filters select, in stored order. |
| CandidateController.ListPage | backend/controllers/candidates.js:53-86 | For page ≥ 1 and limit ≥ 1, the list answers 200 with the page's window of the owner's candidates. `count` equals the number returned, at most `limit`; the links are `{page-1, limit}` exactly after page 1 and `{page+1, limit}` exactly while candidates remain. |
| CandidateController.ListPagesPartition | backend/controllers/candidates.js:55-59 | Consecutive list pages partition the owner's candidates without overlap or gap. |
| CandidateController.SearchPage | backend/controllers/candidates.js:273-302 | For page ≥ 1 and limit ≥ 1, the search answers 200 with the page's window of the sorted matches. `count` equals the number returned, at most `limit`; `total` counts every match; `prev` exactly after page 1; `next` exactly while matches remain. |
| CandidateController.SearchPagesPartition | backend/controllers/candidates.js:275-283 | Consecutive search pages partition the sorted matches without overlap or gap. |
| CandidateController.SearchAnswer | backend/controllers/candidates.js:234-302 | A search answers 500 exactly when the caller's id does not cast, `experience` is not a number or the skip is negative. Otherwise the data is the window at the skip of the caller's matches sorted newest first, the descriptors are those of the page, limit and number of matches, `count` is the page's size, `total` the number of matches, and the page is newest first and at most \|limit\| long. Every result is the caller's, is stored, and passes every filter. |
| CandidateController.SearchTotalIgnoresPaging | backend/controllers/candidates.js:277 | `total` is the number of all the caller's matches, whichever page and limit are requested. |
| CandidateController.SelectedIgnoresPaging | backend/controllers/candidates.js:277 | The matches do not depend on the `page` and `limit` parameters. |
| CandidateController.UnfilteredSearchIsTheList | backend/controllers/candidates.js:239 | A search with no filters selects exactly the candidates the list shows, in the same stored order, before the search sorts them. |
| CandidateController.UpdateCanTransferOwnership | backend/controllers/candidates.js:176-179 | An update whose body names another user's id as `createdBy` hands the record over to that user. |

## Left out

- SearchQuery.LocationMatches: the `location` pattern is matched as literal text, case-insensitively. Regular-expression metacharacters are not modelled.
- JsText.ToLower: only ASCII letters are case-folded. Unicode case mapping is not modelled. This also applies to the extension check and the location match.
- The `$text` search is the parameter `TextMatch`, applied to the indexed strings. Its tokenising, stemming and ranking are not modelled.
- Ids are texts of 24 hexadecimal digits. Mongoose's 12-character string form of an ObjectId is not modelled. The id of a new document is a parameter of `CandidateStore.CreateCandidate`, and one already in use gives 500.
- A query parameter given more than once (an array in Express) is not modelled. Each parameter is absent or one text.
- The body's fields arrive already typed. Mongoose casting of, for instance, `experienceYears: "abc"` is not modelled. Sub-record dates of `education` and `experience` are milliseconds, unchecked.
- `experienceYears` is an integer. Fractional years are not modelled.
- Pagination.PageNumber, Pagination.PageLimit, Pagination.StartIndex: the model computes with unbounded integers. JavaScript numbers are IEEE doubles, so `parseInt` of a long digit string rounds, `(page - 1) * limit` rounds beyond 2^53, and the store refuses a skip that does not fit in 64 bits. None of this is modelled.
- CandidateSchema.ApplyUpdate, CandidateSchema.UpdateErrors: a JSON `null` in an update body clears an optional path, or fails `required` on a required one. The body's `Option` fields cannot tell `null` from an absent field, so these cases are not modelled.
- ResumeUpload.Receive: multer itself is not part of this model. Its behaviour (each name cut to its base name, as with `preservePath` off; parts whose base name is empty drained first; then the field check, the filter and the size limit) is stated from its documented middleware.
- The listing's natural order is taken to be insertion order, and equal `createdAt` values keep that order in the search sort. MongoDB promises neither.
- A negative `limit` returns at most \|limit\| records, as the driver's single-batch reading does. The driver's batching itself is not modelled.
- CandidateController.CandidateStore.CreateCandidate: a `createdAt`, `updatedAt` or `_id` sent by the client is not modelled. The body type has no such fields, and both timestamps are set to `now`.
- Get, update and delete compare the caller's id as text with the stored owner (`toString() !== req.user.id`). The auth middleware that supplies it is not part of this model.
- `findById` followed by `findByIdAndUpdate`, or by `deleteOne`, is taken to be atomic. A concurrent request changing the record between the two calls is not modelled, and neither is async/await.
- Disk storage is left out: the uploads directory is not created and nothing is written. Files arrive as parts with a declared size, and multer's streaming is not modelled.
- `console.error` logging, `Date.now()` (the `now` and `nowMs` parameters), the Express routes and server wiring, and the frontend are not modelled.
- The error middleware is modelled on its own. No controller reaches it, because each handler answers its own exceptions with 500.
