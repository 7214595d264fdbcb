# Project portfolio backend — a Dafny model

This project models the decision logic of a small Express/Mongoose REST
backend that stores "Project" records (name, description, url, image). It
covers three pieces:

- **Handlers** (`controller.dfy`, module `Controller`). The five Project handlers of
  `controllers/project.controller.js` are methods of a `ProjectStore` class. The class
  holds the `projects` collection as a `map<nat, Project>`, a counter that stands in
  for the clock behind `createdAt`/`updatedAt`, a counter for new ids, and the
  sequence of image references uploaded to the media host. Each handler returns the
  HTTP status it sends and the project(s) in its JSON body. Its contract states the
  status, the new collection and what stays unchanged.
- **Schema** (`schema.dfy`, module `Schema`). The schema of `models/project.model.js`:
  - the `trim` setters;
  - `required` and `maxlength` (counted in UTF-16 code units, as JavaScript does);
  - the url validator `/^https?:\/\/[\w\-]+(\.[\w\-]+)+[/#?]?.*$/`. It is decided by
    a function with no backtracking, and that function is proved equal to the
    pattern's language, which is written piece by piece;
  - `image` as a required field.
- **Routes** (`uploads.dfy`, module `Uploads`). From `routes/project.routes.js`:
  - multer's `fileFilter`, which splits the MIME type on `/` and runs an unanchored
    test;
  - the 2 MiB size limit;
  - the route table.

`text.dfy` (module `Text`) defines the JavaScript string operations these rely on:
`trim`, UTF-16 `length`, `split` and substring search. `scenarios.dfy` holds request
sequences proved from the handlers' contracts alone.

Inputs the code awaits on become parameters:

- the media step (upload to the media host, then removal of the local file) is an
  `Attachment`. It is either `NoFile` or a file whose step succeeds with a
  `secure_url`, has its upload rejected, or has its local removal rejected after
  the upload;
- `dbFault` says whether the request's database call throws;
- `IdParam` says whether `req.params.id` casts to an ObjectId.

Behaviour as the code has it, where it may surprise a client:

- A create without a file stores `image: ""`. The schema's `required` rejects it in
  `save`, so such a create answers 500, never 201 (`Controller.ProjectStore.CreateProject`,
  `Scenarios.CreateWithoutFileFails`).
- An id that is not a valid ObjectId makes Mongoose throw a CastError. The catch
  answers 500, not 404.
- Update goes through `findByIdAndUpdate`. That call runs the trim setters and the
  timestamps but no validators, so update checks only that the fields are not
  blank. It can store an over-long name or a url the validator refuses
  (`Scenarios.UpdateSkipsValidation`).
- No handler releases an uploaded image from the media host (the delete handler says as much in its comment at `controllers/project.controller.js:187-188`). This holds on create
  or update failure after the upload, on replacement of an image and on delete.
  The store's `media` only grows.
- A body field that is neither missing nor a string (a JSON number or array) has no
  `trim` to call. The resulting TypeError lands in the catch and gives 500. A
  missing or `null` field gives 400. The three checks short-circuit left to right.

## Model

| member | source | states |
|---|---|---|
| `Text.TrimStartShape` | controllers/project.controller.js:15 | `trim`'s first half keeps the suffix starting at the first non-space, and everything it drops is space |
| `Text.TrimEndShape` | controllers/project.controller.js:33-35 | `trim`'s second half keeps the prefix ending at the last non-space, and everything it drops is space |
| `Text.Trim` | controllers/project.controller.js:33-35 | the result of `trim` is no longer than its input and has no space at either end |
| `Text.TrimIsFramedInfix` | controllers/project.controller.js:33-35 | the result of `trim` is a contiguous part of the input, with only space cut from each side |
| `Text.TrimKeepsTrimmed` | models/project.model.js:9 | `trim` leaves a string without edge space unchanged |
| `Text.TrimIdempotent` | models/project.model.js:9 | trimming again (the schema setter after the controller) changes nothing |
| `Text.TrimBlankIffAllSpace` | controllers/project.controller.js:15 | `x.trim()` is the falsy "" exactly when `x` consists only of whitespace and line terminators |
| `Text.Utf16Length` | models/project.model.js:10 | the `length` that `maxlength` compares lies between the number of code points and twice that |
| `Text.Utf16LengthBmp` | models/project.model.js:16 | for text without astral code points, the UTF-16 length is the character count |
| `Text.Split` | routes/project.routes.js:23 | `split` with a one-character separator gives at least one part, and no part contains the separator |
| `Text.SplitAfterFirst` | routes/project.routes.js:23 | splitting `a/x` with `a` slash-free gives `a` followed by the parts of `x` |
| `Text.JoinSplit` | routes/project.routes.js:23 | joining the parts of `split("/")` with `/` gives back the MIME type |
| `Text.SplitJoin` | routes/project.routes.js:23 | splitting a `/`-joined list of slash-free parts gives back exactly those parts |
| `Text.Contains` | routes/project.routes.js:22-24 | the unanchored literal test is true exactly when the literal occurs at some position |
| `Text.ContainsInContext` | routes/project.routes.js:24 | an occurrence stays an occurrence whatever text is added around it |
| `Schema.Normalize` | models/project.model.js:6-33 | the setters leave all four fields without edge whitespace |
| `Schema.NormalizeIdempotent` | models/project.model.js:9 | applying the trim setters twice is applying them once |
| `Schema.Present` | models/project.model.js:6-33 | `required` on a String path: the value is not the empty string |
| `Schema.WithinMaxLength` | models/project.model.js:10-16 | `maxlength`: the value's UTF-16 length is at most the bound |
| `Schema.NameValid` | models/project.model.js:6-11 | the name path: present and at most 100 UTF-16 code units |
| `Schema.DescriptionValid` | models/project.model.js:12-17 | the description path: present and at most 1000 UTF-16 code units |
| `Schema.UrlValid` | models/project.model.js:18-28 | the url path: present and accepted by the url validator |
| `Schema.ImageValid` | models/project.model.js:29-33 | the image path: present |
| `Schema.ValidDocument` | models/project.model.js:4-39 | what `save` checks: each path's validators applied to the values the trim setters produced |
| `Schema.UrlValidator` | models/project.model.js:23-25 | the validator's `test`, decided without backtracking: `http://` or `https://`, a label run followed by `.` and a label character, and no line terminator anywhere; its equality with the regex is `Schema.UrlValidatorMatchesPattern` |
| `Schema.TailIsAnyLine` | models/project.model.js:24 | the tail `[/#?]?.*$` matches exactly the strings with no line terminator; the optional class adds nothing |
| `Schema.UrlValidatorSound` | models/project.model.js:24 | every string the decision procedure accepts has a scheme/host/tail split that the pattern matches |
| `Schema.UrlValidatorComplete` | models/project.model.js:24 | every string the pattern matches is accepted by the decision procedure |
| `Schema.UrlValidatorMatchesPattern` | models/project.model.js:22-27 | the validator accepts exactly the language of `^https?:\/\/[\w\-]+(\.[\w\-]+)+[/#?]?.*$` |
| `Schema.UrlValidatorSchemes` | models/project.model.js:24 | an accepted url starts with `http://` or `https://`, followed by more text |
| `Schema.UrlValidatorAnyTail` | models/project.model.js:24 | after a scheme and a `label.label` host, the url is accepted exactly when the rest holds no line terminator |
| `Schema.UrlValidatorAcceptsExample` | models/project.model.js:24 | `https://example.com` is accepted |
| `Schema.UrlValidatorRejectsDotlessHost` | models/project.model.js:24 | `http://localhost` is rejected, because the host needs a dot |
| `Schema.UrlValidatorRejectsOtherSchemes` | models/project.model.js:24 | `ftp://…` and upper-case `HTTPS://…` are rejected |
| `Schema.ValidDocumentMeans` | models/project.model.js:6-33 | a document that passes validation has non-blank name, description, url and image, trimmed name of at most 100 and trimmed description of at most 1000 UTF-16 code units (so also at most that many characters), and a trimmed url starting with `http://` or `https://` |
| `Schema.MissingImageRejected` | models/project.model.js:29-33 | a document whose image is empty or only whitespace fails validation |
| `Schema.ValidationSeesTrimmedValues` | models/project.model.js:9 | validation judges the trimmed values, so pre-trimming does not change the verdict |
| `Uploads.MaxFileSizeIsTwoMebibytes` | routes/project.routes.js:20 | the upload size limit is 2097152 bytes |
| `Uploads.MaxFileSize` | routes/project.routes.js:20 | `limits.fileSize`: 2 * 1024 * 1024 bytes |
| `Uploads.TestedText` | routes/project.routes.js:24 | `RegExp.prototype.test` converts an undefined segment to the string "undefined" and tests a present one as is |
| `Uploads.AllowedType` | routes/project.routes.js:22-24 | the `allowedTypes` test: the text contains at least one of the four alternatives somewhere |
| `Uploads.MimeSegment` | routes/project.routes.js:23 | `split("/")[1]` is undefined exactly when the MIME type has no `/`, and otherwise contains no `/` |
| `Uploads.NoAlternativeStart` | routes/project.routes.js:22 | text with no `j`, `p` or `w` matches none of `jpeg`, `jpg`, `png`, `webp` |
| `Uploads.UndefinedNotAllowed` | routes/project.routes.js:24 | the string "undefined" does not match the allowed types |
| `Uploads.FileFilter` | routes/project.routes.js:21-29 | the file is accepted (`cb(null, true)`) exactly when the MIME type has a `/` and its second segment contains an allowed type; otherwise it is rejected with the error `❌ Only image files are allowed (jpeg, jpg, png, webp)` |
| `Uploads.NoSlashRejected` | routes/project.routes.js:23-27 | a MIME type without `/` is always rejected |
| `Uploads.MimeSegmentOf` | routes/project.routes.js:23 | the tested segment is the text between the first `/` and the next `/` or the end |
| `Uploads.OnlySecondSegmentMatters` | routes/project.routes.js:23-24 | the verdict depends only on the second segment; the top-level type and later segments are ignored |
| `Uploads.AcceptedSegmentInContext` | routes/project.routes.js:22-24 | an accepted subtype stays accepted with any slash-free text around it, because the test is unanchored |
| `Uploads.FileFilterAcceptsPng` | routes/project.routes.js:22-25 | `image/png` is accepted |
| `Uploads.FileFilterRejectsGif` | routes/project.routes.js:22-27 | `image/gif` is rejected |
| `Uploads.FileFilterRejectsSvg` | routes/project.routes.js:22-27 | `image/svg+xml` is rejected |
| `Uploads.FileFilterRejectsThirdSegment` | routes/project.routes.js:23 | `a/b/png` is rejected, because only `b` is tested |
| `Uploads.Route` | routes/project.routes.js:35-39 | GET and POST match `/`; GET, PUT and DELETE match `/:id`; exactly POST and PUT run the single-image upload; `/:id` routes pass the id on |
| `Uploads.RouteHandlersDistinct` | routes/project.routes.js:35-39 | each handler is registered under exactly one verb and path shape |
| `Controller.CheckField` | controllers/project.controller.js:15 | `!x?.trim()` lets through exactly the non-blank strings, throws exactly for non-strings, and answers "blank" otherwise |
| `Controller.CheckBody` | controllers/project.controller.js:15-19 | the guard passes exactly when all three fields are non-blank strings, and throws exactly when the first field that is not filled is a non-string |
| `Controller.InsertByCreation` | controllers/project.controller.js:71 | inserting into a newest-first list keeps it newest first, adds exactly that record and grows the list by one |
| `Controller.Submitted` | controllers/project.controller.js:32-37 | the document handed to Mongoose: the three body fields trimmed, and the image reference as is |
| `Controller.ProjectStore.Valid` | models/project.model.js:4-39 | the collection's invariant: each record sits under its own id, below the next id to hand out; createdAt <= updatedAt < clock; every stored record is trimmed with non-empty name, description and url; no two records share a createdAt |
| `Controller.ProjectStore.constructor` | models/project.model.js:42 | an empty `projects` collection with nothing uploaded; the invariant holds |
| `Controller.SubmittedNormalized` | controllers/project.controller.js:32-37 | the stored fields are the trimmed inputs, and name, description and url are non-empty once the guard passed |
| `Controller.ProjectStore.Upload` | controllers/project.controller.js:22-30 | the media step succeeds only when both awaits do; an upload that went through is recorded in the media store even if the local removal then fails |
| `Controller.ProjectStore.Insert` | controllers/project.controller.js:39 | `save` gives the record a fresh id, stores the setter-normalized fields, and sets createdAt = updatedAt = now |
| `Controller.ProjectStore.ReplaceById` | controllers/project.controller.js:147-156 | `findByIdAndUpdate` replaces the four fields with their trimmed values, keeps createdAt, sets updatedAt to now, and leaves every other record alone |
| `Controller.ProjectStore.CreateProject` | controllers/project.controller.js:11-62 | 400 exactly for a blank field, with no upload and no change. 201 exactly when the fields pass, a file is uploaded and `save` validates and succeeds; the collection then grows by one record holding the trimmed inputs and the upload's `secure_url`, stamped with the current clock, and the clock and the id counter each advance by one. Every other case gives 500 and adds nothing |
| `Controller.ProjectStore.GetProjects` | controllers/project.controller.js:69-84 | 200 with every stored record exactly once, newest first by createdAt, or 500 with nothing on a database fault; the collection is not changed |
| `Controller.ProjectStore.GetProjectById` | controllers/project.controller.js:91-111 | 404 exactly when no record has the id, 200 with that record otherwise, and 500 for an uncastable id or a database fault; nothing changes |
| `Controller.ProjectStore.UpdateProject` | controllers/project.controller.js:118-169 | the blank check comes first (400 even for an unknown id). Then 404 for an unknown id, with no upload and no change. On 200 that one record gets trimmed fields, keeps its image when no file is sent, keeps createdAt and gets updatedAt = now, the clock advances by one, and the record is returned; all other records are untouched |
| `Controller.ProjectStore.DeleteProject` | controllers/project.controller.js:176-200 | 404 exactly for an unknown id; otherwise the record is removed and every other record is kept; the media store is not touched |
| `Scenarios.DeleteThenLookup` | controllers/project.controller.js:176-200 | after a successful delete, a get or a second delete of the same id answers 404 |
| `Scenarios.CreateThenFetch` | controllers/project.controller.js:94-103 | a created project is fetched back by its id exactly as created |
| `Scenarios.CreateWithoutFileFails` | controllers/project.controller.js:21-39 | the document of a file-less create (image "") never passes `save`'s validation |
| `Scenarios.UpdateSkipsValidation` | controllers/project.controller.js:147-156 | an update can store a url the schema's validator refuses, because update runs no validators |

## Left out

- Express and server wiring (`server.js`), the database connection (`config/db.js`) and the admin listing endpoint (`routes/register.routes.js` and the files behind it) are not part of this model. The listing endpoint is a single pass-through `find()`.
- Media host internals: `config/cloudinary.js` is not part of this model. An upload is an abstract outcome carrying an opaque `secure_url`. The model does not settle whether the memory storage at `routes/project.routes.js:16` provides `req.file.path`.
- Removal of the local file in create's catch branch (lines 48-55): the model keeps no local file system. That removal never changes the response.
- Database faults: one flag per request says whether the database throws. In update that flag is the `findById` call. The model does not cover a throw from `findByIdAndUpdate` after `findById` succeeded. The code then answers 500, possibly after an image was uploaded. Neither is a record deleted concurrently in that window, in which case the code answers 200 with a null project.
- ObjectId generation and casting: ids are numbers from a counter, and an id parameter is either castable or `Malformed`.
- The clock behind the timestamps is a counter that every write advances. Real timestamps can tie; counter values cannot.
- Multer's multipart parsing and its enforcement of the size limit: only the constant is modelled. Nor is what Express does once `fileFilter` rejects a file, because the handler then never runs.
- Response message strings (only the file filter's error keeps its source text, emoji included), console logging and `async`/`await`: each handler is one sequential pipeline.
- Strings are sequences of Unicode scalar values, so JavaScript strings holding lone surrogates cannot be represented. UTF-16 length is computed explicitly for `maxlength`.
- `Controller.ProjectStore.GetProjects`: the database performs the sort. The model builds the same ordering with an insertion loop over the stored keys.
