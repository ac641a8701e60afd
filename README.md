# Short-link lifecycle, modelled in Dafny

This project models the server core of a URL shortener. A link record maps a
short code to a target URL and keeps a click count, the time of the last visit,
and creation and update timestamps. The model covers:

- The record and its schema (`server/src/models/Link.js`), in module
  `LinkSchema`: the `Link` datatype; `ValidCode`, which is the pattern
  `^[A-Za-z0-9]{6,8}$`; the `trim` setter, using JavaScript's whitespace set;
  the `required` validators; the defaults `clicks = 0` and
  `lastClicked = null`; the automatic timestamps.
- The store invariant, `StoreInvariant`. Every key equals its record's code,
  so codes are unique. Every code matches the pattern. Every target is
  non-empty and trimmed.
- Saving a new record (`Link.create`) as the function `Save`. Trimming and
  validation can fail with a validation error, and the unique index can fail
  with a duplicate-key error.
- Code generation (`generateCode`), in module `CodeGen`. The six
  `Math.random()` values are passed in as real numbers in [0, 1). `Slot` is
  `Math.floor(r * 62)`. The characters come from the source's 62-character
  alphabet.
- The request handlers of `server/src/controllers/linkController.js`, in
  module `LinkController`. Each writing handler is a function from the old
  store to a response and a new store: `CreateLinkOutcome`,
  `RedirectLinkOutcome` and `DeleteLinkOutcome`. The two reading handlers,
  `GetLinkStats` and `GetAllLinks`, are functions from the store to a
  response only. A response carries
  the HTTP status and a payload. The statuses are 201, 200, 302 (Found,
  section 15.4.3 of RFC 9110), 400, 404, 409 and 500.
- The class `LinkStore`. It holds the collection as a `map<string, Link>`
  field. `CreateLink`, `RedirectLink` and `DeleteLink` update that field in
  place, and each is proved to agree with its handler function.
  `GenerateUnusedCode` is the `while (!isUnique)` loop of `createLink`.
  `GenerateCode` is the `for` loop of `generateCode`.

These points come from the code:

- The target check comes first.
- A custom code is then checked against the pattern, then for uniqueness.
- An absent or empty custom code is falsy. It takes the generation branch
  (`EmptyCodeIsAbsentCode`).
- `Link.create` trims the target before storing it. A target that is blank
  after trimming fails the `required` validator, and the catch-all answers
  500. Without a real URL parser the model cannot rule this case out, so it
  keeps it. The real `new URL` rejects every such string.
- A redirect also sets `updatedAt`, because the schema's timestamps apply to
  `findOneAndUpdate`.
- The create handler's own checks make the duplicate-key error of the save
  impossible. A 500 from create happens only for a blank trimmed target
  (`CreateWithCustomCode`, `CreateWithGeneratedCode`).

## Model

| member | source | states |
|---|---|---|
| `LinkSchema.TrimStart` | server/src/models/Link.js:8 | the result is a suffix of the input; every character dropped is JavaScript whitespace; the result does not start with whitespace |
| `LinkSchema.TrimEnd` | server/src/models/Link.js:15 | the result is a prefix of the input; every character dropped is whitespace; the result does not end with whitespace |
| `LinkSchema.Trim` | server/src/models/Link.js:8 | the result has no whitespace at either end; it is a contiguous slice of the input, and only whitespace lies outside the slice |
| `LinkSchema.TrimOfTrimmed` | server/src/models/Link.js:15 | trimming leaves a string with no whitespace at either end unchanged |
| `LinkSchema.TrimIdempotent` | server/src/models/Link.js:15 | trimming twice gives the same result as trimming once |
| `LinkSchema.ValidCodeIsUntouchedByTrim` | server/src/models/Link.js:8-10 | a code that matches the pattern is stored exactly as given |
| `LinkSchema.Save` | server/src/models/Link.js:3-27 | the save succeeds iff the trimmed code matches the pattern, the trimmed target is non-empty and the code is unused; it fails with a duplicate key iff the validators pass but the code is taken; a saved record is valid, unused, holds the trimmed code and target, has `clicks = 0` and `lastClicked = null`, and has both timestamps set to now |
| `LinkSchema.AddingValidLinkKeepsInvariant` | server/src/models/Link.js:4-11 | adding a valid record under its own unused code keeps the store invariant and adds exactly one key |
| `CodeGen.Slot` | server/src/controllers/linkController.js:8 | the index a draw selects is always inside the 62-character alphabet |
| `CodeGen.AlphabetAt` | server/src/controllers/linkController.js:5 | the alphabet has 62 characters; each one is alphanumeric; `AlphabetIndex` inverts indexing into it |
| `CodeGen.AlphabetIsTheAlphanumericClass` | server/src/controllers/linkController.js:5 | every character of `[A-Za-z0-9]` occurs in the alphabet at exactly one position |
| `CodeGen.SlotIsUniform` | server/src/controllers/linkController.js:8 | a draw selects index k iff it lies in [k/62, (k+1)/62), so every index is selected by an interval of the same width |
| `CodeGen.GeneratedCodeIsValid` | server/src/controllers/linkController.js:4-11 | a generated code has exactly 6 characters and matches `^[A-Za-z0-9]{6,8}$` |
| `CodeGen.EverySixCharacterCodeIsGenerable` | server/src/controllers/linkController.js:4-11 | for every 6-character alphanumeric code, some draws generate it |
| `CodeGen.GenerateCode` | server/src/controllers/linkController.js:6-10 | the loop builds the code that the draws determine; that code has 6 characters and is valid |
| `LinkController.FirstFreeAttempt` | server/src/controllers/linkController.js:39-44 | the position returned holds a candidate whose code is not stored, and every earlier candidate's code is stored |
| `LinkController.CreateLinkOutcome` | server/src/controllers/linkController.js:14-54 | the status is 201, 400, 409 or 500; a failure leaves the store unchanged; an unparseable or missing target gives 400 whatever the code; a 201 adds exactly one record under a previously unused code; that record is valid, holds the trimmed target, has `clicks = 0` and `lastClicked = null`, and has both timestamps set to now; no other entry changes |
| `LinkController.CreateWithCustomCode` | server/src/controllers/linkController.js:26-36 | with a parseable target and a non-empty code: a code that misses the pattern gives 400 with no change; a taken code gives 409 with no change; a free code is stored as given (500 only for a blank trimmed target) |
| `LinkController.CreateWithGeneratedCode` | server/src/controllers/linkController.js:37-49 | with a parseable target and no code: the stored code comes from the first candidate not already stored; it has 6 characters and is valid; a 500 happens only for a blank trimmed target |
| `LinkController.EmptyCodeIsAbsentCode` | server/src/controllers/linkController.js:26 | an empty custom code gives the same outcome as an absent one |
| `LinkController.CreatePreservesInvariant` | server/src/controllers/linkController.js:47-49 | create keeps the store invariant; a 201 adds exactly the new code to the keys, so the size grows by one |
| `LinkController.GetLinkStats` | server/src/controllers/linkController.js:67-77 | the status is 200 iff the code is stored, and the body is then that record, whose code is the one asked for; otherwise it is the JSON 404 |
| `LinkController.CreatedLinkIsReadable` | server/src/controllers/linkController.js:47-49 | whenever create gives 201, a stats read of the new code returns the created record, with the trimmed target, no clicks and no last visit |
| `LinkController.SecondCreateWithSameCodeConflicts` | server/src/controllers/linkController.js:32-36 | a create with a valid, unused custom code and a parseable, non-blank target gives 201 and stores that code; a second create with the same code and any parseable target then gives 409 with no change |
| `LinkController.NewestFirst` | server/src/controllers/linkController.js:59 | the listing is as long as the store, and each entry is the stored record under its own code |
| `LinkController.NewestFirstIsSorted` | server/src/controllers/linkController.js:59 | the listing's `createdAt` values never increase from entry to entry |
| `LinkController.NewestFirstListsEveryRecord` | server/src/controllers/linkController.js:59 | every stored record appears in the listing |
| `LinkController.NewestFirstHasDistinctCodes` | server/src/controllers/linkController.js:59 | no code appears twice in the listing |
| `LinkController.GetAllLinks` | server/src/controllers/linkController.js:57-64 | 200 with every stored record exactly once and nothing else, ordered by `createdAt`, newest first |
| `LinkController.RedirectLinkOutcome` | server/src/controllers/linkController.js:93-117 | a stored code gives 302 to its target and the same key set; that record's clicks go up by exactly 1; `lastClicked` and `updatedAt` become now; code, target and `createdAt` stay the same; no other record changes; an absent code gives the plain-text 404 with no change |
| `LinkController.RedirectPreservesInvariant` | server/src/controllers/linkController.js:98-105 | a redirect keeps the store invariant |
| `LinkController.VisitsCountEachClick` | server/src/controllers/linkController.js:98-105 | N visits of a stored code add exactly N clicks and stamp the last visit time; target, `createdAt` and every other record stay the same |
| `LinkController.DeleteLinkOutcome` | server/src/controllers/linkController.js:80-90 | a stored code is removed: exactly that key goes and the size drops by one; every other entry stays the same; the response is 200; an absent code gives 404 with no change |
| `LinkController.DeletePreservesInvariant` | server/src/controllers/linkController.js:82 | a delete keeps the store invariant |
| `LinkController.DeletedCodeIsGone` | server/src/controllers/linkController.js:80-90 | after a successful delete the code is not a key; a stats read, a second delete and a visit of it are all 404s with no change |
| `LinkController.LinkStore.GenerateUnusedCode` | server/src/controllers/linkController.js:39-44 | the loop returns the code of the first candidate not already stored; that code has 6 characters and is valid |
| `LinkController.LinkStore.CreateLink` | server/src/controllers/linkController.js:14-54 | the response and the new collection are those of `CreateLinkOutcome` on the old collection; the invariant is kept |
| `LinkController.LinkStore.RedirectLink` | server/src/controllers/linkController.js:93-117 | the response and the new collection are those of `RedirectLinkOutcome`; the invariant is kept |
| `LinkController.LinkStore.DeleteLink` | server/src/controllers/linkController.js:80-90 | the response and the new collection are those of `DeleteLinkOutcome`; the invariant is kept |

## Left out

- `Math.random()` is replaced by its results, passed in as parameters: six reals in [0, 1) per generation attempt.
- `CodeGen.Slot`, `CodeGen.CodeFromDraws`, `CodeGen.SlotIsUniform`: the product `r * 62` is computed in exact real arithmetic, not in IEEE doubles. In doubles the index also stays in [0, 62). But a draw just below a bin boundary k/62 can round up to the integer k, and then selects index k where the model selects k - 1. So the draw-to-character map holds only in exact arithmetic, and the bins are equal in width only up to one ulp. Which codes can be generated, and their validity, do not depend on this.
- `LinkController.CreateLinkOutcome`: when the generation branch runs, it requires that some supplied candidate gives an unused code. The source's loop has no bound and would never return otherwise; the model does not represent a request that never completes. There is no retry cap and no "exhausted" error, because the code has neither.
- `new URL(target)` is the basic URL parser of the WHATWG URL Standard (section 4.4, URL parsing). It is the parameter `parsesAsUrl`, not a model of URL parsing.
- `new Date()` and the schema's timestamps are the parameter `now`. `lastClicked` and `updatedAt` get the same reading.
- Concurrency. Each handler is one atomic step, and the atomic `findOneAndUpdate` is a single map update. The race between the custom-code check and the insert cannot be expressed sequentially. In the source, a duplicate-key error from that race reaches the catch-all and gives 500, not 409. In the model this error is impossible.
- 500 responses caused by store or connection failures. Only the 500 from a failed save is modelled.
- Error message strings, the `details` text of a 500, and JSON serialisation. Bodies are abstracted to `ErrorKind`, `Record`, `Records`, `Deleted` and `RedirectTo`.
- Request fields that are not strings. `target` and `code` are optional strings; numbers and other JSON values coerced by the regex test or by Mongoose casting are not modelled.
- Query casting. Lookups by code are exact map lookups. Any trimming Mongoose may apply to query filters is not modelled.
- JavaScript strings are UTF-16; Dafny strings are sequences of Unicode scalar values. Lone surrogates are not modelled.
- `LinkController.VisitsCountEachClick`: `clicks` is a JavaScript Number, which counts exactly only up to 2^53. The model's count is unbounded.
- `LinkController.GetAllLinks` and `LinkController.NewestFirst` are ghost functions. The order among records with equal `createdAt` is left open, and Dafny cannot compile that choice.
- Express routing and the server bootstrap. Because `/:code` is registered before `/healthz` in server/src/routes/apiRoutes.js, a request for `/healthz` reaches the redirect handler.
- The React client.
