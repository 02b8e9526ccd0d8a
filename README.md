# Memo store, modelled in Dafny

The system is a small Express service in `index.js`. It keeps an in-memory list of memos.
Each memo has an id, a title, content, a creation time and, after its first update, an
update time. The list and a `nextId` counter are module-level state. Four JSON endpoints
act on them:

- list returns the whole array;
- create validates the body, trims both strings, hands out `nextId++` and pushes the memo;
- update finds the memo by id (404 when there is none), validates the body, then overwrites
  that object's title, content and `updatedAt` in place;
- delete finds the index by id (404 when it is -1), then splices that one element out.

Validation is one chain, checked in this order, and the first failing step decides the
answer:

1. title required: present, a string, and not blank after trimming;
2. title at most 100 characters, counted on the raw string;
3. content required, the same way;
4. content at most 2000 characters, counted on the raw string.

The project has three modules.

- `Validation` (`validation.dfy`) holds:
  - the two limits;
  - the field shapes a JSON body can give: `Missing`, `NotString`, `Text`;
  - the whitespace set that trimming removes;
  - `TrimStart`, `TrimEnd` and `Trim`;
  - the check chain `Validate`, which returns either the raw strings or the first
    failure.
- `MemoSpec` (`memo_spec.dfy`) holds:
  - the store as a value (`State`: the memos in order plus the counter);
  - the three changing operations as functions, `Create`, `Update` and `Delete`, which
    return either the new state or a `StoreError` (`Invalid(failure)` for a 400,
    `NotFound` for a 404);
  - the store invariant `WellFormed`: ids strictly increase along the list and stay below
    the counter, and every stored title and content is non-blank, trimmed and within its
    limit;
  - the lemmas about these functions.
- `MemoStore` (`memo_store.dfy`) is the imperative store.
  - `Memo` is a class: its id and creation time are constant, and its title, content and
    update time are fields that update overwrites.
  - `Store` is a class holding the `memos` sequence of memo objects and the `nextId`
    counter.
  - The create, update and delete handlers are methods proved to follow the matching
    `MemoSpec` function and to keep the invariant `Valid()`. The list handler returns the
    memo sequence itself. The ghost field `records` mirrors the objects' fields.

## Model

| member | source | states |
|---|---|---|
| Validation.IsWhitespace | index.js:26 | space, tab, line feed and carriage return are trimmed; no visible ASCII character is |
| Validation.Validate | index.js:26-37 | the check chain, also used at index.js:59-70; an accepted body hands back both fields as the raw strings, within their limits |
| Validation.TrimStart | index.js:26 | the result is no longer than the input and does not start with whitespace |
| Validation.TrimEnd | index.js:26 | the result is no longer than the input and does not end with whitespace |
| Validation.Trim | index.js:41-42 | the result is no longer than the input and neither starts nor ends with whitespace |
| Validation.TrimStartIsSuffix | index.js:26 | trimming the front leaves a suffix of the input |
| Validation.TrimEndIsPrefix | index.js:26 | trimming the back leaves a prefix of the input |
| Validation.TrimStartDropsWhitespace | index.js:26 | everything trimming removes from the front is whitespace |
| Validation.TrimEndDropsWhitespace | index.js:26 | everything trimming removes from the back is whitespace |
| Validation.TrimEmptyIffBlank | index.js:26 | a string trims to the empty string exactly when every character in it is whitespace, so the `trim().length === 0` test rejects exactly the blank strings |
| Validation.FirstFailureWins | index.js:26-37 | each of the four failures is reported exactly when every earlier check passes and its own fails; "required" means present, a string and not blank; the limits apply to the raw length; both fields are accepted, unchanged, exactly when all four checks pass |
| Validation.TrimFixesExactlyTrimmed | index.js:41-42 | trimming leaves a string unchanged exactly when it already has no whitespace at either end; trimming is idempotent |
| Validation.AcceptedTrimsWithinLimits | index.js:29-42 | once a body is accepted, the trimmed title and content are non-empty, trimmed and within 100 and 2000 characters |
| Validation.LimitsAreInclusive | index.js:6-7 | with non-blank fields, the title passes its length check exactly when it has at most 100 characters, and the content exactly when it has at most 2000; adding one space makes a 100-character title too long, and only such a title, because length is counted before trimming |
| Validation.RequiredExamples | index.js:26-33 | an empty title, a whitespace-only title and a non-string title are all "title required"; empty content under a good title is "content required" |
| Validation.TooLongExamples | index.js:29-36 | a 101-character title is too long even when the content is empty; 2001 characters of content under a good title are too long |
| Validation.TrimExample | index.js:41 | " Hello " trims to "Hello" |
| Validation.PaddedExample | index.js:26-37 | padded title and content are accepted, and the raw strings come back |
| Validation.TrimStripsOneEachSide | index.js:41-42 | a string with exactly one whitespace character at each end trims to its middle |
| MemoSpec.Initial | index.js:9-10 | the store starts with no memos and the counter at 1, and satisfies the invariant |
| MemoSpec.IndexOf | index.js:51 | the result is the position of the first memo with the id, or -1 exactly when no memo has it |
| MemoSpec.Without | index.js:86 | the result is no longer than the input and holds no memo with the id |
| MemoSpec.Create | index.js:23-47 | a create succeeds exactly when the chain accepts the body; otherwise the error is the chain's first failure |
| MemoSpec.Update | index.js:49-76 | an update succeeds exactly when the id is stored and the chain accepts the body; it is "not found" exactly when the id is not stored; a validation error means the id is stored and the chain rejected the body with that failure |
| MemoSpec.Delete | index.js:78-88 | a delete succeeds exactly when the id is stored; otherwise it is "not found" |
| MemoSpec.CreateAppends | index.js:23-47 | a create succeeds only on an accepted body; the new memo's id is the old counter; the counter goes up by one; the memo is appended after the unchanged earlier entries with the trimmed strings, the given creation time and no update time; a refused create reports the chain's first failure |
| MemoSpec.CreateKeepsWellFormed | index.js:39-45 | create keeps the store invariant, and the new id is larger than every stored id |
| MemoSpec.UpdateUnknownIdIsNotFound | index.js:50-55 | an update of an id that is not stored is "not found", whatever the body, because the lookup comes before validation |
| MemoSpec.UnissuedIdIsNotFound | index.js:10 | an id below 1 or not yet reached by the counter names no memo, so update and delete of it are "not found" |
| MemoSpec.UpdateChangesOnlyTarget | index.js:49-76 | a successful update rewrites only the memo with that id: trimmed title and content, `updatedAt` set to the given time; its id and creation time, every other memo, the order, the length and the counter are unchanged; a refused update is "not found" or the chain's first failure |
| MemoSpec.UpdateKeepsWellFormed | index.js:72-74 | update keeps the store invariant |
| MemoSpec.SpliceIsWithout | index.js:80-86 | with ids strictly increasing along the list, splicing out the element at the found index is the same as removing every memo with that id while keeping the others in order |
| MemoSpec.WithoutAbsent | index.js:80-86 | removing an id that is not stored changes nothing |
| MemoSpec.DeleteRemovesOnlyTarget | index.js:78-88 | a successful delete removes exactly the memo with the id, keeps the others in order, shortens the list by one and leaves the counter alone; a refused delete means the id was not stored |
| MemoSpec.DeleteKeepsWellFormed | index.js:86 | delete keeps the store invariant |
| MemoSpec.DeletedIdIsRetired | index.js:40 | after a delete, a second delete or an update of the same id is "not found", and the next create hands out a larger id, so ids are never reissued |
| MemoSpec.ExampleTooLong | index.js:29-36 | on a fresh store a 101-character title and 2001-character content are refused as too long |
| MemoSpec.ExampleCreate | index.js:39-45 | on a fresh store "T"/"C" becomes memo 1 with no update time, and the counter moves to 2 |
| MemoSpec.ExampleDeleteTwice | index.js:78-88 | deleting memo 1 leaves an empty list; deleting it again is "not found" |
| MemoSpec.TrimmedOnCreate | index.js:41 | a title created as " Hello " is stored as "Hello" |
| MemoStore.Memo.constructor | index.js:39-44 | a new memo has the given id, strings and creation time, and no update time |
| MemoStore.Store.constructor | index.js:9-10 | a new store is empty, has counter 1 and satisfies the invariant |
| MemoStore.Store.List | index.js:19-21 | the whole memo list, in insertion order, with the fields the store records |
| MemoStore.Store.FindIndex | index.js:80 | the scan returns the position of the first memo with the id, or -1 when there is none |
| MemoStore.Store.Find | index.js:51 | the memo object with the id, or null when there is none |
| MemoStore.Store.Create | index.js:23-47 | the store ends exactly as `MemoSpec.Create` describes; on success a fresh memo object is appended to the list; on failure nothing changes and the error is the chain's first failure; the invariant holds afterwards |
| MemoStore.Store.Update | index.js:49-76 | the store ends exactly as `MemoSpec.Update` describes; the list keeps the same objects in the same order; on success the returned object is the one found by id, rewritten in place; on failure nothing changes; the invariant holds afterwards |
| MemoStore.Store.Overwrite | index.js:72-74 | writing through the found reference changes that memo's title, content and update time and nothing else: every other memo object is distinct from it, so the other memos and the counter are unchanged |
| MemoStore.Store.Delete | index.js:78-88 | the store ends exactly as `MemoSpec.Delete` describes; on success the object at the found index is spliced out of the list; on failure nothing changes; the invariant holds afterwards |

## Left out

- Express wiring is not modelled: the JSON body parser and its 10 kB limit, static files,
  the `/hello` route, the port and `listen`.
- The error-handling middleware and console logging are not modelled. No modelled
  operation can fail in a way that would reach them.
- HTTP status codes and the Korean error messages are not modelled. They appear as the
  `Failure` and `StoreError` enums: 400 is `Invalid(failure)` and 404 is `NotFound`.
- The clock is not read. Each creation or update time is a parameter of the operation.
- The route parameter's `Number(...)` conversion is not modelled. The id is already an
  integer, so a non-numeric id (NaN), which matches no memo, is not represented separately.
- The JavaScript truthiness and `typeof` tests collapse into the `Missing`/`NotString`/`Text`
  shapes. Values such as `0`, `false` or `null` all land in the first two shapes, which the
  chain reports as "required".
- Strings are sequences of characters, and length counts characters. JavaScript counts
  UTF-16 code units, so characters outside the Basic Multilingual Plane count once here but
  twice there.
- Trimming removes the ECMAScript whitespace and line-terminator code points, written out as
  a set. Unicode version differences in that set are not modelled.
- Ids and the counter are unbounded integers. In the service they are JavaScript numbers:
  once the counter reaches 2^53, `nextId++` no longer changes it, so every later create
  reuses that id and lookups find only the first such memo. The invariant that ids strictly
  increase, and the property that ids are never reissued, hold only below that bound.
- Concurrency is not modelled: each handler runs to completion on its own.
- MemoSpec.TrimmedOnCreate checks only the stored title. The content is covered in general
  by MemoSpec.CreateAppends.
