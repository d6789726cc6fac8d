# User registration server: a Dafny model

A model of the core of a small Express registration server, with proofs about it.

- **The user store** (`store/userStore.js`) is the class `Store.UserStore`. Its JavaScript `Map` is modelled as a key/value table `users` plus `insertionOrder`, the keys in the order a `Map` iterates them. The counter `currentId` hands out ids 1, 2, 3, … The class invariant `Valid()` states that the records, in insertion order, carry ids 1 … `currentId - 1`. `create` post-increments the counter and `set`s the record. With ids as unbounded naturals it never overwrites (see "Left out" for JavaScript number precision), and it does NOT check that the email is unused. `findByEmail` is a loop that returns the first exact match. `getAll` lists the records in insertion order.
- **The validators** (`server.js`) are in module `Validation`. `ValidateEmail` hand-codes the regular expression `^[^\s@]+@[^\s@]+\.[^\s@]+$` as a scan: find the first `@`, then check the local part and the domain. It is proved equal to `MatchesEmailPattern`, which states the regular expression directly: the string splits as `L@D1.D2` with every part non-empty and free of `@` and of JavaScript's `\s` (`IsWhitespace`, the ECMAScript white-space and line-terminator code points). `ValidatePassword` is the minimum-length test, with `MIN_PASSWORD_LENGTH = 6`.
- **The `POST /register` handler** is `Server.Register`, a method over the store. It runs the checks in source order and returns early on the first failure. The pure function `Server.Decide` states the same decision over the store's records. `Register` is proved to return `Decide`'s outcome. A rejected submission (400, 409 or 500) leaves the store untouched, counter included (below the JavaScript limits named under "Left out"). Only a full success calls `create`.
- **The `GET /users` listing** is `Server.GetUsers` with `Server.ListUsers`. The listing drops the password field.

Emails are unique among stored records only because the handler checks before it creates; the store itself keeps duplicates (`Store.CreateSameEmailTwice`). Uniqueness is proved to hold when registrations are handled one after another (`Server.RegisterKeepsEmailsUnique`). It does not hold under the concurrent interleaving described under "Left out".

The bcrypt hash is a parameter of type `Hasher = (string, nat) -> Option<string>`; `None` is a failed hash. The creation time is a parameter too.

## Model

| member | source | states |
|---|---|---|
| `Store.UserStore.Valid` | store/userStore.js:2-5 | definition of the store invariant: ids 1..`currentId-1` in insertion order, each the key of its own record; established by the constructor, kept by `Create`, relied on by `FindByEmail` and `GetAll` |
| `Store.UserStore.Records` | store/userStore.js:29 | definition of the records as `users.values()` yields them, in insertion order; properties proved in `Store.UserStore.Create` and `Store.UserStore.GetAll` |
| `Store.FindFirst` | store/userStore.js:7-14 | definition of the reference lookup (earliest exact email match); properties proved in `Store.FindFirstNone`, `Store.FindFirstIsFirstMatch`, `Store.FindFirstSome` and `Store.FindFirstAppend` |
| `Store.UserStore.constructor` | store/userStore.js:2-5 | a new store has an empty map, an empty iteration order and `currentId == 1`, so it lists no records |
| `Store.UserStore.FindByEmail` | store/userStore.js:7-14 | the loop returns None exactly when no record's email equals the argument; otherwise it returns the record at the earliest matching position in insertion order; it agrees with `FindFirst`; it changes nothing (no `modifies`) |
| `Store.FindFirstNone` | store/userStore.js:7-14 | the lookup finds nothing if and only if no record carries the email |
| `Store.FindFirstIsFirstMatch` | store/userStore.js:7-14 | if position k holds the earliest exact match, the lookup returns the record at k |
| `Store.FindFirstSome` | store/userStore.js:8-10 | a found record sits at a position holding the earliest exact match |
| `Store.UserStore.Create` | store/userStore.js:16-26 | the returned record has id = old `currentId` and the given email, password and time; `currentId` grows by exactly 1; the new id was not a key before, so `set` adds one entry and every earlier record is unchanged; the records become the old records plus the new one at the end; the invariant (ids 1..currentId-1 in insertion order) is kept |
| `Store.UserStore.GetAll` | store/userStore.js:28-30 | returns the records in insertion order; their number is `currentId - 1`, one per `create` call; ids strictly increase along the list, all lie in `1..currentId-1`, and each is the key of its record; it changes nothing |
| `Store.FindFirstAppend` | store/userStore.js:7-25 | adding a record never changes an answer the lookup already gave; the new record is found only when no earlier record has its email |
| `Store.CountEmailAppend` | store/userStore.js:16-25 | adding a record raises the count of its own email by one and leaves every other email's count unchanged |
| `Store.CountEmailNoMatch` | store/userStore.js:7-14 | an email that no record carries has count zero |
| `Store.CreateSameEmailTwice` | store/userStore.js:16-25 | two creates with the same email keep both records, with increasing ids; that email's count rises by two; the lookup returns the first of them, or the earlier record if one already existed |
| `Validation.MatchesEmailPattern` | server.js:15 | definition of the regular expression's language: the string splits as `L@D1.D2` with each part matching `[^\s@]+`; properties proved in `Validation.ValidateEmailMatchesPattern` |
| `Validation.ValidateEmail` | server.js:14-17 | definition of `validateEmail` as a scan for the first '@' followed by local-part and domain checks; properties proved in `Validation.ValidateEmailMatchesPattern`, `Validation.AcceptedEmailHasOneAt`, `Validation.AcceptedEmailHasNoWhitespace` and `Validation.NotAnEmailRejected` |
| `Validation.AcceptedMatchesPattern` | server.js:14-17 | every string that `ValidateEmail` accepts matches `^[^\s@]+@[^\s@]+\.[^\s@]+$` |
| `Validation.PatternIsAccepted` | server.js:14-17 | every string that matches the regular expression is accepted by `ValidateEmail` |
| `Validation.ValidateEmailMatchesPattern` | server.js:14-17 | `ValidateEmail` accepts exactly the strings of the form `L@D1.D2`, with L, D1 and D2 non-empty and free of whitespace and '@' |
| `Validation.MatchAtIsAccepted` | server.js:14-17 | a string that splits at a given '@' and '.' into three parts matching `[^\s@]+` is accepted |
| `Validation.ComposedEmailAccepted` | server.js:14-17 | `L + "@" + D1 + "." + D2` is accepted whenever L, D1 and D2 are non-empty and free of whitespace and '@' |
| `Validation.AcceptedEmailHasOneAt` | server.js:14-17 | an accepted email contains exactly one '@' |
| `Validation.AcceptedEmailHasNoWhitespace` | server.js:14-17 | an accepted email contains no whitespace character |
| `Validation.NotAnEmailRejected` | server.js:14-17 | `"not-an-email"` is rejected |
| `Validation.IndexOf` | server.js:15 | the index returned is the first occurrence of the character, or the length when there is none |
| `Validation.ValidatePassword` | server.js:19-21 | accepts exactly the strings of length at least 6; the truthiness test is subsumed, so every accepted password is non-empty |
| `Server.Missing` | server.js:93 | definition of `!email` / `!password` for a string field: absent or empty; properties proved in `Server.StatusFollowsCheckOrder` |
| `Server.ReplyFor` | server.js:94-126 | definition of the status code and `success`/`error` class each early return passes to `sendHtmlResponse` (400, 400, 400, 409, 500 with `error`; 201 with `success`); properties proved in `Server.StatusFollowsCheckOrder` |
| `Server.Decide` | server.js:93-121 | definition of the handler's decision chain over the store's records and next id; properties proved in `Server.StatusFollowsCheckOrder`, `Server.RegisteredRecord`, `Server.RegisterKeepsEmailsUnique` and `Server.SequentialDuplicate`, and tied to the handler by `Server.Register` |
| `Server.After` | server.js:112-115 | definition of the store's records after an outcome (one record appended only on success); properties proved in `Server.RegisterKeepsEmailsUnique` and `Server.SequentialDuplicate` |
| `Server.StatusFollowsCheckOrder` | server.js:93-127 | each rejection is the first failing check in source order: MissingField iff a field is missing; InvalidEmailFormat iff both are present and the email fails; PasswordTooShort iff both are present, the email passes and the password fails; EmailAlreadyRegistered iff validation passes and some record has the email; the status is 400 iff a field is missing or a validation fails; 409 iff validation passes and some record has the email; 500 iff validation passes, the email is new and hashing fails; 201 iff validation passes, the email is new and hashing succeeds; the `success` class is used exactly for 201 |
| `Server.RegisteredRecord` | server.js:105-121 | a registration succeeds iff every check passes, the email is unused and the hash succeeds; the new record carries the next id, the submitted (valid) email, the hash output as its password field, and the clock reading |
| `Server.RegisterKeepsEmailsUnique` | server.js:105-115 | if stored emails are pairwise distinct before a sequential submission, they are pairwise distinct after it |
| `Server.SequentialDuplicate` | server.js:105-108 | after one email is registered, a second submission with that email is not registered; with a valid password the second reply is 409; the store then holds exactly one record with that email |
| `Server.Register` | server.js:89-128 | the handler's outcome equals `Decide` on the store as it was; the reply is the outcome's status and success class; every non-success leaves the store unchanged, counter included; a success appends exactly the new record and advances the counter by one |
| `Server.RegisterTwice` | server.js:105-108 | on the live store, a valid email registered and then submitted again gets 201 and then 409; the store ends as the old records plus the one new record (old id, the email, the hash of the first password, the first clock reading) with the counter advanced by exactly one, so the 409 left the store as it was; exactly one record with that email remains |
| `Server.ListUsers` | server.js:131-135 | definition of the `.map` projection to `{id, email, createdAt}`; properties proved in `Server.ListUsersAt` and `Server.ListUsersHidesPasswords` |
| `Server.ListUsersAt` | server.js:130-135 | the listing has one entry per stored record, in store order; each entry holds only that record's id, email and createdAt |
| `Server.ListUsersHidesPasswords` | server.js:130-135 | two stores that differ only in their password fields give identical listings, so the hash never reaches the output |
| `Server.GetUsers` | server.js:130-141 | `GET /users` always answers 200 with `success: true` and one entry per record (`currentId - 1` of them), each the record's id, email and createdAt |

## Left out

- Express plumbing is not modelled: body parsing middleware, routing, the static `GET /register` form, `app.listen` and `console` logging. These are I/O and framework glue.
- HTML templating in `sendHtmlResponse` is not modelled. A reply is reduced to its status code and whether it uses the `success` class; the message texts are not modelled.
- bcrypt is not modelled. It is the `Hasher` parameter, an opaque function that may fail. Salt randomness is folded into the function supplied for the call.
- Clock readings are not modelled. `createdAt` is a parameter, and the `toLocaleString` formatting of the 201 message is left out.
- Concurrency is not modelled. Two submissions interleaving across the `await` of the hash can both pass the duplicate check and store the same email twice. `Server.Register` is one sequential step, so `Server.RegisterKeepsEmailsUnique` covers only sequential handling.
- The exported singleton (`module.exports = new UserStore()`) is an explicit `UserStore` object passed to the handler.
- Object aliasing is not modelled. Every store operation hands out the very objects stored in the map: `create` returns the stored object, `findByEmail` returns one of them, and `getAll` returns a new array holding the same objects. A caller mutating any of them would change the stored record. The model hands out record values.
- Non-string JSON body values (numbers, booleans, arrays) are not modelled. A body field is an optional string, and "missing" means absent or empty.
- Validation.ValidatePassword: counts Unicode scalar values. JavaScript's `length` counts UTF-16 code units, so a password with characters outside the Basic Multilingual Plane can pass in JavaScript with fewer than 6 characters.
- Store.UserStore.Create: ids are unbounded naturals and the map has no size limit. JavaScript number precision and the runtime's `Map` size limit are not modelled, so `create` never fails and never reuses an id. In JavaScript, `currentId++` stops advancing at 2^53, after which `users.set` would overwrite a record. A `set` that throws at the engine's `Map` size limit runs after `currentId++`, so the handler would answer 500 with the counter already advanced.
- Server.Register: "every non-success leaves the store unchanged, counter included" holds only below the id-precision and `Map` size limits described in the line above, which the model does not have.
- A general regular-expression engine is not modelled. Only the one pattern is written out by hand.
