# Social-media backend: accounts and messages

A Dafny model of the service and data-access layers of a small social-media backend.
Users register and log in with a username and password. They post short text messages that can be
listed, fetched, updated and deleted.

The model follows the Java packages:

- `Model` (`model.dfy`): the `Account` and `Message` records.
- `AccountStore` / `MessageStore` (`account_store.dfy`, `message_store.dfy`): the DAO classes.
  In the Java code a DAO has no fields: every call opens a connection to one process-wide
  database. In the model each `AccountDAO` / `MessageDAO` object holds its own table in memory:
  the rows in insertion order, plus the auto-increment counter `nextId` that issues keys (the
  first key is 1). Two services share a table only when they are given the same DAO object. Every
  SQL statement becomes an operation on that state:
  - an insert appends a row under a fresh key;
  - a lookup is a function that `reads` the table;
  - the two list queries are loops that collect rows one at a time, as the `while (rs.next())` loops do;
  - delete and update rewrite the table and report whether any row was affected.

  `Valid()` keeps the keys positive, below the counter and ascending, so they are unique.
- `AccountServices` / `MessageServices` (`account_services.dfy`, `message_services.dfy`): the service
  classes. Each one has its DAO as a `const` field. The validation rules are functions that return an
  `Outcome` naming the first check that failed. The operations that write go through the DAO's methods.
- `Text` (`text.dfy`): `String.trim` and `String.isBlank` over a single whitespace predicate.
- `Wrappers` (`wrappers.dfy`): `Option` replaces Java's `null` results. `Result.Failure` replaces
  the `RuntimeException` a service throws.

Storage failures that the source handles in a visible way are explicit boolean parameters:

- `fault` for an insert: nothing is written, and the input comes back without a key, as the
  `catch` blocks do.
- `fault` / `probeFault` for the username probe: the probe reports "exists", so registration
  fails closed.

Behaviour of the code that the model keeps as written, though a reader might expect otherwise:

- Deleting a message issues the `DELETE` directly and returns whether a row was affected. It does
  not look the message up first or return the deleted record.
- Updating a message overwrites `posted_by`, `message_text` and `time_posted_epoch` with the values
  the caller supplies. The author and time stay the same only when the caller echoes them back
  (`OverwriteEchoingFieldsChangesOnlyText`). An update of an absent key returns `false`; it does not
  throw.
- The text limit is `length > 254`, so 254 characters pass and 255 fail.
- `checkUsernameExists` fails closed: a failed query reports that the username exists.

## Model

| member | source | states |
|---|---|---|
| `Text.Trim` | src/main/java/Service/AccountService.java:43-44 | the result is no longer than the input; it is empty iff the input is blank; otherwise it neither starts nor ends with whitespace; a string with no whitespace at its ends is returned as it is |
| `Text.TrimStripsEndRuns` | src/main/java/Service/AccountService.java:43-44 | `Trim` removes only a whitespace run at each end: its result is a slice `s[a..b]` of the input, and everything before `a` and from `b` on is whitespace |
| `AccountStore.AccountDAO.Insert` | src/main/java/DAO/AccountDAO.java:19-43 | on success: the account comes back with the newly generated key and its username and password unchanged; that key was used by no earlier row; the row is appended and the counter advances; the username now exists; the key reads the row back; when the username was new, logging in with the same credentials returns the row and unique usernames stay unique. On a fault: the input comes back unchanged and the table is untouched |
| `AccountStore.AccountDAO.CheckUsernameExists` | src/main/java/DAO/AccountDAO.java:49-67 | true iff some row has exactly that username, or the query failed (fails closed) |
| `AccountStore.AccountDAO.ValidateLogin` | src/main/java/DAO/AccountDAO.java:75-103 | a returned account is a stored row whose username and password equal the supplied ones exactly; an unknown username gives none; with unique usernames, an account is returned iff a row matches both fields |
| `AccountStore.AccountDAO.GetAccountByID` | src/main/java/DAO/AccountDAO.java:110-134 | a stored row with that key, or none iff no row has it |
| `MessageStore.PostedBy` | src/main/java/DAO/MessageDAO.java:164-176 | a message is in the result iff it is a row whose `posted_by` equals the account; the result is empty iff no row has that author |
| `MessageStore.PostedByCounts` | src/main/java/DAO/MessageDAO.java:164-176 | each row by the account appears in the result exactly as often as in the table, and no other row appears |
| `MessageStore.PostedByKeepsKeyOrder` | src/main/java/DAO/MessageDAO.java:164-176 | over a table with ascending keys, the result lists its rows in ascending key order, i.e. in table order |
| `MessageStore.WithoutId` | src/main/java/DAO/MessageDAO.java:115-120 | after the delete, a message remains iff it was a row with another key; deleting an absent key leaves the table identical |
| `MessageStore.WithoutIdKeepsKeysValid` | src/main/java/DAO/MessageDAO.java:115-120 | deleting rows keeps the keys positive, below the counter and ascending |
| `MessageStore.Overwrite` | src/main/java/DAO/MessageDAO.java:138-146 | same number of rows; every row keeps its key; rows with other keys are unchanged; the row with that key takes the author, text and time of the supplied message |
| `MessageStore.OverwriteEchoingFieldsChangesOnlyText` | src/main/java/DAO/MessageDAO.java:138-146 | when the supplied author and time equal the stored ones, the update changes only the text |
| `MessageStore.MessageDAO.Insert` | src/main/java/DAO/MessageDAO.java:21-46 | on success: a new message with a key no earlier row used and the input's author, text and time; the row is appended and reads back by its key. On a fault: the input comes back and the table is untouched |
| `MessageStore.MessageDAO.GetAllMessages` | src/main/java/DAO/MessageDAO.java:52-76 | the collected list is every row of the table, in table order |
| `MessageStore.MessageDAO.GetMessageByID` | src/main/java/DAO/MessageDAO.java:82-104 | a stored row with that key, or none iff no row has it |
| `MessageStore.MessageDAO.NeverIssuedKeyIsAbsent` | src/main/java/DAO/MessageDAO.java:82-104 | a key the counter has not issued finds no message |
| `MessageStore.MessageDAO.Delete` | src/main/java/DAO/MessageDAO.java:111-126 | true iff a row had the key of `msg`; afterwards no row has it, the other rows remain, and an absent key leaves the table unchanged |
| `MessageStore.MessageDAO.Update` | src/main/java/DAO/MessageDAO.java:134-152 | true iff row `id` existed; afterwards that row carries the supplied author, text and time under its own key; no key appears or disappears; an absent key leaves the table unchanged |
| `MessageStore.MessageDAO.GetAllMessagesByAccountID` | src/main/java/DAO/MessageDAO.java:159-184 | the collected list is the filter `PostedBy` of the table: by `PostedByCounts` and `PostedByKeepsKeyOrder`, each row with that author exactly once, in table order |
| `AccountServices.AccountService.constructor` | src/main/java/Service/AccountService.java:9-11 | a service over a new DAO object whose own table starts empty |
| `AccountServices.AccountService.WithDAO` | src/main/java/Service/AccountService.java:13-15 | a service over the given DAO |
| `AccountServices.AccountService.ValidateAccount` | src/main/java/Service/AccountService.java:41-60 | the checks in order: a blank username is refused first; then a trimmed password shorter than 4 (4 passes); then a username that exists untrimmed, or a probe that failed. It passes iff none of these applies |
| `AccountServices.AccountService.CreateAccount` | src/main/java/Service/AccountService.java:23-34 | fails iff validation fails, and then the table is unchanged. On success the stored account has the username and password exactly as supplied (untrimmed) under the counter's key, and the counter advances by one; the same username is then taken, and logging in with the same credentials returns the new account; usernames stay unique |
| `AccountServices.RegisterTwice` | src/main/java/Service/AccountService.java:29 | registering the same account twice in a row with no storage fault: when the first attempt succeeds, the second fails |
| `AccountServices.AccountService.Login` | src/main/java/Service/AccountService.java:68-74 | a returned account is stored with exactly the supplied username and password; with unique usernames (kept by registration), an account is returned iff one matches both |
| `AccountServices.AccountService.GetAccountByID` | src/main/java/Service/AccountService.java:82-89 | the stored account with that key, or none iff there is none |
| `MessageServices.CheckText` | src/main/java/Service/MessageService.java:116-121 | passes iff the text has a non-whitespace character and at most 254 characters (so 1 to 254); blank text is refused first, then text longer than 254 |
| `MessageServices.ValidateNewMessage` | src/main/java/Service/MessageService.java:46-62 | passes iff the text rule passes and the account is present; a text failure is reported before a missing account |
| `MessageServices.MessageService.constructor` | src/main/java/Service/MessageService.java:12-14 | a service over a new DAO object whose own table starts empty |
| `MessageServices.MessageService.WithDAO` | src/main/java/Service/MessageService.java:16-18 | a service over the given DAO |
| `MessageServices.MessageService.CreateMessage` | src/main/java/Service/MessageService.java:27-38 | fails iff validation fails, and then nothing is inserted; on success the stored message has the input's author, text and time under the counter's key, and the counter advances by one |
| `MessageServices.MessageService.GetAllMessages` | src/main/java/Service/MessageService.java:69-75 | every message in the table |
| `MessageServices.MessageService.GetMessageByID` | src/main/java/Service/MessageService.java:83-89 | the stored message with that key, or none iff there is none |
| `MessageServices.MessageService.DeleteMessageByID` | src/main/java/Service/MessageService.java:97-104 | true iff a message with that key existed; afterwards it is gone and nothing else changes |
| `MessageServices.MessageService.UpdateMessageByID` | src/main/java/Service/MessageService.java:113-128 | invalid text fails before the table is touched; otherwise true iff the message existed, and the row then carries the supplied author, text and time |
| `MessageServices.MessageService.GetAllMessagesByAccountID` | src/main/java/Service/MessageService.java:136-142 | the store's list passed through unchanged (`PostedBy` of the table): exactly the messages whose author is the account, each once, in table order; empty iff it has none |

## Left out

- The HTTP controller (`src/main/java/Controller/SocialMediaController.java`). Every handler is a stub that writes a fixed string. Javalin routing and JSON mapping go with it.
- JDBC mechanics: connections, statement binding and result-set iteration as an API. The tables are in memory, so the SQL parameter binding has no counterpart.
- Storage failures other than the three explicit fault flags. A failed lookup returns `null`, which cannot be told apart from "absent". A failed list query returns the rows collected so far. A failed delete or update returns `false`.
- An insert whose statement succeeds but returns no generated key. The model's fault writes nothing, but the database could keep such a row.
- Exception messages, and the re-wrapping of exceptions in the services. A service call either succeeds or fails, and the reason for a validation failure is kept only in `ValidateAccount`, `CheckText` and `ValidateNewMessage`.
- `null` fields in incoming records; strings in the model are never null. In registration, message creation and message update, a null field raises a `NullPointerException`, which the service turns into a failure. At login, a null username finds no row and a null password never equals the stored one, so the result is none.
- `AccountServices.AccountService.constructor`: the model gives each DAO object its own table and starts the no-argument constructor from an empty database. In the Java code `new AccountDAO()` is a handle on the shared database, which may already hold accounts; so a registration the model accepts there could fail on a username already in the database. Sharing is modelled only by passing one DAO to `WithDAO`.
- `MessageServices.MessageService.constructor`: the model gives each DAO object its own table and starts the no-argument constructor from an empty database. In the Java code `new MessageDAO()` is a handle on the shared database, which may already hold messages. Sharing is modelled only by passing one DAO to `WithDAO`.
- Row order of query results. `SELECT * FROM message`, `... WHERE posted_by = ?` and the username lookup behind `validateLogin` have no `ORDER BY`, so the database promises no order. The model returns rows in table (insertion) order, and `validateLogin` checks the first row in that order.
- Concurrency. The model is sequential, so the race between the username probe and the insert cannot occur. `UniqueUsernames` holds only because every registration goes through `CreateAccount` one at a time.
- Java string details. `trim` removes every character up to U+0020 and `isBlank` uses `Character.isWhitespace`. The model uses one whitespace set that both recognise. `length()` counts UTF-16 code units, while the model counts characters.
- Integer widths. Keys and `posted_by` are Java `int` and the timestamp is a `long`; the model uses unbounded integers, so key exhaustion is not modelled.
- In-place update of the caller's `Account` object by `setAccount_id`. The model returns the updated value instead. The service always passes a freshly built account, so no other reference can observe the change.
- `Model.Account` and `Model.Message` are not part of this model as source. Their fields are inferred from how the DAOs build and read them.
- Plain-text password storage and comparison is reproduced as it is.
