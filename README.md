# milou mailbox engine — a Dafny model

milou is a small personal-mailbox system. Registered users send messages to
one another by address. Each stored message gets a six-character code, and
users read, reply to and forward messages by that code. The model covers
the messaging core:

- **Entities.** `User`, `Email` and `EmailRecipient` are classes. Their
  constructors and setters assign fields as the Java entities do.
- **Store.** The database behind them is a `Store` class with three row
  tables: `users`, `emails` and `email_recipients`.
  - Its `Valid()` predicate holds the schema's constraints: identity ids,
    unique user address, unique message code, unique
    `(email_id, recipient_id)` pair, and foreign keys in range.
  - Each insert either applies completely or rejects with the violated
    constraint and changes nothing. This is the transaction boundary of
    every service operation.
- **User service.** Address normalisation, lookup by address,
  registration and login.
- **Email service.** Send, reply, forward, read by code, the three mailbox
  listings (received, unread, sent) and the code generator.

The recipient rules are pure functions in `Derivation`, each with lemmas
that pin it down:

- how send splits, trims, normalises and resolves its raw recipient list;
- how reply picks its audience: no replier, no repeats, first-seen order;
- how forward selects users by address-set membership.

`Mailbox` defines the listings as selections of the `emails` table in
newest-first order. It proves how reading a message changes them.

## Model

| member | source | states |
|---|---|---|
| Text.ToLower | src/main/java/org/example/model/User.java:49-51 | the result has the input's length and no upper-case letter; every upper-case ASCII letter becomes the letter 32 code points above it, its lower-case partner; every other character is kept; an all-lower-case input is returned unchanged |
| Text.ToLowerIdempotent | src/main/java/org/example/model/User.java:49-51 | lower-casing twice equals lower-casing once |
| Text.Trim | src/main/java/org/example/services/EmailService.java:22 | the result is the infix `s[a..b]` of the input such that every character before `a` or from `b` on is at or below U+0020, and it neither starts nor ends with such a character; an input with no such character is returned unchanged |
| Text.Split | src/main/java/org/example/services/EmailService.java:18 | Java's `split("[,\\s]+")`: an input with no separator gives the one-element list of itself; no piece holds a separator; only the first piece can be empty; the pieces concatenate to the input without its separators |
| Text.SplitInterleaved | src/main/java/org/example/services/EmailService.java:18 | the split cuts exactly at separator runs: separator-free non-empty pieces glued by non-empty separator runs, with optional runs before and after, split back into those pieces; a leading run adds one empty piece in front and a trailing run adds nothing |
| Text.SplitOnlySeparators | src/main/java/org/example/services/EmailService.java:18 | a non-empty string made only of separators splits into no pieces |
| Crypto.HashPassword | src/main/java/org/example/model/User.java:57-63 | a digest made from a password verifies that password |
| MessageStore.FindUser | src/main/java/org/example/services/UserService.java:58-67 | a found row is a stored user with exactly that address; when nothing is found, no stored user has the address |
| MessageStore.FindUserUnique | src/main/java/org/example/model/User.java:26-27 | under the unique-address constraint, looking up a stored user's address finds that very user |
| MessageStore.FindEmail | src/main/java/org/example/services/EmailService.java:97-103 | a found row is a stored message with that code; when nothing is found, no stored message has it |
| MessageStore.HasLink | src/main/java/org/example/services/EmailService.java:112-120 | some link joins the message to the user |
| MessageStore.RecipientIds | src/main/java/org/example/services/EmailService.java:196-202 | a user is listed exactly when a link joins them to the message |
| MessageStore.SetRead | src/main/java/org/example/services/EmailService.java:146-154 | the update keeps every link's message, recipient and read time, and the number of links |
| MessageStore.Store.Valid | src/main/java/org/example/model/EmailRecipient.java:8-10 | the schema's constraints: identity ids, unique user address (User.java:26-27), unique message code (Email.java:21-22), unique `(email_id, recipient_id)` pair, and foreign keys in range |
| MessageStore.NewLinksPairsUnique | src/main/java/org/example/model/EmailRecipient.java:8-10 | the links a message gets break the pair constraint exactly when a recipient is listed twice |
| MessageStore.Store.InsertUser | src/main/java/org/example/services/UserService.java:29-30 | a taken address is rejected with nothing changed; otherwise exactly one row, with the next id, is appended; the constraints keep holding |
| MessageStore.Store.InsertEmail | src/main/java/org/example/model/Email.java:21-37 | a taken code or a recipient listed twice is rejected with nothing changed; otherwise one message row with the next id and one unread link per recipient, in order, are appended; the constraints keep holding |
| MessageStore.Store.MarkRead | src/main/java/org/example/services/EmailService.java:146-154 | only the links change, as `SetRead` says; the constraints keep holding |
| UserModel.User.CheckPassword | src/main/java/org/example/model/User.java:61-63 | the plain password verifies against the stored digest |
| UserModel.User.constructor | src/main/java/org/example/model/User.java:17-21 | the name is as given, the address is lower-cased, and the stored digest verifies the password |
| UserModel.User.SetName | src/main/java/org/example/model/User.java:41-43 | the name is replaced and address and digest are unchanged |
| UserModel.User.SetEmail | src/main/java/org/example/model/User.java:49-51 | the stored address is the lower-cased argument, and name and digest are unchanged |
| UserModel.User.SetPassword | src/main/java/org/example/model/User.java:57-59 | the new digest verifies the new password, and name and address are unchanged |
| EmailModel.Email.Empty | src/main/java/org/example/model/Email.java:37-39 | a message built with no arguments has no recipients |
| EmailModel.Email.constructor | src/main/java/org/example/model/Email.java:41-48 | every field is as given and the sending time is the clock reading |
| EmailModel.Email.SetSubject | src/main/java/org/example/model/Email.java:62-64 | the subject is replaced and the other five fields are unchanged |
| EmailModel.Email.SetBody | src/main/java/org/example/model/Email.java:70-72 | the body is replaced and the other fields are unchanged |
| EmailModel.Email.SetCode | src/main/java/org/example/model/Email.java:78-80 | the code is replaced and the other fields are unchanged |
| EmailModel.Email.SetSentAt | src/main/java/org/example/model/Email.java:86-88 | the sending time is replaced and the other fields are unchanged |
| EmailModel.Email.SetSender | src/main/java/org/example/model/Email.java:94-96 | the sender is replaced and the other fields are unchanged |
| EmailModel.Email.SetRecipients | src/main/java/org/example/model/Email.java:102-104 | the recipient list is replaced and the other fields are unchanged |
| EmailRecipientModel.EmailRecipient.constructor | src/main/java/org/example/model/EmailRecipient.java:32-36 | a new link joins the given message and user, is unread, has no read time, and is the row the store creates for that pair |
| EmailRecipientModel.EmailRecipient.SetRead | src/main/java/org/example/model/EmailRecipient.java:42-44 | only the read flag changes |
| EmailRecipientModel.EmailRecipient.SetReadAt | src/main/java/org/example/model/EmailRecipient.java:74-76 | only the read time changes |
| EmailRecipientModel.EmailRecipient.SetEmail | src/main/java/org/example/model/EmailRecipient.java:58-60 | only the message changes |
| EmailRecipientModel.EmailRecipient.SetRecipient | src/main/java/org/example/model/EmailRecipient.java:66-68 | only the recipient changes |
| UserService.NormalizeEmail | src/main/java/org/example/services/UserService.java:54-56 | the result contains `@` and starts with the input; it equals the input exactly when the input contains `@`, and otherwise it is the input followed by `@milou.com` |
| UserService.NormalizeIdempotent | src/main/java/org/example/services/UserService.java:54-56 | normalising a normalised address changes nothing |
| UserService.FindByEmail | src/main/java/org/example/services/UserService.java:58-67 | a result is the stored user whose address equals the normalised argument; there is no result exactly when no stored user has that address |
| UserService.Login | src/main/java/org/example/services/UserService.java:36-52 | there is a result exactly when a stored user has the normalised address and the password verifies against their digest; that user is the result |
| UserService.Register | src/main/java/org/example/services/UserService.java:10-34 | a password under 8 characters is refused; an exactly matching stored address is refused as taken; a stored lower-cased address is refused by the store; success happens exactly when the password is long enough and both forms are free; success appends one user with the given name, the lower-cased normalised address and a digest that verifies; a refusal changes nothing; lower-case addresses stay lower case |
| CodeAllocator.GenerateRandomCode | src/main/java/org/example/services/EmailService.java:342-350 | the result has six characters, each from `[a-z0-9]` |
| CodeAllocator.GenerateUniqueCode | src/main/java/org/example/services/EmailService.java:328-340 | a returned code is well formed and no stored message holds it |
| Derivation.ResolveTokens | src/main/java/org/example/services/EmailService.java:21-33 | the result is no longer than the token list, and every user in it is stored |
| Derivation.ResolveTokensAppend | src/main/java/org/example/services/EmailService.java:21-33 | resolution keeps token order: the recipients of `a + b` are those of `a` followed by those of `b` |
| Derivation.ResolveTokensSingle | src/main/java/org/example/services/EmailService.java:27-32 | one token contributes the user it names, or nothing when it names no stored user |
| Derivation.ResolveTokensMembers | src/main/java/org/example/services/EmailService.java:21-33 | a user is a recipient exactly when some token's address resolves to them |
| Derivation.ResolveTokensEmpty | src/main/java/org/example/services/EmailService.java:35-38 | the recipient list is empty exactly when no token resolves |
| Derivation.ResolveTokensKeepsRepeats | src/main/java/org/example/services/EmailService.java:21-33 | each user occurs in the recipient list as often as tokens name them |
| Derivation.ReplyRecipients | src/main/java/org/example/services/EmailService.java:204-213 | the reply audience is no longer than the candidate list, never holds the replier, and holds only candidates |
| Derivation.ReplyRecipientsMembers | src/main/java/org/example/services/EmailService.java:204-213 | the reply goes to every candidate except the replier and to no one else, and nobody is listed twice |
| Derivation.ReplyRecipientsFirstSeen | src/main/java/org/example/services/EmailService.java:204-213 | reply recipients appear in the order of their first occurrence among the candidates |
| Derivation.ReplyStartsWithSender | src/main/java/org/example/services/EmailService.java:205-207 | when the replier did not send the original, its sender comes first |
| Derivation.NormalizeAll | src/main/java/org/example/services/EmailService.java:267-269 | the list keeps its length, and each entry is the normalised entry at the same position |
| Derivation.NormalizeAllIdempotent | src/main/java/org/example/services/EmailService.java:267-269 | normalising the list twice equals normalising it once |
| Derivation.UsersWithEmailIn | src/main/java/org/example/services/EmailService.java:287-290 | forward's selection is no longer than the users table, and each selected id belongs to a stored user whose address is in the list |
| Derivation.UsersWithEmailInMembers | src/main/java/org/example/services/EmailService.java:287-290 | forward's recipients are exactly the stored users whose address is in the list, each once, all with stored ids, in increasing id (table) order |
| Mailbox.InsertBySentAt | src/main/java/org/example/services/EmailService.java:57 | inserting into a newest-first list keeps it newest first, one longer, headed by the new message or the old head |
| Mailbox.InsertBySentAtPermutes | src/main/java/org/example/services/EmailService.java:57 | inserting adds exactly the one message to the list's contents |
| Mailbox.SortBySentAt | src/main/java/org/example/services/EmailService.java:57 | the result is newest first and as long as the input |
| Mailbox.SortBySentAtPermutes | src/main/java/org/example/services/EmailService.java:57 | the result is a permutation of the input |
| Mailbox.Received | src/main/java/org/example/services/EmailService.java:51-62 | the received listing is newest first, holds exactly the stored messages linked to the user, and holds each of them as often as the table does |
| Mailbox.Unread | src/main/java/org/example/services/EmailService.java:64-77 | the unread listing is newest first, holds exactly the stored messages with an unread link to the user, and holds each of them as often as the table does |
| Mailbox.HasUnreadLink | src/main/java/org/example/services/EmailService.java:69-71 | a link joins the message to the user and its read flag is false |
| Mailbox.UnreadWithinReceived | src/main/java/org/example/services/EmailService.java:64-77 | the unread listing is the received listing cut down to messages whose link is unread |
| Mailbox.Authored | src/main/java/org/example/services/EmailService.java:79-93 | the sent listing's messages are newest first, are exactly the stored messages the user sent that have at least one link, and occur as often as in the table |
| Mailbox.ListingsHaveNoRepeats | src/main/java/org/example/services/EmailService.java:51-93 | over a valid messages table no listing (received, unread, sent) shows a message twice |
| Mailbox.RecipientAddresses | src/main/java/org/example/services/EmailService.java:130-137 | one address per link of the message, and an address is listed exactly when a user linked to the message has it |
| Mailbox.Join | src/main/java/org/example/services/EmailService.java:139 | `String.join`: no parts give the empty string, one part gives itself, and the first part starts the result |
| Mailbox.JoinAppend | src/main/java/org/example/services/EmailService.java:139 | joining one more part appends the separator and that part |
| Mailbox.RecipientsColumnLists | src/main/java/org/example/services/EmailService.java:82 | the recipients column of a sent row joins each linked recipient's address exactly once |
| Mailbox.Dedup | src/main/java/org/example/services/EmailService.java:82 | the addresses keep their members and lose their repeats |
| Mailbox.Sent | src/main/java/org/example/services/EmailService.java:79-93 | one summary row per message of the sent listing; row `i` carries the subject and code of the `i`-th sent message, newest first |
| Mailbox.SentRowsDescribeAuthored | src/main/java/org/example/services/EmailService.java:79-93 | row `i` describes the `i`-th sent message: a stored message of the user, no older than the next row's, with its subject and code, and a recipients column that joins each linked recipient's address exactly once |
| Mailbox.SetReadOnlyRaises | src/main/java/org/example/services/EmailService.java:145-155 | reading sets the flag of the reader's own link, clears no flag, and leaves every other link as it was |
| Mailbox.SetReadIdempotent | src/main/java/org/example/services/EmailService.java:145-155 | reading a message twice leaves the links as reading it once |
| Mailbox.ReadLeavesUnread | src/main/java/org/example/services/EmailService.java:145-155 | after a user reads a message, it is gone from their unread listing and every other unread message is still there |
| Mailbox.ReadKeepsOtherListings | src/main/java/org/example/services/EmailService.java:145-155 | reading changes nobody's received listing and no other user's unread listing |
| EmailService.MayActOn | src/main/java/org/example/services/EmailService.java:110-125 | the user sent the message or a link joins them to it; read, reply and forward refuse everyone else |
| EmailService.LookUpRecipients | src/main/java/org/example/services/EmailService.java:21-33 | the lookup loop computes exactly the send recipients defined by `ResolveTokens` over the trimmed, normalised tokens |
| EmailService.CollectReplyRecipients | src/main/java/org/example/services/EmailService.java:204-213 | the audience loop computes exactly the reply audience defined by `ReplyRecipients` over the original sender followed by the original recipients |
| EmailService.NormalizeInPlace | src/main/java/org/example/services/EmailService.java:267-269 | the caller's array afterwards holds the normalised form of each entry, at the same position |
| EmailService.Deliver | src/main/java/org/example/services/EmailService.java:40-48 | the message is stored with the next id, a fresh well-formed code, the clock reading and one unread link per recipient; the only failures are an exhausted code draw and a repeated recipient, and they change nothing |
| EmailService.SendEmail | src/main/java/org/example/services/EmailService.java:17-49 | no resolvable recipient means nothing is stored; a user named twice makes the send fail; otherwise the message goes to exactly the resolved users, in token order, with a fresh code; every failure changes nothing; well-formed codes stay well formed |
| EmailService.ReplyToEmail | src/main/java/org/example/services/EmailService.java:160-249 | unknown code, an outsider, or an empty audience each store nothing and report their own error; otherwise a `[Re] `-prefixed message from the replier goes to the reply audience, with a fresh code |
| EmailService.ForwardEmail | src/main/java/org/example/services/EmailService.java:252-325 | unknown code leaves the caller's list untouched; otherwise the list is normalised in place before authorisation; an outsider or no matching users store nothing; otherwise a `[Fw] `-prefixed copy with the original body goes to the users whose address is in the list |
| EmailService.ReadEmailByCode | src/main/java/org/example/services/EmailService.java:95-157 | unknown code and outsiders see nothing; the sender or a recipient sees code, recipient addresses, subject, date and body; exactly a recipient's own link is marked read, and nothing else changes |

## Where the documented intent and the code differ

The model follows the code in each of these cases.

- Address resolution: the documented intent lower-cases a token before the lookup. `findByEmail` (UserService.java:58-67) only appends the default domain, so lookups compare addresses exactly.
- Read time: the documented intent records when a message is first read. The update in `readEmailByCode` sets only `is_read`, so `readAt` is never set.
- Code allocation: the documented intent bounds the number of draws and retries when the insert hits the code constraint. The source redraws without bound before inserting once. A collision at insert cannot happen in the model, because the code was checked against the same store.
- Registration conflicts: an address that differs from a stored one only in case passes the exact pre-check. The lower-cased insert then breaks the unique constraint. The model reports this as `StoreRejected(DuplicateEmail)`; Java lets the constraint exception propagate.
- Repeated recipients at send: the documented intent leaves this open. The code builds one join row per occurrence, so a user named twice breaks the `(email_id, recipient_id)` constraint inside the transaction of `sendEmail` (EmailService.java:40-48). Java lets that constraint exception propagate out of `sendEmail`, and `Main` does not catch it. The model reports it as `Err(Rejected(DuplicateLink))` and leaves the store unchanged, as the rolled-back transaction does.

## Left out

- The command-line menus and all console output are left out. Each operation's outcome is its result value: a `Result` carrying the stored row, the shown message, or a typed error.
- Hibernate, SQL and the session factory are left out. The database is the `Store` class with one atomic method per insert or update. The source gets atomicity from `inTransaction`.
- Lookups compare addresses character by character. A database collation that ignores case would make them case-insensitive; the database configuration is not part of this model.
- Rows come back from queries without an `order by` in link order or table order. This covers the original recipients of a reply, forward's `in` query and the read view's addresses. SQL leaves that order unspecified.
- Messages sent at the same instant keep table order in the listings. SQL leaves ties unordered.
- Text.ToLower: only ASCII letters are lower-cased. Java's locale-dependent Unicode case mapping is not modelled.
- Password lengths count characters, not UTF-16 code units.
- BCrypt is not modelled as a one-way hash. `Crypto.HashPassword` keeps the password inside the digest; the model relies only on a digest verifying the password it was made from. The random salt is a parameter.
- `java.util.Random` becomes a free choice of each drawn index. The clock (`LocalDateTime.now()`) becomes a `now` parameter, and `toLocalDate()` formatting is left out.
- CodeAllocator.GenerateUniqueCode: stops after `MaxDraws` (1000) draws and reports `CodeUnavailable`. The source redraws without bound; a terminating model needs a bound.
- Reply and forward draw a code and then check it again in their own do-while loop (EmailService.java:222-228 and 300-305). `GenerateUniqueCode` has already ensured the code is unused, so that loop always exits after one pass. The model calls `GenerateUniqueCode` once instead of keeping that loop.
- `readAt` is never set. The update in `readEmailByCode` sets only `is_read`, so `readAt` stays `None` in the model too.
- Java `null` fields are not modelled. The no-argument `Email()` leaves empty strings, sending time 0 and sender 0 where Java leaves `null`. The no-argument `User()` and `EmailRecipient()` constructors are not modelled.
- Entity ids and their `getId`/`setId` live in the store rows, not in the entity classes. An `Email`'s sender and recipients, and a link's message and user, are ids rather than object references. Getters and `toString` are left out.
- `printEmailList` only prints and is left out.
- `EmailService` calls `normalizeEmail` through a static import of a method that `UserService` declares as a private instance method. The model treats both as the one function `UserService.NormalizeEmail`.
- Forward with an empty address list is treated as selecting no user (`NoValidRecipients`). The source hands an empty `in (...)` list to the database, whose behaviour is not modelled.
- Mailbox.Sent: the recipients column is stated up to the order of the addresses: `GROUP_CONCAT(DISTINCT ...)` without `order by` leaves that order to the database.
- Concurrent callers are not modelled. Each operation runs alone against the store.
