/**
 * The message operations: send, reply, forward and read. Each one runs in
 * a single transaction, so a rejected operation leaves every table as it
 * was.
 */
module EmailService {
  import opened Wrappers
  import opened Text
  import opened Schema
  import opened MessageStore
  import opened UserService
  import opened CodeAllocator
  import opened Derivation
  import opened Mailbox
  import opened EmailModel

  /** Why a message operation did nothing. */
  datatype MailError =
    | NoValidRecipients   // no token or address named a stored user
    | EmailNotFound       // no stored message has the code
    | NotAllowed          // the caller neither sent nor received the message
    | NothingToReplyTo    // the reply would go to nobody but the replier
    | CodeUnavailable     // no unused code was drawn
    | Rejected(cause: StoreError)     // a uniqueness constraint refused the insert

  const ReplyPrefix: string := "[Re] "
  const ForwardPrefix: string := "[Fw] "

  /** `u` sent `e` or is one of its recipients. */
  predicate MayActOn(links: seq<RecipientLink>, e: EmailRecord, u: UserId) {
    e.sender == u || HasLink(links, e.id, u)
  }

  /** The recipients of a send: the users the raw list's tokens name, in order. */
  function SendRecipients(users: seq<UserRecord>, recipientsRaw: string): seq<UserRecord> {
    ResolveTokens(users, Addresses(Split(recipientsRaw)))
  }

  /**
   * The recipients of a reply: the original sender, then the original
   * recipients, without the replier and without repeats.
   */
  function ReplyAudience(links: seq<RecipientLink>, original: EmailRecord, replier: UserId): seq<UserId> {
    ReplyRecipients([original.sender] + RecipientIds(links, original.id), replier)
  }

  /** A stored message was sent by a stored user. */
  lemma SenderStored(store: Store, e: EmailRecord)
    requires store.Valid()
    requires e in store.emails
    ensures 1 <= e.sender <= |store.users|
  {
    var i :| 0 <= i < |store.emails| && store.emails[i] == e;
  }

  /** A stored user's id is in range. */
  lemma UserStored(store: Store, u: UserRecord)
    requires store.Valid()
    requires u in store.users
    ensures 1 <= u.id <= |store.users|
  {
    var i :| 0 <= i < |store.users| && store.users[i] == u;
  }

  /**
   * The lookup loop of `sendEmail`: each token trimmed, given the default
   * domain when it has no `@`, and looked up; users found are collected in
   * order, tokens naming nobody skipped.
   */
  method LookUpRecipients(store: Store, parts: seq<string>) returns (recipients: seq<UserRecord>)
    requires store.Valid()
    ensures recipients == ResolveTokens(store.users, Addresses(parts))
  {
    recipients := [];
    for i := 0 to |parts|
      invariant recipients == ResolveTokens(store.users, Addresses(parts[..i]))
    {
      var email := Trim(parts[i]);
      if '@' !in email {
        email := email + DefaultDomain;
      }
      var recipient := FindByEmail(store, email);
      ResolveNext(store.users, parts, i);
      assert recipient == Resolve(store.users, Address(parts[i]));
      if recipient.Some? {
        recipients := recipients + [recipient.value];
      }
    }
    assert parts[..|parts|] == parts;
  }

  /** Resolving one more token extends the recipient list by what that token names. */
  lemma ResolveNext(users: seq<UserRecord>, parts: seq<string>, i: nat)
    requires i < |parts|
    ensures var found := Resolve(users, Address(parts[i]));
      ResolveTokens(users, Addresses(parts[..i + 1])) ==
        ResolveTokens(users, Addresses(parts[..i])) + (if found.Some? then [found.value] else [])
  {
    var next := Addresses(parts[..i + 1]);
    assert next[..i] == Addresses(parts[..i]);
    assert next[i] == Address(parts[i]);
  }

  /**
   * The common tail of send, reply and forward: draw an unused code, build
   * the `Email` object (sent now), and persist it with one link per
   * recipient.
   */
  method Deliver(store: Store, subject: string, body: string, sender: UserId, recipients: seq<UserId>, now: int)
    returns (r: Result<EmailRecord, MailError>)
    requires store.Valid()
    requires 1 <= sender <= |store.users|
    requires forall u :: u in recipients ==> 1 <= u <= |store.users|
    modifies store
    ensures store.Valid()
    ensures store.users == old(store.users)
    ensures r.Err? ==> store.emails == old(store.emails) && store.links == old(store.links)
    ensures r.Err? ==> r == Err(CodeUnavailable) || (r == Err(Rejected(DuplicateLink)) && !Distinct(recipients))
    ensures !Distinct(recipients) ==> r.Err?
    ensures r.Ok? ==>
      && r.value == EmailRecord(|old(store.emails)| + 1, subject, body, r.value.code, now, sender)
      && IsCode(r.value.code) && FindEmail(old(store.emails), r.value.code).None?
      && store.emails == old(store.emails) + [r.value]
      && store.links == old(store.links) + NewLinks(r.value.id, recipients)
    ensures CodesWellFormed(old(store.emails)) ==> CodesWellFormed(store.emails)
  {
    var code := GenerateUniqueCode(store);
    if code.None? {
      return Err(CodeUnavailable);
    }
    var email := new Email(subject, body, sender, recipients, code.value, now);
    var saved := store.InsertEmail(email.subject, email.body, email.code, email.sentAt, email.sender, email.recipients);
    match saved
    case Ok(e) =>
      r := Ok(e);
    case Err(cause) =>
      r := Err(Rejected(cause));
  }

  /**
   * `sendEmail`: split the raw recipient list, resolve each token, and
   * store one message with a fresh code and one unread link per recipient.
   * A user named twice makes the store reject the message.
   */
  method SendEmail(store: Store, sender: UserRecord, recipientsRaw: string, subject: string, body: string, now: int)
    returns (r: Result<EmailRecord, MailError>)
    requires store.Valid()
    requires sender in store.users
    modifies store
    ensures store.Valid()
    ensures store.users == old(store.users)
    ensures SendRecipients(old(store.users), recipientsRaw) == [] ==> r == Err(NoValidRecipients)
    ensures !Distinct(Ids(SendRecipients(old(store.users), recipientsRaw))) ==> r.Err?
    ensures SendRecipients(old(store.users), recipientsRaw) != [] && r.Err? ==>
      || r == Err(CodeUnavailable)
      || (r == Err(Rejected(DuplicateLink)) && !Distinct(Ids(SendRecipients(old(store.users), recipientsRaw))))
    ensures r.Err? ==> store.emails == old(store.emails) && store.links == old(store.links)
    ensures r.Ok? ==>
      && r.value == EmailRecord(|old(store.emails)| + 1, subject, body, r.value.code, now, sender.id)
      && IsCode(r.value.code) && FindEmail(old(store.emails), r.value.code).None?
      && store.emails == old(store.emails) + [r.value]
      && store.links == old(store.links) + NewLinks(r.value.id, Ids(SendRecipients(old(store.users), recipientsRaw)))
    ensures CodesWellFormed(old(store.emails)) ==> CodesWellFormed(store.emails)
  {
    var recipients := LookUpRecipients(store, Split(recipientsRaw));

    if recipients == [] {
      return Err(NoValidRecipients);
    }

    UserStored(store, sender);
    forall id | id in Ids(recipients)
      ensures 1 <= id <= |store.users|
    {
      var k :| 0 <= k < |recipients| && Ids(recipients)[k] == id;
      UserStored(store, recipients[k]);
    }
    r := Deliver(store, subject, body, sender.id, Ids(recipients), now);
  }

  /**
   * The audience loop of `replyToEmail`: the original sender unless it is
   * the replier, then each original recipient that is neither the replier
   * nor already listed.
   */
  method CollectReplyRecipients(sender: UserId, originals: seq<UserId>, replier: UserId) returns (recipients: seq<UserId>)
    ensures recipients == ReplyRecipients([sender] + originals, replier)
  {
    recipients := [];
    if sender != replier {
      recipients := [sender];
    }
    assert [sender] + originals[..0] == [sender];
    assert [sender][..0] == [];
    for i := 0 to |originals|
      invariant recipients == ReplyRecipients([sender] + originals[..i], replier)
    {
      var u := originals[i];
      ReplyNext(sender, originals, replier, i);
      if u != replier && u !in recipients {
        recipients := recipients + [u];
      }
    }
    assert originals[..|originals|] == originals;
  }

  /** One more original recipient joins the reply audience unless it is the replier or already in it. */
  lemma ReplyNext(sender: UserId, originals: seq<UserId>, replier: UserId, i: nat)
    requires i < |originals|
    ensures var prev := ReplyRecipients([sender] + originals[..i], replier);
      var u := originals[i];
      ReplyRecipients([sender] + originals[..i + 1], replier) ==
        if u == replier || u in prev then prev else prev + [u]
  {
    var c := [sender] + originals[..i + 1];
    assert c[..|c| - 1] == [sender] + originals[..i];
    assert c[|c| - 1] == originals[i];
  }

  /**
   * `replyToEmail`: look the original up by code, check that the replier
   * sent or received it, and store a `[Re] ` message to everyone else on
   * it.
   */
  method ReplyToEmail(store: Store, replier: UserRecord, originalCode: string, replyBody: string, now: int)
    returns (r: Result<EmailRecord, MailError>)
    requires store.Valid()
    requires replier in store.users
    modifies store
    ensures store.Valid()
    ensures store.users == old(store.users)
    ensures r.Err? ==> store.emails == old(store.emails) && store.links == old(store.links)
    ensures FindEmail(old(store.emails), originalCode).None? ==> r == Err(EmailNotFound)
    ensures var found := FindEmail(old(store.emails), originalCode);
      found.Some? && !MayActOn(old(store.links), found.value, replier.id) ==> r == Err(NotAllowed)
    ensures var found := FindEmail(old(store.emails), originalCode);
      found.Some? && MayActOn(old(store.links), found.value, replier.id) ==>
        if ReplyAudience(old(store.links), found.value, replier.id) == [] then r == Err(NothingToReplyTo)
        else r.Ok? || r == Err(CodeUnavailable)
    ensures r.Ok? ==>
      var original := FindEmail(old(store.emails), originalCode).value;
      && r.value == EmailRecord(|old(store.emails)| + 1, ReplyPrefix + original.subject, replyBody, r.value.code, now, replier.id)
      && IsCode(r.value.code) && FindEmail(old(store.emails), r.value.code).None?
      && store.emails == old(store.emails) + [r.value]
      && store.links == old(store.links) + NewLinks(r.value.id, ReplyAudience(old(store.links), original, replier.id))
    ensures CodesWellFormed(old(store.emails)) ==> CodesWellFormed(store.emails)
  {
    var found := FindEmail(store.emails, originalCode);
    if found.None? {
      return Err(EmailNotFound);
    }
    var original := found.value;
    var isSender := original.sender == replier.id;
    var isRecipient := HasLink(store.links, original.id, replier.id);
    if !isSender && !isRecipient {
      return Err(NotAllowed);
    }

    var originals := RecipientIds(store.links, original.id);
    var recipients := CollectReplyRecipients(original.sender, originals, replier.id);

    if recipients == [] {
      return Err(NothingToReplyTo);
    }

    var subject := ReplyPrefix + original.subject;
    UserStored(store, replier);
    SenderStored(store, original);
    ReplyRecipientsMembers([original.sender] + originals, replier.id);
    r := Deliver(store, subject, replyBody, replier.id, recipients, now);
  }

  /**
   * The normalisation loop of `forwardEmail`: every entry of the caller's
   * list is replaced by its normalised form.
   */
  method NormalizeInPlace(emails: array<string>)
    modifies emails
    ensures emails[..] == NormalizeAll(old(emails[..]))
  {
    for i := 0 to emails.Length
      invariant forall k :: 0 <= k < i ==> emails[k] == NormalizeEmail(old(emails[k]))
      invariant forall k :: i <= k < emails.Length ==> emails[k] == old(emails[k])
    {
      emails[i] := NormalizeEmail(emails[i]);
    }
  }

  /**
   * `forwardEmail`: look the original up by code, normalise the caller's
   * address list in place, check that the forwarder sent or received the
   * original, and store a `[Fw] ` copy of it to the stored users whose
   * address is in the list.
   */
  method ForwardEmail(store: Store, forwarder: UserRecord, originalCode: string, recipientEmails: array<string>, now: int)
    returns (r: Result<EmailRecord, MailError>)
    requires store.Valid()
    requires forwarder in store.users
    modifies store, recipientEmails
    ensures store.Valid()
    ensures store.users == old(store.users)
    ensures r.Err? ==> store.emails == old(store.emails) && store.links == old(store.links)
    ensures FindEmail(old(store.emails), originalCode).None? ==>
      r == Err(EmailNotFound) && recipientEmails[..] == old(recipientEmails[..])
    ensures FindEmail(old(store.emails), originalCode).Some? ==>
      recipientEmails[..] == NormalizeAll(old(recipientEmails[..]))
    ensures var found := FindEmail(old(store.emails), originalCode);
      found.Some? && !MayActOn(old(store.links), found.value, forwarder.id) ==> r == Err(NotAllowed)
    ensures var found := FindEmail(old(store.emails), originalCode);
      found.Some? && MayActOn(old(store.links), found.value, forwarder.id) ==>
        if UsersWithEmailIn(old(store.users), recipientEmails[..]) == [] then r == Err(NoValidRecipients)
        else r.Ok? || r == Err(CodeUnavailable)
    ensures r.Ok? ==>
      var original := FindEmail(old(store.emails), originalCode).value;
      && r.value == EmailRecord(|old(store.emails)| + 1, ForwardPrefix + original.subject, original.body, r.value.code, now, forwarder.id)
      && IsCode(r.value.code) && FindEmail(old(store.emails), r.value.code).None?
      && store.emails == old(store.emails) + [r.value]
      && store.links == old(store.links) + NewLinks(r.value.id, UsersWithEmailIn(old(store.users), recipientEmails[..]))
    ensures CodesWellFormed(old(store.emails)) ==> CodesWellFormed(store.emails)
  {
    var found := FindEmail(store.emails, originalCode);
    if found.None? {
      return Err(EmailNotFound);
    }
    var original := found.value;

    NormalizeInPlace(recipientEmails);

    var allowed := original.sender == forwarder.id || HasLink(store.links, original.id, forwarder.id);
    if !allowed {
      return Err(NotAllowed);
    }

    var newRecipients := UsersWithEmailIn(store.users, recipientEmails[..]);
    if newRecipients == [] {
      return Err(NoValidRecipients);
    }

    var subject := ForwardPrefix + original.subject;
    var body := original.body;
    UserStored(store, forwarder);
    UsersWithEmailInMembers(store.users, recipientEmails[..]);
    r := Deliver(store, subject, body, forwarder.id, newRecipients, now);
  }

  /** What reading a message shows: code, recipient addresses, subject, date and body. */
  datatype MessageView = MessageView(code: string, recipients: seq<string>, subject: string, sentAt: int, body: string)

  /**
   * `readEmailByCode`: look the message up by code; its sender or a
   * recipient sees it, and a recipient's link is marked read.
   */
  method ReadEmailByCode(store: Store, user: UserRecord, code: string) returns (r: Result<MessageView, MailError>)
    requires store.Valid()
    modifies store
    ensures store.Valid()
    ensures store.users == old(store.users) && store.emails == old(store.emails)
    ensures FindEmail(old(store.emails), code).None? ==> r == Err(EmailNotFound)
    ensures var found := FindEmail(old(store.emails), code);
      found.Some? && !MayActOn(old(store.links), found.value, user.id) ==> r == Err(NotAllowed)
    ensures var found := FindEmail(old(store.emails), code);
      found.Some? && MayActOn(old(store.links), found.value, user.id) ==>
        r == Ok(MessageView(code, RecipientAddresses(old(store.users), old(store.links), found.value.id),
                            found.value.subject, found.value.sentAt, found.value.body))
    ensures var found := FindEmail(old(store.emails), code);
      if found.Some? && HasLink(old(store.links), found.value.id, user.id)
      then store.links == SetRead(old(store.links), found.value.id, user.id)
      else store.links == old(store.links)
  {
    var found := FindEmail(store.emails, code);
    if found.None? {
      return Err(EmailNotFound);
    }
    var email := found.value;
    var isSender := email.sender == user.id;
    var isRecipient := HasLink(store.links, email.id, user.id);
    if !isSender && !isRecipient {
      return Err(NotAllowed);
    }
    r := Ok(MessageView(email.code, RecipientAddresses(store.users, store.links, email.id), email.subject, email.sentAt, email.body));
    if isRecipient {
      store.MarkRead(email.id, user.id);
    }
  }
}
