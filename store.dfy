/**
 * The persistent store behind the services, in place of the Hibernate
 * session and the SQL database: three tables, the uniqueness constraints the
 * schema declares, and atomic operations that either apply completely or
 * leave every table as it was.
 */
module MessageStore {
  import opened Wrappers
  import opened Crypto
  import opened Schema

  /** A uniqueness constraint an insert would break. */
  datatype StoreError = DuplicateEmail | DuplicateCode | DuplicateLink

  /** Identity ids 1, 2, ... in insertion order, and `email` is UNIQUE. */
  predicate UsersValid(users: seq<UserRecord>) {
    && (forall i :: 0 <= i < |users| ==> users[i].id == i + 1)
    && EmailsUnique(users)
  }

  predicate EmailsUnique(users: seq<UserRecord>) {
    forall i, j :: 0 <= i < j < |users| ==> users[i].email != users[j].email
  }

  /** Identity ids, `code` is UNIQUE, and every sender is a stored user. */
  predicate EmailsValid(emails: seq<EmailRecord>, userCount: nat) {
    && (forall i :: 0 <= i < |emails| ==> emails[i].id == i + 1)
    && (forall i :: 0 <= i < |emails| ==> 1 <= emails[i].sender <= userCount)
    && CodesUnique(emails)
  }

  predicate CodesUnique(emails: seq<EmailRecord>) {
    forall i, j :: 0 <= i < j < |emails| ==> emails[i].code != emails[j].code
  }

  /** Both ends of every link exist, and `(email_id, recipient_id)` is UNIQUE. */
  predicate LinksValid(links: seq<RecipientLink>, emailCount: nat, userCount: nat) {
    && (forall k :: 0 <= k < |links| ==> 1 <= links[k].email <= emailCount && 1 <= links[k].recipient <= userCount)
    && PairsUnique(links)
  }

  predicate PairsUnique(links: seq<RecipientLink>) {
    forall k, m :: 0 <= k < m < |links| ==>
      links[k].email != links[m].email || links[k].recipient != links[m].recipient
  }

  /**
   * The links an email gets at insertion break the pair constraint exactly
   * when a recipient is listed twice.
   */
  lemma NewLinksPairsUnique(email: EmailId, recipients: seq<UserId>)
    ensures PairsUnique(NewLinks(email, recipients)) <==> Distinct(recipients)
  {
    var ls := NewLinks(email, recipients);
    if !Distinct(recipients) {
      var i, j :| 0 <= i < j < |recipients| && recipients[i] == recipients[j];
      assert ls[i].email == ls[j].email && ls[i].recipient == ls[j].recipient;
    }
  }

  /** `select * from users where email = :email`: the first (under the constraint, only) match. */
  function FindUser(users: seq<UserRecord>, email: string): (r: Option<UserRecord>)
    ensures r.Some? ==> r.value in users && r.value.email == email
    ensures r.None? ==> forall u :: u in users ==> u.email != email
  {
    if users == [] then None
    else if users[0].email == email then Some(users[0])
    else FindUser(users[1..], email)
  }

  /** Under the constraint, the lookup by email finds exactly the user holding it. */
  lemma {:induction false} FindUserUnique(users: seq<UserRecord>, u: UserRecord)
    requires EmailsUnique(users)
    requires u in users
    ensures FindUser(users, u.email) == Some(u)
  {
    if users[0] != u {
      assert users[0].email != u.email by {
        var j :| 0 <= j < |users| && users[j] == u;
        assert j > 0;
      }
      assert u in users[1..];
      FindUserUnique(users[1..], u);
    }
  }

  /** `select * from emails where code = :code`: the first (under the constraint, only) match. */
  function FindEmail(emails: seq<EmailRecord>, code: string): (r: Option<EmailRecord>)
    ensures r.Some? ==> r.value in emails && r.value.code == code
    ensures r.None? ==> forall e :: e in emails ==> e.code != code
  {
    if emails == [] then None
    else if emails[0].code == code then Some(emails[0])
    else FindEmail(emails[1..], code)
  }

  /** `select 1 from email_recipients where email_id = :e and recipient_id = :u` finds a row. */
  predicate HasLink(links: seq<RecipientLink>, email: EmailId, user: UserId) {
    exists k :: 0 <= k < |links| && links[k].email == email && links[k].recipient == user
  }

  /** The recipients of `email`, in the order of its links. */
  function RecipientIds(links: seq<RecipientLink>, email: EmailId): (r: seq<UserId>)
    ensures forall u :: u in r <==> HasLink(links, email, u)
    ensures |r| <= |links|
  {
    if links == [] then []
    else
      var prev := RecipientIds(links[..|links| - 1], email);
      var l := links[|links| - 1];
      assert forall k :: 0 <= k < |links| - 1 ==> links[..|links| - 1][k] == links[k];
      if l.email == email then prev + [l.recipient] else prev
  }

  /**
   * `update email_recipients set is_read = true where email_id = :e and
   * recipient_id = :u`.
   */
  function SetRead(links: seq<RecipientLink>, email: EmailId, user: UserId): (r: seq<RecipientLink>)
    ensures |r| == |links|
    ensures forall k :: 0 <= k < |r| ==>
      && r[k].email == links[k].email && r[k].recipient == links[k].recipient
      && r[k].readAt == links[k].readAt
  {
    seq(|links|, k requires 0 <= k < |links| =>
      if links[k].email == email && links[k].recipient == user then links[k].(read := true) else links[k])
  }

  class Store {
    var users: seq<UserRecord>
    var emails: seq<EmailRecord>
    var links: seq<RecipientLink>

    /** The schema's constraints hold. */
    ghost predicate Valid()
      reads this
    {
      && UsersValid(users)
      && EmailsValid(emails, |users|)
      && LinksValid(links, |emails|, |users|)
    }

    /** An empty database. */
    constructor ()
      ensures Valid()
      ensures users == [] && emails == [] && links == []
    {
      users, emails, links := [], [], [];
    }

    /** Insert a `users` row; the UNIQUE constraint on `email` rejects a taken address. */
    method InsertUser(name: string, email: string, password: Digest) returns (r: Result<UserRecord, StoreError>)
      requires Valid()
      modifies this
      ensures Valid()
      ensures emails == old(emails) && links == old(links)
      ensures FindUser(old(users), email).Some? ==> r == Err(DuplicateEmail) && users == old(users)
      ensures FindUser(old(users), email).None? ==>
        && r == Ok(UserRecord(|old(users)| + 1, name, email, password))
        && users == old(users) + [r.value]
    {
      if FindUser(users, email).Some? {
        return Err(DuplicateEmail);
      }
      var u := UserRecord(|users| + 1, name, email, password);
      users := users + [u];
      r := Ok(u);
    }

    /**
     * Insert an `emails` row and one link per recipient, in one step. The
     * UNIQUE constraint on `code` rejects a taken code, and the one on
     * `(email_id, recipient_id)` rejects a recipient listed twice.
     */
    method InsertEmail(subject: string, body: string, code: string, sentAt: int, sender: UserId, recipients: seq<UserId>)
      returns (r: Result<EmailRecord, StoreError>)
      requires Valid()
      requires 1 <= sender <= |users|
      requires forall u :: u in recipients ==> 1 <= u <= |users|
      modifies this
      ensures Valid()
      ensures users == old(users)
      ensures FindEmail(old(emails), code).Some? ==> r == Err(DuplicateCode)
      ensures FindEmail(old(emails), code).None? && !Distinct(recipients) ==> r == Err(DuplicateLink)
      ensures r.Err? ==> emails == old(emails) && links == old(links)
      ensures FindEmail(old(emails), code).None? && Distinct(recipients) ==>
        && r == Ok(EmailRecord(|old(emails)| + 1, subject, body, code, sentAt, sender))
        && emails == old(emails) + [r.value]
        && links == old(links) + NewLinks(r.value.id, recipients)
    {
      if FindEmail(emails, code).Some? {
        return Err(DuplicateCode);
      }
      if !Distinct(recipients) {
        return Err(DuplicateLink);
      }
      var e := EmailRecord(|emails| + 1, subject, body, code, sentAt, sender);
      var added := NewLinks(e.id, recipients);
      assert forall k :: 0 <= k < |links| ==> links[k].email < e.id;
      assert forall k :: 0 <= k < |added| ==> recipients[k] in recipients;
      emails := emails + [e];
      links := links + added;
      r := Ok(e);
    }

    /** Set the read flag of the link between `email` and `user`, if there is one. */
    method MarkRead(email: EmailId, user: UserId)
      requires Valid()
      modifies this
      ensures Valid()
      ensures users == old(users) && emails == old(emails)
      ensures links == SetRead(old(links), email, user)
    {
      links := SetRead(links, email, user);
    }
  }
}
