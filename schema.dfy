/**
 * The three tables of the mailbox as rows: `users`, `emails` and the
 * join table `email_recipients`. Ids are the identity columns; an email's
 * `sender` and a link's `email` and `recipient` are foreign keys.
 */
module Schema {
  import opened Wrappers
  import opened Crypto

  type UserId = nat
  type EmailId = nat

  /** A row of `users(id, name, email UNIQUE, password)`. */
  datatype UserRecord = UserRecord(id: UserId, name: string, email: string, password: Digest)

  /** A row of `emails(id, subject, body, code UNIQUE, sent_at, sender_id)`. */
  datatype EmailRecord = EmailRecord(
    id: EmailId, subject: string, body: string, code: string, sentAt: int, sender: UserId)

  /**
   * A row of `email_recipients(email_id, recipient_id, is_read, read_at)`,
   * unique on `(email_id, recipient_id)`.
   */
  datatype RecipientLink = RecipientLink(email: EmailId, recipient: UserId, read: bool, readAt: Option<int>)

  /** The link an email gets for one of its recipients when it is stored. */
  function NewLink(email: EmailId, recipient: UserId): RecipientLink
  {
    RecipientLink(email, recipient, false, None)
  }

  /** One new link per recipient of `email`, in the order the recipients are listed. */
  function NewLinks(email: EmailId, recipients: seq<UserId>): seq<RecipientLink>
  {
    seq(|recipients|, k requires 0 <= k < |recipients| => NewLink(email, recipients[k]))
  }

  /** No element occurs twice. */
  predicate Distinct<T(==)>(s: seq<T>) {
    forall i, j :: 0 <= i < j < |s| ==> s[i] != s[j]
  }

  /** The ids of `users`, in order. */
  function Ids(users: seq<UserRecord>): seq<UserId>
  {
    seq(|users|, k requires 0 <= k < |users| => users[k].id)
  }
}
