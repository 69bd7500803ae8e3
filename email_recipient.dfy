/**
 * The `EmailRecipient` entity: the link between a message and one of its
 * recipients, with the read flag and the read time.
 */
module EmailRecipientModel {
  import opened Wrappers
  import opened Schema

  class EmailRecipient {
    var email: EmailId
    var recipient: UserId
    var read: bool
    var readAt: Option<int>

    /** `new EmailRecipient(email, recipient)`: unread, no read time. */
    constructor (email: EmailId, recipient: UserId)
      ensures this.email == email && this.recipient == recipient
      ensures !read && readAt == None
      ensures Record() == NewLink(email, recipient)
    {
      this.email, this.recipient := email, recipient;
      read, readAt := false, None;
    }

    /** `setRead`: changes the read flag only. */
    method SetRead(read: bool)
      modifies this
      ensures this.read == read
      ensures email == old(email) && recipient == old(recipient) && readAt == old(readAt)
    {
      this.read := read;
    }

    /** `setReadAt`: changes the read time only. */
    method SetReadAt(readAt: Option<int>)
      modifies this
      ensures this.readAt == readAt
      ensures email == old(email) && recipient == old(recipient) && read == old(read)
    {
      this.readAt := readAt;
    }

    method SetEmail(email: EmailId)
      modifies this
      ensures this.email == email
      ensures recipient == old(recipient) && read == old(read) && readAt == old(readAt)
    {
      this.email := email;
    }

    method SetRecipient(recipient: UserId)
      modifies this
      ensures this.recipient == recipient
      ensures email == old(email) && read == old(read) && readAt == old(readAt)
    {
      this.recipient := recipient;
    }

    /** The `email_recipients` row this object is stored as. */
    function Record(): RecipientLink
      reads this
    {
      RecipientLink(email, recipient, read, readAt)
    }
  }
}
