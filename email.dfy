/**
 * The `Email` entity: a message object whose constructor and setters assign
 * its fields. `sender` and `recipients` hold the ids their join columns store.
 */
module EmailModel {
  import opened Schema

  class Email {
    var subject: string
    var body: string
    var code: string
    var sentAt: int
    var sender: UserId
    var recipients: seq<UserId>

    /** `new Email()`: no recipients yet. */
    constructor Empty()
      ensures recipients == []
      ensures subject == [] && body == [] && code == []
    {
      subject, body, code := [], [], [];
      sentAt, sender := 0, 0;
      recipients := [];
    }

    /**
     * `new Email(subject, body, sender, recipients, code)`: every field as
     * given, and the sending time taken from the clock reading `now`.
     */
    constructor (subject: string, body: string, sender: UserId, recipients: seq<UserId>, code: string, now: int)
      ensures this.subject == subject && this.body == body && this.code == code
      ensures this.sender == sender && this.recipients == recipients
      ensures sentAt == now
    {
      this.subject, this.body, this.code := subject, body, code;
      this.sender, this.recipients := sender, recipients;
      sentAt := now;
    }

    method SetSubject(subject: string)
      modifies this
      ensures this.subject == subject
      ensures body == old(body) && code == old(code) && sentAt == old(sentAt)
      ensures sender == old(sender) && recipients == old(recipients)
    {
      this.subject := subject;
    }

    method SetBody(body: string)
      modifies this
      ensures this.body == body
      ensures subject == old(subject) && code == old(code) && sentAt == old(sentAt)
      ensures sender == old(sender) && recipients == old(recipients)
    {
      this.body := body;
    }

    method SetCode(code: string)
      modifies this
      ensures this.code == code
      ensures subject == old(subject) && body == old(body) && sentAt == old(sentAt)
      ensures sender == old(sender) && recipients == old(recipients)
    {
      this.code := code;
    }

    /**
     * `setSentAt` changes the object only: the `sent_at` column is not
     * updatable, and the store has no operation that rewrites it.
     */
    method SetSentAt(sentAt: int)
      modifies this
      ensures this.sentAt == sentAt
      ensures subject == old(subject) && body == old(body) && code == old(code)
      ensures sender == old(sender) && recipients == old(recipients)
    {
      this.sentAt := sentAt;
    }

    method SetSender(sender: UserId)
      modifies this
      ensures this.sender == sender
      ensures subject == old(subject) && body == old(body) && code == old(code)
      ensures sentAt == old(sentAt) && recipients == old(recipients)
    {
      this.sender := sender;
    }

    method SetRecipients(recipients: seq<UserId>)
      modifies this
      ensures this.recipients == recipients
      ensures subject == old(subject) && body == old(body) && code == old(code)
      ensures sentAt == old(sentAt) && sender == old(sender)
    {
      this.recipients := recipients;
    }
  }
}
