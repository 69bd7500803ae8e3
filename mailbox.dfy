/**
 * The three listings of a user's mailbox: received, unread and sent. Each
 * one selects rows of the `emails` table and orders them by sending time,
 * newest first.
 */
module Mailbox {
  import opened Schema
  import opened MessageStore

  // ------------------------------------------------------------ ordering

  /** Newest first: `order by e.sent_at DESC`. */
  predicate SortedBySentAt(s: seq<EmailRecord>) {
    forall i, j :: 0 <= i < j < |s| ==> s[i].sentAt >= s[j].sentAt
  }

  /** Puts `e` before the first message of `s` that is older than it. */
  function InsertBySentAt(e: EmailRecord, s: seq<EmailRecord>): (r: seq<EmailRecord>)
    requires SortedBySentAt(s)
    ensures SortedBySentAt(r)
    ensures |r| == |s| + 1 && (r[0] == e || (s != [] && r[0] == s[0]))
  {
    if s == [] || e.sentAt >= s[0].sentAt then
      [e] + s
    else
      var rest := InsertBySentAt(e, s[1..]);
      assert rest[0].sentAt <= s[0].sentAt;
      [s[0]] + rest
  }

  /** Inserting adds exactly the one message. */
  lemma {:induction false} InsertBySentAtPermutes(e: EmailRecord, s: seq<EmailRecord>)
    requires SortedBySentAt(s)
    ensures multiset(InsertBySentAt(e, s)) == multiset(s) + multiset{e}
  {
    if s != [] && e.sentAt < s[0].sentAt {
      var t := s[1..];
      var rest := InsertBySentAt(e, t);
      assert InsertBySentAt(e, s) == [s[0]] + rest;
      assert multiset(rest) == multiset(t) + multiset{e} by {
        InsertBySentAtPermutes(e, t);
      }
      assert multiset(s) == multiset{s[0]} + multiset(t) by {
        assert s == [s[0]] + t;
      }
    }
  }

  /**
   * Orders messages newest first. Messages sent at the same time keep
   * their table order.
   */
  function SortBySentAt(s: seq<EmailRecord>): (r: seq<EmailRecord>)
    ensures SortedBySentAt(r)
    ensures |r| == |s|
  {
    if s == [] then [] else InsertBySentAt(s[0], SortBySentAt(s[1..]))
  }

  /** Sorting only reorders. */
  lemma {:induction false} SortBySentAtPermutes(s: seq<EmailRecord>)
    ensures multiset(SortBySentAt(s)) == multiset(s)
  {
    if s != [] {
      var t := s[1..];
      var sorted := SortBySentAt(t);
      assert SortBySentAt(s) == InsertBySentAt(s[0], sorted);
      assert multiset(sorted) == multiset(t) by {
        SortBySentAtPermutes(t);
      }
      assert multiset(InsertBySentAt(s[0], sorted)) == multiset(sorted) + multiset{s[0]} by {
        InsertBySentAtPermutes(s[0], sorted);
      }
      assert multiset(s) == multiset{s[0]} + multiset(t) by {
        assert s == [s[0]] + t;
      }
    }
  }

  /** A permutation holds the same messages. */
  lemma SameMembers(r: seq<EmailRecord>, s: seq<EmailRecord>)
    requires multiset(r) == multiset(s)
    ensures forall e :: e in r <==> e in s
  {
    forall e
      ensures e in r <==> e in s
    {
      assert e in r <==> e in multiset(r);
      assert e in s <==> e in multiset(s);
    }
  }

  // ----------------------------------------------------------- selection

  /** The messages of `s` that `keep` accepts, in order. */
  function Filter(s: seq<EmailRecord>, keep: EmailRecord -> bool): (r: seq<EmailRecord>)
    ensures |r| <= |s|
  {
    if s == [] then []
    else (if keep(s[0]) then [s[0]] else []) + Filter(s[1..], keep)
  }

  /** The selection holds exactly the accepted messages. */
  lemma {:induction false} FilterMembers(s: seq<EmailRecord>, keep: EmailRecord -> bool)
    ensures forall e :: e in Filter(s, keep) <==> e in s && keep(e)
  {
    if s != [] {
      FilterMembers(s[1..], keep);
      assert s == [s[0]] + s[1..];
    }
  }

  /** Each accepted message is selected as often as it occurs; the others never. */
  lemma {:induction false} FilterCount(s: seq<EmailRecord>, keep: EmailRecord -> bool)
    ensures forall e :: multiset(Filter(s, keep))[e] == if keep(e) then multiset(s)[e] else 0
  {
    if s != [] {
      FilterCount(s[1..], keep);
      assert s == [s[0]] + s[1..];
    }
  }

  /** A list whose every element occurs at most as often as in a list without repeats has none. */
  lemma NoRepeatsByCount(r: seq<EmailRecord>, s: seq<EmailRecord>)
    requires Distinct(s)
    requires forall e :: multiset(r)[e] <= multiset(s)[e]
    ensures Distinct(r)
  {
    forall e
      ensures multiset(s)[e] <= 1
    {
      AtMostOnce(s, e);
    }
    forall i, j | 0 <= i < j < |r|
      ensures r[i] != r[j]
    {
      TwoOccurrences(r, i, j);
    }
  }

  lemma {:induction false} AtMostOnce(s: seq<EmailRecord>, x: EmailRecord)
    requires Distinct(s)
    ensures multiset(s)[x] <= 1
  {
    if s != [] {
      assert s == [s[0]] + s[1..];
      AtMostOnce(s[1..], x);
      if s[0] == x {
        assert x !in s[1..];
      }
    }
  }

  lemma TwoOccurrences(r: seq<EmailRecord>, i: nat, j: nat)
    requires i < j < |r|
    ensures r[i] == r[j] ==> multiset(r)[r[i]] >= 2
  {
    assert r == r[..j] + r[j..];
    assert r[..j][i] == r[i];
    assert r[j..][0] == r[j];
  }

  /** Selecting from a list with a known head. */
  lemma FilterCons(x: EmailRecord, t: seq<EmailRecord>, q: EmailRecord -> bool)
    ensures Filter([x] + t, q) == (if q(x) then [x] else []) + Filter(t, q)
  {
    assert ([x] + t)[1..] == t;
  }

  /** Filters that agree on every message select the same messages. */
  lemma {:induction false} FilterAgrees(s: seq<EmailRecord>, p: EmailRecord -> bool, q: EmailRecord -> bool)
    requires forall e :: e in s ==> p(e) == q(e)
    ensures Filter(s, p) == Filter(s, q)
  {
    if s != [] {
      assert forall e :: e in s[1..] ==> e in s;
      FilterAgrees(s[1..], p, q);
    }
  }

  /** Filtering by a weaker test first changes nothing. */
  lemma {:induction false} FilterWeakerFirst(s: seq<EmailRecord>, p: EmailRecord -> bool, q: EmailRecord -> bool)
    requires forall e :: e in s && q(e) ==> p(e)
    ensures Filter(Filter(s, p), q) == Filter(s, q)
  {
    if s != [] {
      assert forall e :: e in s[1..] ==> e in s;
      FilterWeakerFirst(s[1..], p, q);
      if p(s[0]) {
        assert Filter(s, p) == [s[0]] + Filter(s[1..], p);
        FilterCons(s[0], Filter(s[1..], p), q);
      } else {
        assert s[0] in s;
        assert Filter(s, p) == Filter(s[1..], p);
        assert Filter(s, q) == Filter(s[1..], q);
      }
    }
  }

  /** Selecting from a sorted list keeps it sorted. */
  lemma {:induction false} FilterSorted(s: seq<EmailRecord>, q: EmailRecord -> bool)
    requires SortedBySentAt(s)
    ensures SortedBySentAt(Filter(s, q))
  {
    if s != [] {
      FilterSorted(s[1..], q);
      FilterMembers(s[1..], q);
      var tail := Filter(s[1..], q);
      forall x | x in tail
        ensures x.sentAt <= s[0].sentAt
      {
        var i :| 0 <= i < |s[1..]| && s[1..][i] == x;
        assert x == s[i + 1];
      }
    }
  }

  /** No message of a sorted `s` is newer than a message `e` newer than its head. */
  lemma FilterOlder(e: EmailRecord, s: seq<EmailRecord>, q: EmailRecord -> bool)
    requires SortedBySentAt(s) && s != [] && e.sentAt >= s[0].sentAt
    ensures SortedBySentAt(Filter(s, q))
    ensures InsertBySentAt(e, Filter(s, q)) == [e] + Filter(s, q)
  {
    FilterSorted(s, q);
    var f := Filter(s, q);
    FilterMembers(s, q);
    if f != [] {
      assert f[0] in s;
      var i :| 0 <= i < |s| && s[i] == f[0];
      assert i == 0 || s[0].sentAt >= s[i].sentAt;
    }
  }

  /** Selecting from a sorted list commutes with inserting into it. */
  lemma {:induction false} FilterInsert(e: EmailRecord, s: seq<EmailRecord>, q: EmailRecord -> bool)
    requires SortedBySentAt(s)
    ensures SortedBySentAt(Filter(s, q))
    ensures Filter(InsertBySentAt(e, s), q) ==
      if q(e) then InsertBySentAt(e, Filter(s, q)) else Filter(s, q)
    decreases |s|, 1
  {
    FilterSorted(s, q);
    if s == [] {
      FilterCons(e, [], q);
    } else if e.sentAt >= s[0].sentAt {
      FilterCons(e, s, q);
      FilterOlder(e, s, q);
    } else {
      FilterInsertLater(e, s, q);
    }
  }

  /** The inductive step of `FilterInsert`: `e` goes after the head. */
  lemma {:induction false} FilterInsertLater(e: EmailRecord, s: seq<EmailRecord>, q: EmailRecord -> bool)
    requires SortedBySentAt(s) && s != [] && e.sentAt < s[0].sentAt
    ensures SortedBySentAt(Filter(s, q))
    ensures Filter(InsertBySentAt(e, s), q) ==
      if q(e) then InsertBySentAt(e, Filter(s, q)) else Filter(s, q)
    decreases |s|, 0
  {
    FilterSorted(s, q);
    var rest := InsertBySentAt(e, s[1..]);
    var tail := Filter(s[1..], q);
    FilterInsert(e, s[1..], q);
    assert InsertBySentAt(e, s) == [s[0]] + rest;
    FilterCons(s[0], rest, q);
    var head := if q(s[0]) then [s[0]] else [];
    assert Filter(InsertBySentAt(e, s), q) == head + Filter(rest, q);
    assert Filter(s, q) == head + tail;
    if q(e) {
      assert Filter(rest, q) == InsertBySentAt(e, tail);
      if q(s[0]) {
        var t := [s[0]] + tail;
        assert t[0] == s[0] && t[1..] == tail;
        assert InsertBySentAt(e, t) == [s[0]] + InsertBySentAt(e, tail);
        assert Filter(InsertBySentAt(e, s), q) == InsertBySentAt(e, Filter(s, q));
      } else {
        assert head == [];
        assert Filter(InsertBySentAt(e, s), q) == Filter(rest, q);
        assert Filter(s, q) == tail;
      }
    } else {
      assert Filter(rest, q) == tail;
      assert Filter(InsertBySentAt(e, s), q) == Filter(s, q);
    }
  }

  /** Selecting after sorting is sorting after selecting. */
  lemma {:induction false} FilterSort(s: seq<EmailRecord>, q: EmailRecord -> bool)
    ensures Filter(SortBySentAt(s), q) == SortBySentAt(Filter(s, q))
  {
    if s != [] {
      var sorted := SortBySentAt(s[1..]);
      var tail := Filter(s[1..], q);
      FilterSort(s[1..], q);
      FilterInsert(s[0], sorted, q);
      assert SortBySentAt(s) == InsertBySentAt(s[0], sorted);
      if q(s[0]) {
        assert Filter(s, q) == [s[0]] + tail;
        FilterHead(s[0], tail);
      } else {
        assert Filter(s, q) == tail;
      }
    }
  }

  /** Sorting a list with a known head inserts that head into the sorted rest. */
  lemma FilterHead(x: EmailRecord, t: seq<EmailRecord>)
    ensures SortBySentAt([x] + t) == InsertBySentAt(x, SortBySentAt(t))
  {
    assert ([x] + t)[1..] == t;
  }

  // ------------------------------------------------------------ listings

  /**
   * A link joins message `email` to `user` (an unread one, when
   * `unreadOnly`).
   */
  predicate AddressedTo(links: seq<RecipientLink>, email: EmailId, user: UserId, unreadOnly: bool) {
    if unreadOnly then HasUnreadLink(links, email, user) else HasLink(links, email, user)
  }

  /** `... and er.is_read = false`: the link joining `email` to `user` is unread. */
  predicate HasUnreadLink(links: seq<RecipientLink>, email: EmailId, user: UserId) {
    exists k :: 0 <= k < |links| && links[k].email == email && links[k].recipient == user && !links[k].read
  }

  /** The selection of the received (or unread) listing. */
  function Inbox(links: seq<RecipientLink>, user: UserId, unreadOnly: bool): EmailRecord -> bool {
    (e: EmailRecord) => AddressedTo(links, e.id, user, unreadOnly)
  }

  /**
   * `getAllReceivedEmails`: the messages `user` holds a link to, newest
   * first.
   */
  function Received(emails: seq<EmailRecord>, links: seq<RecipientLink>, user: UserId): (r: seq<EmailRecord>)
    ensures SortedBySentAt(r)
    ensures forall e :: e in r <==> e in emails && HasLink(links, e.id, user)
    ensures forall e :: multiset(r)[e] == if HasLink(links, e.id, user) then multiset(emails)[e] else 0
  {
    var r := SortBySentAt(Filter(emails, Inbox(links, user, false)));
    SortBySentAtPermutes(Filter(emails, Inbox(links, user, false)));
    SameMembers(r, Filter(emails, Inbox(links, user, false)));
    FilterMembers(emails, Inbox(links, user, false));
    FilterCount(emails, Inbox(links, user, false));
    r
  }

  /**
   * `getUnreadEmails`: the messages `user` holds an unread link to, newest
   * first.
   */
  function Unread(emails: seq<EmailRecord>, links: seq<RecipientLink>, user: UserId): (r: seq<EmailRecord>)
    ensures SortedBySentAt(r)
    ensures forall e :: e in r <==> e in emails && HasUnreadLink(links, e.id, user)
    ensures forall e :: multiset(r)[e] == if HasUnreadLink(links, e.id, user) then multiset(emails)[e] else 0
  {
    var r := SortBySentAt(Filter(emails, Inbox(links, user, true)));
    SortBySentAtPermutes(Filter(emails, Inbox(links, user, true)));
    SameMembers(r, Filter(emails, Inbox(links, user, true)));
    FilterMembers(emails, Inbox(links, user, true));
    FilterCount(emails, Inbox(links, user, true));
    r
  }

  /** The unread listing is the received listing cut down to its unread links. */
  lemma UnreadWithinReceived(emails: seq<EmailRecord>, links: seq<RecipientLink>, user: UserId)
    ensures Unread(emails, links, user) == Filter(Received(emails, links, user), Inbox(links, user, true))
  {
    var received := Filter(emails, Inbox(links, user, false));
    FilterSort(received, Inbox(links, user, true));
    FilterWeakerFirst(emails, Inbox(links, user, false), Inbox(links, user, true));
  }

  /** One row of the sent listing: subject, code and the joined recipient addresses. */
  datatype SentSummary = SentSummary(subject: string, code: string, recipients: string)

  /** A message `user` sent that has at least one link (the listing joins on links). */
  function SentBy(links: seq<RecipientLink>, user: UserId): EmailRecord -> bool {
    (e: EmailRecord) => e.sender == user && exists k :: 0 <= k < |links| && links[k].email == e.id
  }

  /** The messages of the sent listing, newest first. */
  function Authored(emails: seq<EmailRecord>, links: seq<RecipientLink>, user: UserId): (r: seq<EmailRecord>)
    ensures SortedBySentAt(r)
    ensures forall e :: e in r <==> e in emails && e.sender == user && exists k :: 0 <= k < |links| && links[k].email == e.id
    ensures forall e :: multiset(r)[e] == if SentBy(links, user)(e) then multiset(emails)[e] else 0
  {
    var r := SortBySentAt(Filter(emails, SentBy(links, user)));
    SortBySentAtPermutes(Filter(emails, SentBy(links, user)));
    SameMembers(r, Filter(emails, SentBy(links, user)));
    FilterMembers(emails, SentBy(links, user));
    FilterCount(emails, SentBy(links, user));
    r
  }

  /** Over the stored table, where ids tell messages apart, no listing shows a message twice. */
  lemma ListingsHaveNoRepeats(emails: seq<EmailRecord>, links: seq<RecipientLink>, user: UserId, userCount: nat)
    requires EmailsValid(emails, userCount)
    ensures Distinct(Received(emails, links, user))
    ensures Distinct(Unread(emails, links, user))
    ensures Distinct(Authored(emails, links, user))
  {
    assert Distinct(emails) by {
      assert forall i, j :: 0 <= i < j < |emails| ==> emails[i].id != emails[j].id;
    }
    NoRepeatsByCount(Received(emails, links, user), emails);
    NoRepeatsByCount(Unread(emails, links, user), emails);
    NoRepeatsByCount(Authored(emails, links, user), emails);
  }

  /** The address of user `id`, under identity ids. */
  function AddressOf(users: seq<UserRecord>, id: UserId): string {
    if 1 <= id <= |users| then users[id - 1].email else []
  }

  /** The addresses of the recipients of `email`, in link order. */
  function RecipientAddresses(users: seq<UserRecord>, links: seq<RecipientLink>, email: EmailId): (r: seq<string>)
    ensures |r| == |RecipientIds(links, email)|
    ensures forall x :: x in r <==> exists u :: HasLink(links, email, u) && AddressOf(users, u) == x
  {
    var ids := RecipientIds(links, email);
    var r := seq(|ids|, i requires 0 <= i < |ids| => AddressOf(users, ids[i]));
    assert forall x :: x in r <==> exists u :: HasLink(links, email, u) && AddressOf(users, u) == x by {
      forall x
        ensures x in r <==> exists u :: HasLink(links, email, u) && AddressOf(users, u) == x
      {
        if x in r {
          var i :| 0 <= i < |r| && r[i] == x;
          assert ids[i] in ids;
        }
        if exists u :: HasLink(links, email, u) && AddressOf(users, u) == x {
          var u :| HasLink(links, email, u) && AddressOf(users, u) == x;
          assert u in ids;
          var i :| 0 <= i < |ids| && ids[i] == u;
          assert r[i] == x;
        }
      }
    }
    r
  }

  /** `s` without repeats, keeping first occurrences. */
  function Dedup(s: seq<string>): (r: seq<string>)
    ensures Distinct(r)
    ensures forall x :: x in r <==> x in s
  {
    if s == [] then []
    else
      var prev := Dedup(s[..|s| - 1]);
      var x := s[|s| - 1];
      assert forall y :: y in s <==> y in s[..|s| - 1] || y == x;
      if x in prev then prev else prev + [x]
  }

  /**
   * `String.join`: the parts with `sep` between consecutive ones. No parts
   * give the empty string, and one part gives itself.
   */
  function Join(parts: seq<string>, sep: string): (r: string)
    ensures parts == [] ==> r == []
    ensures parts != [] ==> parts[0] <= r
    ensures |parts| == 1 ==> r == parts[0]
  {
    if parts == [] then []
    else if |parts| == 1 then parts[0]
    else parts[0] + sep + Join(parts[1..], sep)
  }

  /** Joining one more part appends the separator and that part. */
  lemma {:induction false} JoinAppend(parts: seq<string>, x: string, sep: string)
    requires parts != []
    ensures Join(parts + [x], sep) == Join(parts, sep) + sep + x
  {
    var all := parts + [x];
    assert all[0] == parts[0];
    if |parts| == 1 {
      assert all[1..] == [x];
    } else {
      assert all[1..] == parts[1..] + [x];
      JoinAppend(parts[1..], x, sep);
    }
  }

  /** The text of the recipients column of one row: the distinct addresses joined by `", "`. */
  function RecipientsColumn(users: seq<UserRecord>, links: seq<RecipientLink>, email: EmailId): string {
    Join(Dedup(RecipientAddresses(users, links, email)), ", ")
  }

  /**
   * `getSentEmails`: one row per message `user` sent, newest first, with
   * its distinct recipient addresses joined by `", "`. Row `i` describes the
   * `i`-th message of the sent listing.
   */
  function Sent(users: seq<UserRecord>, emails: seq<EmailRecord>, links: seq<RecipientLink>, user: UserId)
    : (r: seq<SentSummary>)
    ensures |r| == |Authored(emails, links, user)|
    ensures forall i :: 0 <= i < |r| ==>
      && r[i].subject == Authored(emails, links, user)[i].subject
      && r[i].code == Authored(emails, links, user)[i].code
  {
    var sent := Authored(emails, links, user);
    seq(|sent|, i requires 0 <= i < |sent| =>
      SentSummary(sent[i].subject, sent[i].code, RecipientsColumn(users, links, sent[i].id)))
  }

  /**
   * `column` joins, with `", "`, each address of a user linked to `email`,
   * exactly once.
   */
  ghost predicate ListsRecipients(column: string, users: seq<UserRecord>, links: seq<RecipientLink>, email: EmailId) {
    exists parts :: column == Join(parts, ", ") && Distinct(parts) && SameAddresses(parts, users, links, email)
  }

  /** `parts` holds exactly the addresses of the users linked to `email`. */
  ghost predicate SameAddresses(parts: seq<string>, users: seq<UserRecord>, links: seq<RecipientLink>, email: EmailId) {
    forall x :: x in parts <==> exists u :: HasLink(links, email, u) && AddressOf(users, u) == x
  }

  /** The recipients column of a message lists each linked recipient's address once. */
  lemma RecipientsColumnLists(users: seq<UserRecord>, links: seq<RecipientLink>, email: EmailId)
    ensures ListsRecipients(RecipientsColumn(users, links, email), users, links, email)
  {
    var parts := Dedup(RecipientAddresses(users, links, email));
    assert SameAddresses(parts, users, links, email);
  }

  /**
   * Row `i` of the sent listing describes the `i`-th sent message, newest
   * first: its subject, its code, and its recipients column, which joins
   * each address of a linked recipient exactly once.
   */
  lemma SentRowsDescribeAuthored(users: seq<UserRecord>, emails: seq<EmailRecord>, links: seq<RecipientLink>, user: UserId)
    ensures var r := Sent(users, emails, links, user);
      var a := Authored(emails, links, user);
      && |r| == |a|
      && forall i :: 0 <= i < |r| ==>
        && a[i] in emails && a[i].sender == user
        && (i + 1 < |r| ==> a[i].sentAt >= a[i + 1].sentAt)
        && r[i].subject == a[i].subject && r[i].code == a[i].code
        && ListsRecipients(r[i].recipients, users, links, a[i].id)
  {
    var r := Sent(users, emails, links, user);
    var a := Authored(emails, links, user);
    forall i | 0 <= i < |r|
      ensures a[i] in emails && a[i].sender == user
      ensures ListsRecipients(r[i].recipients, users, links, a[i].id)
    {
      assert a[i] in a;
      RecipientsColumnLists(users, links, a[i].id);
    }
  }

  // ---------------------------------------------------------- read state

  /** Marking a message read only sets flags; no link loses its read flag. */
  lemma SetReadOnlyRaises(links: seq<RecipientLink>, email: EmailId, user: UserId)
    ensures var r := SetRead(links, email, user);
      forall k :: 0 <= k < |links| ==>
        && (links[k].read ==> r[k].read)
        && (links[k].email == email && links[k].recipient == user ==> r[k].read)
        && (links[k].email != email || links[k].recipient != user ==> r[k] == links[k])
  {
  }

  /** Reading a message a second time changes nothing more. */
  lemma SetReadIdempotent(links: seq<RecipientLink>, email: EmailId, user: UserId)
    ensures SetRead(SetRead(links, email, user), email, user) == SetRead(links, email, user)
  {
  }

  /** After `user` reads `email`, it has left their unread listing and nothing else has. */
  lemma {:induction false} ReadLeavesUnread(emails: seq<EmailRecord>, links: seq<RecipientLink>, email: EmailId, user: UserId)
    ensures forall e :: e in Unread(emails, SetRead(links, email, user), user) <==>
      e in Unread(emails, links, user) && e.id != email
  {
    var after := SetRead(links, email, user);
    forall e: EmailRecord
      ensures HasUnreadLink(after, e.id, user) <==> HasUnreadLink(links, e.id, user) && e.id != email
    {
      if HasUnreadLink(after, e.id, user) {
        var k :| 0 <= k < |after| && after[k].email == e.id && after[k].recipient == user && !after[k].read;
        assert links[k] == after[k];
      }
      if HasUnreadLink(links, e.id, user) && e.id != email {
        var k :| 0 <= k < |links| && links[k].email == e.id && links[k].recipient == user && !links[k].read;
        assert after[k] == links[k];
      }
    }
  }

  /** Reading changes nobody's received listing and no other user's unread listing. */
  lemma {:induction false} ReadKeepsOtherListings(emails: seq<EmailRecord>, links: seq<RecipientLink>, email: EmailId, user: UserId, other: UserId)
    ensures Received(emails, SetRead(links, email, user), other) == Received(emails, links, other)
    ensures other != user ==> Unread(emails, SetRead(links, email, user), other) == Unread(emails, links, other)
  {
    var after := SetRead(links, email, user);
    forall e: EmailRecord
      ensures HasLink(after, e.id, other) == HasLink(links, e.id, other)
    {
      if HasLink(after, e.id, other) {
        var k :| 0 <= k < |after| && after[k].email == e.id && after[k].recipient == other;
      }
      if HasLink(links, e.id, other) {
        var k :| 0 <= k < |links| && links[k].email == e.id && links[k].recipient == other;
        assert after[k].email == e.id && after[k].recipient == other;
      }
    }
    FilterAgrees(emails, Inbox(after, other, false), Inbox(links, other, false));
    if other != user {
      forall e: EmailRecord
        ensures HasUnreadLink(after, e.id, other) == HasUnreadLink(links, e.id, other)
      {
        if HasUnreadLink(after, e.id, other) {
          var k :| 0 <= k < |after| && after[k].email == e.id && after[k].recipient == other && !after[k].read;
          assert after[k] == links[k];
        }
        if HasUnreadLink(links, e.id, other) {
          var k :| 0 <= k < |links| && links[k].email == e.id && links[k].recipient == other && !links[k].read;
          assert after[k] == links[k];
        }
      }
      FilterAgrees(emails, Inbox(after, other, true), Inbox(links, other, true));
    }
  }
}
