/**
 * The recipient rules of send, reply and forward, as functions over the
 * tables, with the properties that pin each one down.
 */
module Derivation {
  import opened Wrappers
  import opened Text
  import opened Schema
  import opened MessageStore
  import opened UserService

  // ---------------------------------------------------------------- send

  /**
   * The address one recipient token stands for: the token trimmed and,
   * lacking an `@`, given the default domain.
   */
  function Address(token: string): string {
    NormalizeEmail(Trim(token))
  }

  /** The address of each token, in order. */
  function Addresses(tokens: seq<string>): seq<string>
  {
    seq(|tokens|, i requires 0 <= i < |tokens| => Address(tokens[i]))
  }

  /** The user an address names, looked up exactly. */
  function Resolve(users: seq<UserRecord>, address: string): Option<UserRecord> {
    FindUser(users, address)
  }

  /**
   * Send's recipient list: the users the addresses resolve to, in order,
   * unresolved addresses skipped and repeats kept.
   */
  function ResolveTokens(users: seq<UserRecord>, tokens: seq<string>): (r: seq<UserRecord>)
    ensures |r| <= |tokens|
    ensures forall u :: u in r ==> u in users
  {
    if tokens == [] then []
    else
      var prev := ResolveTokens(users, tokens[..|tokens| - 1]);
      var found := Resolve(users, tokens[|tokens| - 1]);
      if found.Some? then prev + [found.value] else prev
  }

  /**
   * The recipients of a list of tokens are the recipients of its first part
   * followed by those of the rest: resolution keeps token order.
   */
  lemma {:induction false} ResolveTokensAppend(users: seq<UserRecord>, a: seq<string>, b: seq<string>)
    ensures ResolveTokens(users, a + b) == ResolveTokens(users, a) + ResolveTokens(users, b)
  {
    if b == [] {
      assert a + b == a;
    } else {
      var init := b[..|b| - 1];
      var last := b[|b| - 1];
      var found := Resolve(users, last);
      var extra := if found.Some? then [found.value] else [];
      assert ResolveTokens(users, a + init) == ResolveTokens(users, a) + ResolveTokens(users, init) by {
        ResolveTokensAppend(users, a, init);
      }
      assert ResolveTokens(users, a + b) == ResolveTokens(users, a + init) + extra by {
        assert (a + b)[..|a + b| - 1] == a + init;
        assert (a + b)[|a + b| - 1] == last;
      }
      assert ResolveTokens(users, b) == ResolveTokens(users, init) + extra;
    }
  }

  /** One token contributes its user, or nothing when it names no stored user. */
  lemma ResolveTokensSingle(users: seq<UserRecord>, t: string)
    ensures ResolveTokens(users, [t]) == (if Resolve(users, t).Some? then [Resolve(users, t).value] else [])
  {
    assert [t][..0] == [];
  }

  /** `token` resolves to `u`. */
  predicate Names(users: seq<UserRecord>, token: string, u: UserRecord) {
    Resolve(users, token) == Some(u)
  }

  /** A user is a recipient exactly when some token resolves to them. */
  lemma {:induction false} ResolveTokensMembers(users: seq<UserRecord>, tokens: seq<string>, u: UserRecord)
    ensures u in ResolveTokens(users, tokens) <==> exists t :: t in tokens && Names(users, t, u)
  {
    if tokens != [] {
      var init := tokens[..|tokens| - 1];
      var last := tokens[|tokens| - 1];
      var prev := ResolveTokens(users, init);
      ResolveTokensMembers(users, init, u);
      assert tokens == init + [last];
      if u in ResolveTokens(users, tokens) {
        if u in prev {
          var t :| t in init && Names(users, t, u);
          assert t in tokens;
        } else {
          assert Names(users, last, u);
        }
      }
      if exists t :: t in tokens && Names(users, t, u) {
        var t :| t in tokens && Names(users, t, u);
        if t != last {
          assert t in init;
          assert u in prev;
        }
      }
    }
  }

  /** Nothing is resolved exactly when no token names a stored user. */
  lemma ResolveTokensEmpty(users: seq<UserRecord>, tokens: seq<string>)
    ensures ResolveTokens(users, tokens) == [] <==> forall t :: t in tokens ==> Resolve(users, t).None?
  {
    if ResolveTokens(users, tokens) != [] {
      var u := ResolveTokens(users, tokens)[0];
      ResolveTokensMembers(users, tokens, u);
      var t :| t in tokens && Names(users, t, u);
    } else {
      forall t | t in tokens
        ensures Resolve(users, t).None?
      {
        if Resolve(users, t).Some? {
          ResolveTokensMembers(users, tokens, Resolve(users, t).value);
        }
      }
    }
  }

  /** How often `x` occurs in `s`. */
  function Count<T(==)>(s: seq<T>, x: T): nat {
    if s == [] then 0 else Count(s[..|s| - 1], x) + (if s[|s| - 1] == x then 1 else 0)
  }

  /** A user appears once per token that resolves to them: no de-duplication. */
  lemma {:induction false} ResolveTokensKeepsRepeats(users: seq<UserRecord>, tokens: seq<string>, u: UserRecord)
    ensures Count(ResolveTokens(users, tokens), u) == |TokensNaming(users, tokens, u)|
  {
    if tokens != [] {
      var init := tokens[..|tokens| - 1];
      ResolveTokensKeepsRepeats(users, init, u);
      var prev := ResolveTokens(users, init);
      var found := Resolve(users, tokens[|tokens| - 1]);
      if found.Some? {
        assert (prev + [found.value])[..|prev| ] == prev;
      }
    }
  }

  /** The tokens that resolve to `u`, in order. */
  function TokensNaming(users: seq<UserRecord>, tokens: seq<string>, u: UserRecord): seq<string> {
    if tokens == [] then []
    else
      var prev := TokensNaming(users, tokens[..|tokens| - 1], u);
      if Resolve(users, tokens[|tokens| - 1]) == Some(u) then prev + [tokens[|tokens| - 1]] else prev
  }

  // --------------------------------------------------------------- reply

  /**
   * Reply's recipient list, from the candidates (the original sender, then
   * the original recipients): each candidate that is not the replier and not
   * already listed is appended.
   */
  function ReplyRecipients(candidates: seq<UserId>, replier: UserId): (r: seq<UserId>)
    ensures |r| <= |candidates|
    ensures replier !in r
    ensures forall u :: u in r ==> u in candidates
  {
    if candidates == [] then []
    else
      var prev := ReplyRecipients(candidates[..|candidates| - 1], replier);
      var u := candidates[|candidates| - 1];
      if u == replier || u in prev then prev else prev + [u]
  }

  /**
   * The reply goes to every candidate except the replier, and to nobody
   * else; nobody is listed twice.
   */
  lemma {:induction false} ReplyRecipientsMembers(candidates: seq<UserId>, replier: UserId)
    ensures forall u :: u in ReplyRecipients(candidates, replier) <==> u in candidates && u != replier
    ensures Distinct(ReplyRecipients(candidates, replier))
  {
    if candidates != [] {
      var init := candidates[..|candidates| - 1];
      ReplyRecipientsMembers(init, replier);
      assert candidates == init + [candidates[|candidates| - 1]];
    }
  }

  /** Index of the first occurrence of `x` in `s`. */
  function FirstIndex<T(==)>(s: seq<T>, x: T): (i: nat)
    requires x in s
    ensures i < |s| && s[i] == x
    ensures forall j :: 0 <= j < i ==> s[j] != x
  {
    if s[0] == x then 0 else 1 + FirstIndex(s[1..], x)
  }

  lemma {:induction false} FirstIndexPrefix<T>(s: seq<T>, t: seq<T>, x: T)
    requires x in s
    ensures x in s + t && FirstIndex(s + t, x) == FirstIndex(s, x)
  {
    var i := FirstIndex(s, x);
    var k := FirstIndex(s + t, x);
    assert (s + t)[i] == x;
    assert k <= i;
    assert s[k] == x;
  }

  /**
   * The reply list keeps first-seen order: recipients appear in the order
   * in which they first occur among the candidates.
   */
  lemma {:induction false} ReplyRecipientsFirstSeen(candidates: seq<UserId>, replier: UserId)
    ensures forall i, j :: 0 <= i < j < |ReplyRecipients(candidates, replier)| ==>
      && ReplyRecipients(candidates, replier)[i] in candidates
      && ReplyRecipients(candidates, replier)[j] in candidates
      && FirstIndex(candidates, ReplyRecipients(candidates, replier)[i])
         < FirstIndex(candidates, ReplyRecipients(candidates, replier)[j])
  {
    if candidates != [] {
      var n := |candidates|;
      var init := candidates[..n - 1];
      var u := candidates[n - 1];
      var prev := ReplyRecipients(init, replier);
      ReplyRecipientsFirstSeen(init, replier);
      ReplyRecipientsMembers(init, replier);
      assert candidates == init + [u];
      forall x | x in init
        ensures x in candidates && FirstIndex(candidates, x) == FirstIndex(init, x)
      {
        FirstIndexPrefix(init, [u], x);
      }
      var r := ReplyRecipients(candidates, replier);
      if !(u == replier || u in prev) {
        assert u !in init;
        assert FirstIndex(candidates, u) == n - 1;
      }
      forall i, j | 0 <= i < j < |r|
        ensures r[i] in candidates && r[j] in candidates
        ensures FirstIndex(candidates, r[i]) < FirstIndex(candidates, r[j])
      {
        assert r[i] == prev[i] && r[i] in init;
        assert FirstIndex(candidates, r[i]) == FirstIndex(init, r[i]) < n - 1;
        if j < |prev| {
          assert r[j] == prev[j] && r[j] in init;
          assert FirstIndex(candidates, r[j]) == FirstIndex(init, r[j]);
          assert FirstIndex(init, prev[i]) < FirstIndex(init, prev[j]);
        } else {
          assert r[j] == u && u !in init;
          assert FirstIndex(candidates, u) == n - 1;
        }
      }
    } else {
      assert ReplyRecipients(candidates, replier) == [];
    }
  }

  /** When the replier did not send the original, its sender is the first recipient. */
  lemma ReplyStartsWithSender(sender: UserId, originals: seq<UserId>, replier: UserId)
    requires sender != replier
    ensures var r := ReplyRecipients([sender] + originals, replier);
      r != [] && r[0] == sender
  {
    var c := [sender] + originals;
    var r := ReplyRecipients(c, replier);
    ReplyRecipientsMembers(c, replier);
    ReplyRecipientsFirstSeen(c, replier);
    assert sender in r;
    var k :| 0 <= k < |r| && r[k] == sender;
  }

  // ------------------------------------------------------------- forward

  /** Each address normalised, in place order. */
  function NormalizeAll(emails: seq<string>): (r: seq<string>)
    ensures |r| == |emails|
    ensures forall i :: 0 <= i < |r| ==> r[i] == NormalizeEmail(emails[i])
  {
    seq(|emails|, i requires 0 <= i < |emails| => NormalizeEmail(emails[i]))
  }

  /** Normalising a normalised list changes nothing. */
  lemma NormalizeAllIdempotent(emails: seq<string>)
    ensures NormalizeAll(NormalizeAll(emails)) == NormalizeAll(emails)
  {
  }

  /**
   * `select * from users where email in (:emails)`: the ids of the users
   * whose stored address is one of `emails`, in table order.
   */
  function UsersWithEmailIn(users: seq<UserRecord>, emails: seq<string>): (r: seq<UserId>)
    ensures |r| <= |users|
    ensures forall id :: id in r ==> exists u :: u in users && u.id == id && u.email in emails
  {
    if users == [] then []
    else
      var init := users[..|users| - 1];
      var prev := UsersWithEmailIn(init, emails);
      var u := users[|users| - 1];
      assert forall v :: v in init ==> v in users;
      if u.email in emails then prev + [u.id] else prev
  }

  /**
   * Forward's recipients are exactly the stored users whose address is in
   * the list, each once, in table order.
   */
  lemma {:induction false} UsersWithEmailInMembers(users: seq<UserRecord>, emails: seq<string>)
    requires UsersValid(users)
    ensures forall id :: id in UsersWithEmailIn(users, emails) <==>
      exists u :: u in users && u.id == id && u.email in emails
    ensures Distinct(UsersWithEmailIn(users, emails))
    ensures forall id :: id in UsersWithEmailIn(users, emails) ==> 1 <= id <= |users|
    ensures forall i, j :: 0 <= i < j < |UsersWithEmailIn(users, emails)| ==>
      UsersWithEmailIn(users, emails)[i] < UsersWithEmailIn(users, emails)[j]
  {
    if users != [] {
      var init := users[..|users| - 1];
      var last := users[|users| - 1];
      assert UsersValid(init) by {
        assert forall i :: 0 <= i < |init| ==> init[i] == users[i];
      }
      UsersWithEmailInMembers(init, emails);
      var prev := UsersWithEmailIn(init, emails);
      var r := UsersWithEmailIn(users, emails);
      assert r == if last.email in emails then prev + [last.id] else prev;
      assert last.id == |users|;
      assert last.id !in prev;
      forall id
        ensures id in r <==> exists u :: u in users && u.id == id && u.email in emails
      {
        if id in r && id in prev {
          var u :| u in init && u.id == id && u.email in emails;
          assert u in users;
        }
        if exists u :: u in users && u.id == id && u.email in emails {
          var u :| u in users && u.id == id && u.email in emails;
          var i :| 0 <= i < |users| && users[i] == u;
          if i < |users| - 1 {
            assert init[i] == u;
          }
        }
      }
      forall i, j | 0 <= i < j < |r|
        ensures r[i] < r[j]
      {
        assert r[i] == prev[i] && prev[i] in prev;
        if j < |prev| {
          assert r[j] == prev[j];
        }
      }
    }
  }
}
