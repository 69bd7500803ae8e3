/**
 * The account directory: address normalisation, lookup by address,
 * registration and login.
 */
module UserService {
  import opened Wrappers
  import opened Text
  import opened Crypto
  import opened Schema
  import opened MessageStore
  import opened UserModel

  /** The domain appended to an address that names none. */
  const DefaultDomain: string := "@milou.com"

  /** Passwords shorter than this are refused at registration. */
  const MinPasswordLength: nat := 8

  datatype RegisterError = WeakPassword | EmailTaken | StoreRejected(cause: StoreError)

  /**
   * `normalizeEmail`: an address without `@` gets the default domain
   * appended. The result always holds an `@`, starts with the input, and
   * equals the input exactly when the input already held an `@`; otherwise
   * it is the input followed by `@milou.com`.
   */
  function NormalizeEmail(email: string): (r: string)
    ensures '@' in r
    ensures email <= r
    ensures r == email <==> '@' in email
    ensures '@' !in email ==> r == email + DefaultDomain
  {
    if '@' in email then email else email + DefaultDomain
  }

  /** Normalising a normalised address changes nothing. */
  lemma NormalizeIdempotent(email: string)
    ensures NormalizeEmail(NormalizeEmail(email)) == NormalizeEmail(email)
  {
  }

  /**
   * `findByEmail`: the user whose stored address equals the normalised
   * token, compared exactly (no case folding), or nothing.
   */
  function FindByEmail(store: Store, email: string): (r: Option<UserRecord>)
    reads store
    requires store.Valid()
    ensures r.Some? ==> r.value in store.users && r.value.email == NormalizeEmail(email)
    ensures r.None? <==> forall u :: u in store.users ==> u.email != NormalizeEmail(email)
  {
    FindUser(store.users, NormalizeEmail(email))
  }

  /**
   * `login`: the account of the normalised address when the password
   * verifies against its digest; nothing otherwise, with no difference
   * between an unknown address and a wrong password.
   */
  function Login(store: Store, email: string, password: string): (r: Option<UserRecord>)
    reads store
    requires store.Valid()
    ensures r.Some? <==>
      exists u :: u in store.users && u.email == NormalizeEmail(email) && CheckPassword(password, u.password)
    ensures r.Some? ==> r.value in store.users && r.value.email == NormalizeEmail(email)
  {
    var found := FindUser(store.users, NormalizeEmail(email));
    if found.Some? && CheckPassword(password, found.value.password) then
      found
    else
      LoginFailsForAll(store, email, password, found);
      None
  }

  lemma LoginFailsForAll(store: Store, email: string, password: string, found: Option<UserRecord>)
    requires store.Valid()
    requires found == FindUser(store.users, NormalizeEmail(email))
    requires !(found.Some? && CheckPassword(password, found.value.password))
    ensures forall u :: u in store.users && u.email == NormalizeEmail(email) ==> !CheckPassword(password, u.password)
  {
    forall u | u in store.users && u.email == NormalizeEmail(email)
      ensures !CheckPassword(password, u.password)
    {
      FindUserUnique(store.users, u);
    }
  }

  /** Every stored address is in lower case. */
  predicate AddressesLowerCase(users: seq<UserRecord>) {
    forall i :: 0 <= i < |users| ==> IsLowerCase(users[i].email)
  }

  /**
   * `register`: a password shorter than eight characters is refused; so is
   * an address whose normalised form is already stored. Otherwise a `User`
   * is built (which lower-cases the address and hashes the password) and
   * inserted; the store's UNIQUE constraint refuses it when only the
   * lower-cased address is taken. Nothing is stored on any refusal.
   */
  method Register(store: Store, name: string, email: string, password: string, salt: nat)
    returns (r: Result<UserRecord, RegisterError>)
    requires store.Valid()
    modifies store
    ensures store.Valid()
    ensures store.emails == old(store.emails) && store.links == old(store.links)
    ensures |password| < MinPasswordLength ==> r == Err(WeakPassword)
    ensures |password| >= MinPasswordLength && FindUser(old(store.users), NormalizeEmail(email)).Some? ==>
      r == Err(EmailTaken)
    ensures r.Ok? <==>
      && |password| >= MinPasswordLength
      && FindUser(old(store.users), NormalizeEmail(email)).None?
      && FindUser(old(store.users), ToLower(NormalizeEmail(email))).None?
    ensures
      && |password| >= MinPasswordLength
      && FindUser(old(store.users), NormalizeEmail(email)).None?
      && FindUser(old(store.users), ToLower(NormalizeEmail(email))).Some?
      ==> r == Err(StoreRejected(DuplicateEmail))
    ensures r.Err? ==> store.users == old(store.users)
    ensures r.Ok? ==>
      && store.users == old(store.users) + [r.value]
      && r.value.name == name
      && r.value.email == ToLower(NormalizeEmail(email))
      && CheckPassword(password, r.value.password)
    ensures AddressesLowerCase(old(store.users)) ==> AddressesLowerCase(store.users)
  {
    var normalizedEmail := NormalizeEmail(email);
    if |password| < MinPasswordLength {
      return Err(WeakPassword);
    }
    var existingUser := FindUser(store.users, normalizedEmail);
    if existingUser.Some? {
      return Err(EmailTaken);
    }
    var user := new User(name, normalizedEmail, password, salt);
    var inserted := store.InsertUser(user.name, user.email, user.password);
    match inserted
    case Ok(u) => r := Ok(u);
    case Err(e) => r := Err(StoreRejected(e));
  }
}
