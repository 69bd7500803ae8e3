/** The `User` entity: a mutable account object whose setters overwrite its fields. */
module UserModel {
  import opened Text
  import opened Crypto
  import opened Schema

  class User {
    var name: string
    var email: string
    var password: Digest

    /**
     * `new User(name, email, password)`: the name as given, the email
     * lower-cased and the password hashed under `salt`.
     */
    constructor (name: string, email: string, password: string, salt: nat)
      ensures this.name == name
      ensures this.email == ToLower(email)
      ensures this.password == HashPassword(password, salt)
      ensures CheckPassword(password)
    {
      this.name := name;
      this.email := ToLower(email);
      this.password := HashPassword(password, salt);
    }

    /** `setName`: replaces the name and nothing else. */
    method SetName(name: string)
      modifies this
      ensures this.name == name
      ensures email == old(email) && password == old(password)
    {
      this.name := name;
    }

    /** `setEmail`: stores the lower-cased address and nothing else. */
    method SetEmail(email: string)
      modifies this
      ensures this.email == ToLower(email) && IsLowerCase(this.email)
      ensures name == old(name) && password == old(password)
    {
      this.email := ToLower(email);
    }

    /** `setPassword`: stores a fresh digest of `password`, which then verifies. */
    method SetPassword(password: string, salt: nat)
      modifies this
      ensures this.password == HashPassword(password, salt)
      ensures CheckPassword(password)
      ensures name == old(name) && email == old(email)
    {
      this.password := HashPassword(password, salt);
    }

    /** `checkPassword`: does `plain` verify against the stored digest? */
    predicate CheckPassword(plain: string)
      reads this
    {
      Crypto.CheckPassword(plain, password)
    }
  }
}
