/**
 * Message codes: six characters drawn from `[a-z0-9]`, redrawn until no
 * stored message holds the code.
 */
module CodeAllocator {
  import opened Wrappers
  import opened Schema
  import opened MessageStore

  const Alphabet: string := "abcdefghijklmnopqrstuvwxyz0123456789"
  const CodeLength: nat := 6

  /**
   * How many draws the allocator makes before giving up. The source redraws
   * without bound; the model needs a bound to terminate.
   */
  const MaxDraws: nat := 1000

  /** Six characters, each from the alphabet. */
  predicate IsCode(s: string) {
    |s| == CodeLength && forall i :: 0 <= i < |s| ==> s[i] in Alphabet
  }

  /** Every stored message has a well-formed code. */
  predicate CodesWellFormed(emails: seq<EmailRecord>) {
    forall i :: 0 <= i < |emails| ==> IsCode(emails[i].code)
  }

  /**
   * `generateRandomCode`: six draws, each an index into the alphabet chosen
   * freely (the source uses `java.util.Random`), appended one by one.
   */
  method GenerateRandomCode() returns (code: string)
    ensures IsCode(code)
  {
    var builder: string := [];
    for i := 0 to CodeLength
      invariant |builder| == i
      invariant forall k :: 0 <= k < i ==> builder[k] in Alphabet
    {
      var draw :| 0 <= draw < |Alphabet|;
      builder := builder + [Alphabet[draw]];
    }
    code := builder;
  }

  /**
   * `generateUniqueCode`: draw codes until one is held by no stored message.
   * A result, when there is one, is well formed and unused.
   */
  method GenerateUniqueCode(store: Store) returns (code: Option<string>)
    ensures code.Some? ==> IsCode(code.value) && FindEmail(store.emails, code.value).None?
  {
    var draws := 0;
    while draws < MaxDraws
    {
      var candidate := GenerateRandomCode();
      draws := draws + 1;
      var taken := FindEmail(store.emails, candidate).Some?;
      if !taken {
        return Some(candidate);
      }
    }
    code := None;
  }
}
