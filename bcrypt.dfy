/**
 * The password hasher (bcrypt-nodejs), modelled symbolically. A hash is a term
 * built from the salt and the plaintext; nothing in the model reads the
 * plaintext back except Compare, which is how bcrypt's compare behaves:
 * it re-hashes the candidate with the salt embedded in the stored hash.
 */
module Bcrypt {

  /** A salt as genSalt(rounds) produces it: the cost factor and fresh random bytes. */
  datatype Salt = Salt(rounds: nat, nonce: string)

  /** The stored form of a password: bcrypt(salt, plain), as a symbolic term. */
  datatype HashedPassword = BcryptHash(salt: Salt, plain: string)

  /** The cost factor signup passes to genSalt. */
  const SignupRounds: nat := 10

  function GenSalt(rounds: nat, randomness: string): (s: Salt)
    ensures s.rounds == rounds
  {
    Salt(rounds, randomness)
  }

  /** bcrypt.compare(candidate, stored): true iff `stored` is the hash of `candidate` under its own salt. */
  predicate Compare(candidate: string, stored: HashedPassword)
  {
    stored == Hash(candidate, stored.salt)
  }

  /** bcrypt.hash(plain, salt): the stored form carries its salt and accepts exactly `plain`. */
  function Hash(plain: string, salt: Salt): (h: HashedPassword)
    ensures h.salt == salt
  {
    BcryptHash(salt, plain)
  }

  /** A hash accepts the password it was made from, and no other. */
  lemma CompareHash(plain: string, candidate: string, salt: Salt)
    ensures Compare(candidate, Hash(plain, salt)) <==> candidate == plain
  {
  }

  /** Hashing the same password under two different salts gives two different stored values. */
  lemma HashSaltsDiffer(plain: string, s1: Salt, s2: Salt)
    requires s1 != s2
    ensures Hash(plain, s1) != Hash(plain, s2)
  {
  }
}
