/** The stored-password encoding of auth.py: a credential is kept as the text
    `salt ":" digest`, where the salt is 32 lower-case hexadecimal characters and
    the digest is the SHA-256 hex digest of the salt followed by the password.

    SHA-256 itself is not modelled: every member takes the digest function as a
    parameter `hash`, so whatever is proved here holds for any hash function. */
module Passwords {

  datatype Option<T> = None | Some(value: T)

  /** The characters of a lower-case hexadecimal rendering. */
  const HexDigits: string := "0123456789abcdef"

  /** What 16 random bytes rendered in hexadecimal look like: 32 lower-case hex characters. */
  predicate IsHexSalt(salt: string) {
    |salt| == 32 && forall i :: 0 <= i < |salt| ==> salt[i] in HexDigits
  }

  /** A hexadecimal salt never contains the separator. */
  lemma HexSaltHasNoColon(salt: string)
    requires IsHexSalt(salt)
    ensures ':' !in salt
  {
  }

  /** The position of the first occurrence of `c` in `s`, or None when `c` does not occur. */
  function FirstIndexOf(s: string, c: char): (r: Option<nat>)
    ensures r.None? <==> c !in s
    ensures r.Some? ==> r.value < |s| && s[r.value] == c && c !in s[..r.value]
  {
    if |s| == 0 then None
    else if s[0] == c then Some(0)
    else
      match FirstIndexOf(s[1..], c)
      case None => None
      case Some(k) =>
        assert s[..k + 1] == [s[0]] + s[1..][..k];
        Some(k + 1)
  }

  /** Splitting a stored value at its first colon, with at most one split, and
      unpacking it into exactly two parts. None is the branch where the unpacking
      fails because there is no colon at all. */
  function SplitAtColon(stored: string): (r: Option<(string, string)>)
    ensures r.None? <==> ':' !in stored
    ensures r.Some? ==> ':' !in r.value.0 && stored == r.value.0 + ":" + r.value.1
  {
    match FirstIndexOf(stored, ':')
    case None => None
    case Some(i) =>
      assert stored == stored[..i] + ":" + stored[i + 1..];
      Some((stored[..i], stored[i + 1..]))
  }

  /** In `head ":" tail` with a colon-free head, the first colon is the one right
      after the head, however many colons the tail holds. */
  lemma FirstColonOfJoin(head: string, tail: string)
    requires ':' !in head
    ensures FirstIndexOf(head + ":" + tail, ':') == Some(|head|)
  {
    var s := head + ":" + tail;
    assert s[..|head|] == head;
    assert s[|head|] == ':';
  }

  /** The stored form of a password under the given salt: the salt, a colon, and
      the digest of the salt followed by the password. The first colon is at
      index 32, right after the salt. */
  function HashPassword(hash: string -> string, salt: string, password: string): (stored: string)
    requires IsHexSalt(salt)
    ensures FirstIndexOf(stored, ':') == Some(32)
    ensures stored[..32] == salt && stored[33..] == hash(salt + password)
  {
    HexSaltHasNoColon(salt);
    FirstColonOfJoin(salt, hash(salt + password));
    var stored := salt + ":" + hash(salt + password);
    assert stored[..32] == salt;
    stored
  }

  /** Whether a password matches a stored `salt:digest` value: the digest of the
      salt followed by the password is compared with the digest by plain equality.
      A value without any colon never matches. */
  function VerifyPassword(hash: string -> string, stored: string, password: string): (ok: bool)
    ensures ':' !in stored ==> !ok
  {
    match SplitAtColon(stored)
    case None => false
    case Some((salt, digest)) => hash(salt + password) == digest
  }

  /** Cutting `salt ":" digest` at its first colon gives back exactly the salt and
      the digest, whatever colons the digest contains. */
  lemma SplitJoin(salt: string, digest: string)
    requires ':' !in salt
    ensures SplitAtColon(salt + ":" + digest) == Some((salt, digest))
  {
    FirstColonOfJoin(salt, digest);
    var s := salt + ":" + digest;
    assert s[..|salt|] == salt && s[|salt| + 1..] == digest;
  }

  /** Verification reads everything after the first colon as the digest, and
      succeeds exactly when the recomputed digest equals it. */
  lemma VerifySplitsAtFirstColon(hash: string -> string, salt: string, digest: string, password: string)
    requires ':' !in salt
    ensures VerifyPassword(hash, salt + ":" + digest, password) <==> hash(salt + password) == digest
  {
    SplitJoin(salt, digest);
  }

  /** Every stored value that contains a colon is a colon-free salt, a colon and a
      digest, so the lemma above covers every value verification can accept. */
  lemma StoredWithColonSplits(stored: string)
    requires ':' in stored
    ensures exists salt, digest :: ':' !in salt && stored == salt + ":" + digest
  {
    var r := SplitAtColon(stored);
    assert ':' !in r.value.0 && stored == r.value.0 + ":" + r.value.1;
  }

  /** Round trip: a password always verifies against its own stored form. */
  lemma RoundTrip(hash: string -> string, salt: string, password: string)
    requires IsHexSalt(salt)
    ensures VerifyPassword(hash, HashPassword(hash, salt, password), password)
  {
    HexSaltHasNoColon(salt);
    VerifySplitsAtFirstColon(hash, salt, hash(salt + password), password);
  }
}
