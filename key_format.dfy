/** The shape of a generated API key.
    A candidate key is cut from the hexadecimal SHA-1 digest of the current
    time and a random number. The hash and the entropy are not modelled:
    the digest is a value handed in from outside, of which only its format is known. */
module KeyFormat {

  /** A character of PHP's `sha1()` output: lower-case hexadecimal. */
  predicate IsLowerHex(c: char) {
    '0' <= c <= '9' || 'a' <= c <= 'f'
  }

  /** Exactly 40 lower-case hexadecimal characters (`^[0-9a-f]{40}$`). */
  predicate IsKeyFormat(s: string) {
    |s| == 40 && forall i :: 0 <= i < |s| ==> IsLowerHex(s[i])
  }

  /** What `sha1(...)` returns: a 40-character lower-case hex digest. */
  type Digest = s: string | IsKeyFormat(s)
    witness "0000000000000000000000000000000000000000"

  /** PHP's `substr($s, $start, $length)` for a non-negative start and length:
      the window of at most `length` characters beginning at `start`. When
      `start` lies at or past the end the result is empty, as in PHP 8 (earlier
      versions return `false` there; the repository never reaches that case). */
  function Substr(s: string, start: nat, length: nat): (r: string)
    ensures |r| == if start >= |s| then 0 else if start + length <= |s| then length else |s| - start
    ensures forall i :: 0 <= i < |r| ==> r[i] == s[start + i]
  {
    if start >= |s| then ""
    else if start + length <= |s| then s[start..start + length]
    else s[start..]
  }

  /** One candidate key: the first 40 characters of a digest. Because the digest
      is itself 40 characters long, the candidate is the whole digest, and so it
      has the key format. */
  function Candidate(salt: Digest): (key: string)
    ensures key == salt
    ensures IsKeyFormat(key)
  {
    Substr(salt, 0, 40)
  }
}
