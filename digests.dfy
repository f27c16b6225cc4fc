/**
 Block digests and the proof-of-work test.

 The hash function itself (SHA-256 over the block's fields rendered as text)
 is not modelled: it is an arbitrary total function from a block's hashed
 fields to a 64-character lower-case hexadecimal string. Every operation that
 hashes takes that function as a parameter.
 */
module Digests {

  const DIGEST_LENGTH := 64

  predicate IsHexDigit(c: char) {
    '0' <= c <= '9' || 'a' <= c <= 'f'
  }

  /** A hex-encoded 256-bit digest, as `hexdigest()` returns it. */
  type Digest = s: string | |s| == DIGEST_LENGTH && forall i :: 0 <= i < |s| ==> IsHexDigit(s[i])
    witness Zeros(DIGEST_LENGTH)

  /** The five block fields that enter the hash; the miner's address does not. */
  datatype HashInput = HashInput(index: int, timestamp: real, data: string, previousHash: string, nonce: int)

  /** The cryptographic hash, left uninterpreted. */
  type Hash = HashInput -> Digest

  /** Whether the hash of these fields meets the difficulty. */
  predicate NonceMeets(sha: Hash, x: HashInput, difficulty: int) {
    MeetsDifficulty(sha(x), difficulty)
  }

  /** `'0' * n`: n zero characters, and the empty string when n <= 0. */
  function Zeros(n: int): (z: string)
    ensures |z| == if n > 0 then n else 0
    ensures forall i :: 0 <= i < |z| ==> z[i] == '0'
  {
    if n <= 0 then "" else Zeros(n - 1) + "0"
  }

  /** `s[:d]`: the first d characters, where a negative d drops the last -d characters. */
  function SlicePrefix(s: string, d: int): (p: string)
    ensures d >= 0 ==> |p| == if d <= |s| then d else |s|
    ensures d < 0 ==> |p| == if |s| + d > 0 then |s| + d else 0
    ensures p == s[..|p|]
  {
    if d >= 0 then
      if d <= |s| then s[..d] else s
    else
      if |s| + d > 0 then s[..|s| + d] else ""
  }

  /** The exit test of the mining loop: `h[:d] == '0' * d`. */
  predicate MeetsDifficulty(h: string, d: int) {
    SlicePrefix(h, d) == Zeros(d)
  }

  /** For a non-negative difficulty the test means "the first d characters are all '0'". */
  lemma LeadingZeros(h: string, d: int)
    requires d >= 0
    ensures MeetsDifficulty(h, d) <==> d <= |h| && forall i :: 0 <= i < d ==> h[i] == '0'
  {
    var p, z := SlicePrefix(h, d), Zeros(d);
    if d <= |h| && forall i :: 0 <= i < d ==> h[i] == '0' {
      assert |p| == |z|;
      assert forall i :: 0 <= i < |p| ==> p[i] == z[i];
    }
  }

  /** Difficulty 0 accepts every digest. */
  lemma ZeroDifficultyAlwaysMet(h: string)
    ensures MeetsDifficulty(h, 0)
  {
    assert SlicePrefix(h, 0) == "";
  }

  /** A digest that meets a difficulty meets every smaller non-negative one. */
  lemma DifficultyMonotone(h: string, d: int, e: int)
    requires MeetsDifficulty(h, d)
    requires 0 <= e <= d
    ensures MeetsDifficulty(h, e)
  {
    LeadingZeros(h, d);
    LeadingZeros(h, e);
  }

  /** A difficulty above the digest length can never be met. */
  lemma OverlongDifficultyNeverMet(h: Digest, d: int)
    requires d > DIGEST_LENGTH
    ensures !MeetsDifficulty(h, d)
  {
    LeadingZeros(h, d);
  }

  /**
   A negative difficulty between -64 and -1 can never be met: the slice keeps
   64 + d characters while `'0' * d` is empty, so the mining loop never exits.
   */
  lemma NegativeDifficultyNeverMet(h: Digest, d: int)
    requires -DIGEST_LENGTH < d < 0
    ensures !MeetsDifficulty(h, d)
  {
    assert |SlicePrefix(h, d)| == DIGEST_LENGTH + d;
    assert |Zeros(d)| == 0;
  }

  /** A difficulty of -64 or less slices away the whole digest, so it is met at once. */
  lemma VeryNegativeDifficultyAlwaysMet(h: Digest, d: int)
    requires d <= -DIGEST_LENGTH
    ensures MeetsDifficulty(h, d)
  {
    assert SlicePrefix(h, d) == "";
  }
}
