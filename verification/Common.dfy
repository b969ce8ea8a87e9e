/** Vocabulary shared by every module: optional values, results, bytes and digests. */
module Common {

  datatype Option<+T> = None | Some(value: T)

  datatype Result<+T, +E> = Ok(value: T) | Err(error: E)

  type Byte = x: int | 0 <= x < 256

  type Bytes = seq<Byte>

  /** A SHA-256 digest: 32 raw bytes. */
  type Digest = b: Bytes | |b| == 32 witness seq(32, _ => 0)

  /** SHA-256 is foreign code: any function from messages to 32-byte digests. */
  type Sha = Bytes -> Digest

  /** Two different messages with one digest. No theorem assumes there are none. */
  ghost predicate Collides(sha: Sha, a: Bytes, b: Bytes) {
    a != b && sha(a) == sha(b)
  }

  /** int.bit_length. */
  function BitLength(n: nat): nat {
    if n == 0 then 0 else 1 + BitLength(n / 2)
  }

  lemma Assoc<X>(a: seq<X>, b: seq<X>, c: seq<X>)
    ensures a + (b + c) == (a + b) + c
  {
  }

  lemma NilRight<X>(a: seq<X>)
    ensures a + [] == a
  {
  }

  lemma CancelLeft<X>(a: seq<X>, s: seq<X>, t: seq<X>)
    requires a + s == a + t
    ensures s == t
  {
    assert s == (a + s)[|a|..] && t == (a + t)[|a|..];
  }

  lemma SplitSame<X>(a: seq<X>, b: seq<X>, s: seq<X>, t: seq<X>)
    requires |a| == |b| && a + s == b + t
    ensures a == b && s == t
  {
    assert a == (a + s)[..|a|] && b == (b + t)[..|a|];
    assert s == (a + s)[|a|..] && t == (b + t)[|a|..];
  }
}
