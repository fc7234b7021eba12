/**
  Domain-separated digests: `digest(tag, payload)` hashes the tag's bytes, a zero byte and the payload.
  SHA-256 is a parameter; where two digests are compared it is required to be collision-free.
 */
module Digests {
  import opened Common
  import opened Canon
  import opened Text

  /** SHA-256 in hexadecimal. */
  type Hash = Bytes -> string

  ghost predicate CollisionFree(h: Hash) {
    forall x, y :: h(x) == h(y) ==> x == y
  }

  const NUL: char := 0 as char

  const ROLE_TAGS: seq<string> := [
    "subject-manifest/v1", "package/v1", "policy/v1", "context/v1",
    "evidence-manifest/v1", "decision/v1", "file/v1", "signer-set/v1"]

  function Preimage(tag: string, payload: Bytes): Bytes {
    tag + [NUL] + payload
  }

  function Digest(h: Hash, tag: string, payload: Bytes): Result<string, CanonError> {
    if tag in ROLE_TAGS then Ok("sha256:" + h(Preimage(tag, payload))) else Err(UnknownRoleTag)
  }

  /** `digest_obj`: the tag is checked after the value has been printed. */
  function DigestObj(h: Hash, tag: string, v: Value): Result<string, CanonError> {
    match TryCanon(v)
    case Err(e) => Err(e)
    case Ok(payload) => Digest(h, tag, payload)
  }

  lemma TagHasNoNul(tag: string)
    requires tag in ROLE_TAGS
    ensures NUL !in tag
  {
  }

  /** A preimage determines its role and its payload. */
  lemma PreimageInjective(tag: string, tag': string, p: Bytes, p': Bytes)
    requires tag in ROLE_TAGS && tag' in ROLE_TAGS
    requires Preimage(tag, p) == Preimage(tag', p')
    ensures tag == tag' && p == p'
  {
    TagHasNoNul(tag);
    TagHasNoNul(tag');
    CutFirst(NUL, tag, tag', p, p');
  }

  /** Two byte digests agree exactly when role and payload do: no role's digest stands for another's. */
  lemma DigestEqualIff(h: Hash, tag: string, tag': string, p: Bytes, p': Bytes)
    requires CollisionFree(h)
    requires tag in ROLE_TAGS && tag' in ROLE_TAGS
    ensures Digest(h, tag, p) == Digest(h, tag', p') <==> tag == tag' && p == p'
  {
    if Digest(h, tag, p) == Digest(h, tag', p') {
      assert h(Preimage(tag, p)) == Digest(h, tag, p).value[7..];
      assert h(Preimage(tag', p')) == Digest(h, tag', p').value[7..];
      PreimageInjective(tag, tag', p, p');
    }
  }

  /** Two object digests agree exactly when the roles are equal and the values are the same. */
  lemma ObjectDigestEqualIff(h: Hash, tag: string, tag': string, v: Value, w: Value)
    requires CollisionFree(h)
    requires tag in ROLE_TAGS && tag' in ROLE_TAGS
    requires InProfile(v) && InProfile(w) && Dict(v) && Dict(w)
    ensures DigestObj(h, tag, v) == DigestObj(h, tag', w) <==> tag == tag' && Same(v, w)
  {
    DigestEqualIff(h, tag, tag', Canonical(v), Canonical(w));
    CanonEqualIffSame(v, w);
  }
}
