/**
  Content addressing of blobs: `compute_blob_digest` and `get_blob_path`.

  SHA-256 itself is not modelled: a `Sha256` is any function from bytes to a
  64-character lower-case hex string, which is what `hashlib`'s `hexdigest()`
  returns. A blob path is the list of segments below the blob directory,
  `[c[:2], c[2:4], c]` for the cleaned digest `c`.
*/
module BlobAddress {
  import opened Text

  newtype byte = b: int | 0 <= b < 256

  type Bytes = seq<byte>

  predicate IsHexDigit(c: char) {
    '0' <= c <= '9' || 'a' <= c <= 'f'
  }

  predicate IsHexDigest(h: string) {
    |h| == 64 && forall i :: 0 <= i < |h| ==> IsHexDigit(h[i])
  }

  type Hex64 = h: string | IsHexDigest(h)
    witness seq(64, _ => '0')

  /** `hashlib.sha256(data).hexdigest()`, left uninterpreted. */
  type Sha256 = Bytes -> Hex64

  const DigestPrefix: string := "sha256:"

  /** A digest as the repository writes it: `sha256:` and 64 hex digits. */
  predicate IsDigest(d: string) {
    |d| == |DigestPrefix| + 64 && d[..|DigestPrefix|] == DigestPrefix && IsHexDigest(d[|DigestPrefix|..])
  }

  /** `compute_blob_digest`: the algorithm prefix followed by the hex hash. */
  function ComputeDigest(sha: Sha256, data: Bytes): (d: string)
    ensures IsDigest(d)
    ensures d[|DigestPrefix|..] == sha(data)
  {
    DigestPrefix + sha(data)
  }

  /** `get_blob_path`: every `sha256:` is removed, then the cleaned digest is
      sharded into two directory levels of (at most) two characters each.
      The two shard names together are a prefix of the file name. */
  function BlobPath(digest: string): (p: seq<string>)
    ensures |p| == 3
    ensures p[0] + p[1] <= p[2]
    ensures |p[0]| <= 2 && |p[1]| <= 2
    ensures |p[2]| >= 4 ==> |p[0]| == 2 && |p[1]| == 2
  {
    var clean := Replace(digest, DigestPrefix, "");
    var p := [Slice(clean, 0, 2), Slice(clean, 2, 4), clean];
    assert p[0] + p[1] == clean[..|p[0]| + |p[1]|];
    p
  }

  /** A hex string holds no `sha256:`, because it holds no colon. */
  lemma HexHasNoPrefix(h: string)
    requires IsHexDigest(h)
    ensures !Occurs(DigestPrefix, h)
  {
    forall i | 0 <= i <= |h|
      ensures !OccursAt(DigestPrefix, h, i)
    {
      if i + |DigestPrefix| <= |h| {
        assert h[i..i + |DigestPrefix|][6] == h[i + 6];
        assert IsHexDigit(h[i + 6]);
      }
    }
  }

  /** Cleaning a well-formed digest leaves exactly its hex part. */
  lemma CleanDigest(h: string)
    requires IsHexDigest(h)
    ensures Replace(DigestPrefix + h, DigestPrefix, "") == h
  {
    var d := DigestPrefix + h;
    assert DigestPrefix <= d;
    assert d[|DigestPrefix|..] == h;
    HexHasNoPrefix(h);
    ReplaceAbsent(h, DigestPrefix, "");
  }

  /** The path of a computed digest is `[h[:2], h[2:4], h]` for the hex hash
      `h`: the last segment is the whole cleaned digest. */
  lemma DigestPath(sha: Sha256, data: Bytes)
    ensures var h := sha(data);
            BlobPath(ComputeDigest(sha, data)) == [h[..2], h[2..4], h]
  {
    CleanDigest(sha(data));
  }

  /** The `sha256:` prefix is optional: a bare hex digest maps to the same
      path. */
  lemma BareHexSamePath(h: string)
    requires IsHexDigest(h)
    ensures BlobPath(h) == BlobPath(DigestPrefix + h)
  {
    CleanDigest(h);
    HexHasNoPrefix(h);
    ReplaceAbsent(h, DigestPrefix, "");
  }

  /** Distinct well-formed digests never share a path. */
  lemma PathInjective(d1: string, d2: string)
    requires IsDigest(d1) && IsDigest(d2)
    requires BlobPath(d1) == BlobPath(d2)
    ensures d1 == d2
  {
    var h1 := d1[|DigestPrefix|..];
    var h2 := d2[|DigestPrefix|..];
    assert d1 == DigestPrefix + h1;
    assert d2 == DigestPrefix + h2;
    CleanDigest(h1);
    CleanDigest(h2);
  }
}
