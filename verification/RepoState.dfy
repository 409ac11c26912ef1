/**
  The state of the repository engine and the invariant its operations keep.

  Three maps stand for the process state of the server: the blob directory
  (path segments to file contents), `kv_store` (key to metadata record) and
  `index_store` (`"ns/name"` to its version group). The loaded schema, the
  hash function and the regex engine form the `Config`.
*/
module RepoState {
  import opened Wrappers
  import opened Text
  import opened Schema
  import opened BlobAddress
  import opened VersionIndex

  /** The `code` of a `RepositoryError`, and `INTERNAL_ERROR` for any other
      exception. */
  datatype ErrorCode =
    | ValidationError
    | BlobTooLarge
    | AlreadyExists
    | NotFound
    | BlobNotFound
    | TargetNotFound
    | InvalidJson
    | InternalError

  /** The HTTP status and error code the client receives. */
  datatype ApiError = ApiError(status: int, code: ErrorCode)

  /** What the engine reads from the schema and from its libraries:
      `entities.artifact`, `ops.limits.max_request_body_bytes`, SHA-256 and
      `re.match`. */
  datatype Config = Config(
    artifact: EntityConfig,
    maxRequestBodyBytes: nat,
    sha256: Sha256,
    matches: Matcher)

  /** A value of `kv_store`: artifact metadata or a tag. Timestamps are not
      modelled. */
  datatype Record =
    | ArtifactRecord(namespace: string, name: string, version: string, variant: string,
                     blobDigest: string, blobSize: nat, createdBy: string)
    | TagRecord(namespace: string, name: string, tag: string, targetKey: string, updatedBy: string)

  datatype State = State(
    blobs: map<seq<string>, Bytes>,
    kv: map<string, Record>,
    index: map<string, seq<Entry>>)

  /** The server as a process starts: `kv_store` and `index_store` are
      empty, while the blob directory keeps whatever earlier runs left in
      it. */
  function Start(blobs: map<seq<string>, Bytes>): (st: State)
    ensures st.blobs == blobs && st.kv == map[] && st.index == map[]
  {
    State(blobs, map[], map[])
  }

  /** `{ns}/{name}`. */
  function IndexKey(ns: string, name: string): (k: string)
    ensures k == Join([ns, name], '/')
  {
    ns + "/" + name
  }

  /** `artifact/{ns}/{name}/{version}/{variant}`: the group's index key
      extended by version and variant. */
  function ArtifactKey(ns: string, name: string, version: string, variant: string): (k: string)
    ensures StartsWith(k, "artifact/")
    ensures k == "artifact/" + IndexKey(ns, name) + "/" + version + "/" + variant
    ensures k == Join(["artifact", ns, name, version, variant], '/')
  {
    JoinFive("artifact", ns, name, version, variant);
    "artifact/" + ns + "/" + name + "/" + version + "/" + variant
  }

  /** `tag/{ns}/{name}/{tag}`. */
  function TagKey(ns: string, name: string, tag: string): (k: string)
    ensures StartsWith(k, "tag/")
    ensures k == Join(["tag", ns, name, tag], '/')
  {
    JoinFour("tag", ns, name, tag);
    "tag/" + ns + "/" + name + "/" + tag
  }

  lemma JoinFour(a: string, b: string, c: string, d: string)
    ensures a + "/" + b + "/" + c + "/" + d == Join([a, b, c, d], '/')
  {
    assert [c, d][1..] == [d];
    assert Join([c, d], '/') == c + "/" + d;
    assert [b, c, d][1..] == [c, d];
    assert Join([b, c, d], '/') == b + "/" + (c + "/" + d);
    assert [a, b, c, d][1..] == [b, c, d];
    assert Join([a, b, c, d], '/') == a + "/" + (b + "/" + (c + "/" + d));
  }

  lemma JoinFive(a: string, b: string, c: string, d: string, e: string)
    ensures a + "/" + b + "/" + c + "/" + d + "/" + e == Join([a, b, c, d, e], '/')
  {
    JoinFour(b, c, d, e);
    assert [a, b, c, d, e][1..] == [b, c, d, e];
    assert Join([a, b, c, d, e], '/') == a + "/" + (b + "/" + c + "/" + d + "/" + e);
  }

  /** Coordinates whose parts hold no `/` have distinct artifact keys. */
  lemma ArtifactKeyInjective(ns: string, name: string, version: string, variant: string,
                             ns2: string, name2: string, version2: string, variant2: string)
    requires '/' !in ns && '/' !in name && '/' !in version && '/' !in variant
    requires '/' !in ns2 && '/' !in name2 && '/' !in version2 && '/' !in variant2
    requires ArtifactKey(ns, name, version, variant) == ArtifactKey(ns2, name2, version2, variant2)
    ensures ns == ns2 && name == name2 && version == version2 && variant == variant2
  {
    var p1 := ["artifact", ns, name, version, variant];
    var p2 := ["artifact", ns2, name2, version2, variant2];
    assert forall i :: 0 <= i < |p1| ==> '/' !in p1[i];
    assert forall i :: 0 <= i < |p2| ==> '/' !in p2[i];
    SplitJoin(p1, '/');
    SplitJoin(p2, '/');
    assert p1 == p2;
  }

  /** Tags of packages whose parts hold no `/` have distinct keys. */
  lemma TagKeyInjective(ns: string, name: string, tag: string, ns2: string, name2: string, tag2: string)
    requires '/' !in ns && '/' !in name && '/' !in tag
    requires '/' !in ns2 && '/' !in name2 && '/' !in tag2
    requires TagKey(ns, name, tag) == TagKey(ns2, name2, tag2)
    ensures ns == ns2 && name == name2 && tag == tag2
  {
    var p1 := ["tag", ns, name, tag];
    var p2 := ["tag", ns2, name2, tag2];
    assert forall i :: 0 <= i < |p1| ==> '/' !in p1[i];
    assert forall i :: 0 <= i < |p2| ==> '/' !in p2[i];
    SplitJoin(p1, '/');
    SplitJoin(p2, '/');
    assert p1 == p2;
  }

  /** The key functions join parts with `/`, so when a `replace:` rule puts
      `/` into a normalized namespace or name, `a/b` + `c` and `a` + `b/c`
      share the index key and the artifact keys. */
  lemma SlashCollision()
    ensures IndexKey("a/b", "c") == IndexKey("a", "b/c")
    ensures ArtifactKey("a/b", "c", "1", "x") == ArtifactKey("a", "b/c", "1", "x")
  {
  }

  function EntryKey(e: Entry): string {
    ArtifactKey(e.namespace, e.name, e.version, e.variant)
  }

  /** The index row written for an artifact record. */
  function EntryOf(r: Record): Entry
    requires r.ArtifactRecord?
  {
    Entry(r.namespace, r.name, r.version, r.variant, r.blobDigest)
  }

  /** Artifact keys and tag keys never collide. */
  lemma KeyKinds(ns: string, name: string, version: string, variant: string, k: string)
    ensures StartsWith(ArtifactKey(ns, name, version, variant), "artifact/")
    ensures StartsWith(TagKey(ns, name, version), "tag/")
    ensures !(StartsWith(k, "artifact/") && StartsWith(k, "tag/"))
  {
    if StartsWith(k, "artifact/") {
      assert k[0] == 'a';
    }
  }

  lemma ArtifactKeyNotTag(ns: string, name: string, version: string, variant: string)
    ensures !StartsWith(ArtifactKey(ns, name, version, variant), "tag/")
  {
    KeyKinds(ns, name, version, variant, ArtifactKey(ns, name, version, variant));
  }

  lemma TagKeyNotArtifact(ns: string, name: string, tag: string)
    ensures !StartsWith(TagKey(ns, name, tag), "artifact/")
  {
    KeyKinds(ns, name, tag, "", TagKey(ns, name, tag));
  }

  // ---------------------------------------------------------------------------
  // The invariant
  // ---------------------------------------------------------------------------

  /** Every stored file sits at the path of its own content's digest. */
  predicate BlobsAddressed(sha: Sha256, blobs: map<seq<string>, Bytes>) {
    forall p | p in blobs :: p == BlobPath(ComputeDigest(sha, blobs[p]))
  }

  /** An index row of group `ik` is backed by the artifact record at its
      coordinate key, and belongs to that group. */
  predicate EntryBacked(kv: map<string, Record>, ik: string, e: Entry) {
    && IndexKey(e.namespace, e.name) == ik
    && EntryKey(e) in kv
    && kv[EntryKey(e)].ArtifactRecord?
    && EntryOf(kv[EntryKey(e)]) == e
  }

  predicate IndexBacked(kv: map<string, Record>, index: map<string, seq<Entry>>) {
    forall ik, i | ik in index && 0 <= i < |index[ik]| :: EntryBacked(kv, ik, index[ik][i])
  }

  /** An artifact record sits at its own coordinate key, is listed in its
      group, and its blob is stored with the recorded digest. */
  predicate RecordSound(sha: Sha256, st: State, k: string)
    requires k in st.kv && st.kv[k].ArtifactRecord?
  {
    var r := st.kv[k];
    var ik := IndexKey(r.namespace, r.name);
    var path := BlobPath(r.blobDigest);
    && k == EntryKey(EntryOf(r))
    && ik in st.index
    && EntryOf(r) in st.index[ik]
    && path in st.blobs
    && ComputeDigest(sha, st.blobs[path]) == r.blobDigest
  }

  predicate RecordsSound(sha: Sha256, st: State) {
    forall k | k in st.kv && st.kv[k].ArtifactRecord? :: RecordSound(sha, st, k)
  }

  /** A tag record sits under a `tag/` key and points at an artifact record. */
  predicate TagSound(kv: map<string, Record>, k: string)
    requires k in kv && kv[k].TagRecord?
  {
    var t := kv[k];
    && StartsWith(k, "tag/")
    && t.targetKey in kv
    && kv[t.targetKey].ArtifactRecord?
  }

  predicate TagsSound(kv: map<string, Record>) {
    forall k | k in kv && kv[k].TagRecord? :: TagSound(kv, k)
  }

  /** Each group is sorted by descending version and lists each coordinate
      once. */
  predicate GroupsOrdered(index: map<string, seq<Entry>>) {
    forall ik | ik in index :: Sorted(index[ik]) && DistinctCoordinates(index[ik])
  }

  /** The repository invariant: index rows and artifact records correspond
      one to one, groups are ordered, blobs are content-addressed and every
      tag points at an artifact. */
  predicate Inv(cfg: Config, st: State) {
    && BlobsAddressed(cfg.sha256, st.blobs)
    && IndexBacked(st.kv, st.index)
    && RecordsSound(cfg.sha256, st)
    && TagsSound(st.kv)
    && GroupsOrdered(st.index)
  }

  /** A start over a content-addressed blob directory is a good state: the
      empty stores carry no records to back. */
  lemma StartInv(cfg: Config, blobs: map<seq<string>, Bytes>)
    requires BlobsAddressed(cfg.sha256, blobs)
    ensures Inv(cfg, Start(blobs))
  {
  }

  /** An artifact key present in a good state holds an artifact record. */
  lemma ArtifactKeyHoldsArtifact(cfg: Config, st: State, ns: string, name: string, version: string, variant: string)
    requires Inv(cfg, st)
    requires ArtifactKey(ns, name, version, variant) in st.kv
    ensures st.kv[ArtifactKey(ns, name, version, variant)].ArtifactRecord?
  {
    var k := ArtifactKey(ns, name, version, variant);
    KeyKinds(ns, name, version, variant, k);
  }
}
