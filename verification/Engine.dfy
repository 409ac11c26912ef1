/**
  The five request handlers of the repository, as state transitions:
  publish, fetch, resolve-latest, set-tag and list-versions.

  Each handler normalizes its path segments with the artifact rules, then
  follows the code's order of checks. Authentication is not modelled: the
  principal's subject (`sub`, possibly missing) is an input. A `KeyError` on
  a normalized entity that lacks a coordinate field surfaces as the generic
  500 `INTERNAL_ERROR`.
*/
module Engine {
  import opened Wrappers
  import opened Text
  import opened Schema
  import opened BlobAddress
  import opened VersionIndex
  import opened RepoState

  /** A handler's reply together with the state it leaves behind. */
  datatype Transition<T> = Transition(reply: Result<T, ApiError>, next: State)

  /** 201 body of a publish: `{"ok": true, "digest": ..., "size": ...}`. */
  datatype Published = Published(digest: string, size: nat)

  /** 200 reply of a fetch: the file and its download name. */
  datatype Fetched = Fetched(content: Bytes, downloadName: string)

  /** 200 body of resolve-latest. */
  datatype Resolution = Resolution(namespace: string, name: string, version: string, variant: string, blobDigest: string)

  /** 200 body of list-versions. */
  datatype Versions = Versions(namespace: string, name: string, rows: seq<Entry>)

  /** 200 body of set-tag: `{"ok": true}`. */
  datatype Ack = Ack

  datatype Coordinate = Coordinate(namespace: string, name: string, version: string, variant: string)

  // ---------------------------------------------------------------------------
  // Request preparation
  // ---------------------------------------------------------------------------

  /** The raw dictionary built from the path segments. */
  function CoordinateInput(ns: string, name: string, version: string, variant: string): Fields {
    map["namespace" := ns, "name" := name, "version" := version, "variant" := variant]
  }

  /** Package-level handlers pass empty version and variant. */
  function PackageInput(ns: string, name: string): Fields {
    CoordinateInput(ns, name, "", "")
  }

  function TagInput(ns: string, name: string, tag: string): Fields {
    PackageInput(ns, name)["tag" := tag]
  }

  function Entity(cfg: Config, input: Fields): Fields {
    Normalize(cfg.artifact.fields, input)
  }

  /** `validate_entity` does not raise. */
  predicate Accepted(cfg: Config, entity: Fields) {
    FirstViolation(cfg.artifact.constraints, entity, cfg.matches).None?
  }

  /** The four coordinate fields of a normalized entity, when all exist. */
  function CoordinateOf(entity: Fields): Option<Coordinate> {
    if "namespace" in entity && "name" in entity && "version" in entity && "variant" in entity
    then Some(Coordinate(entity["namespace"], entity["name"], entity["version"], entity["variant"]))
    else None
  }

  function KeyOf(c: Coordinate): string {
    ArtifactKey(c.namespace, c.name, c.version, c.variant)
  }

  /** The group of `ik`, empty when absent: `index_store.get(ik, [])`. */
  function Group(st: State, ik: string): seq<Entry> {
    if ik in st.index then st.index[ik] else []
  }

  const Invalid := ApiError(400, ValidationError)
  const TooLarge := ApiError(413, BlobTooLarge)
  const Conflict := ApiError(409, AlreadyExists)
  const Missing := ApiError(404, NotFound)
  const MissingBlob := ApiError(404, BlobNotFound)
  const MissingTarget := ApiError(404, TargetNotFound)
  const BadJson := ApiError(400, InvalidJson)
  const Internal := ApiError(500, InternalError)

  // ---------------------------------------------------------------------------
  // Publish
  // ---------------------------------------------------------------------------

  /** Writes the body at its digest's path unless a file is already there. */
  function StoreBlob(cfg: Config, st: State, body: Bytes): (r: State)
    ensures r.kv == st.kv && r.index == st.index
    ensures BlobPath(ComputeDigest(cfg.sha256, body)) in r.blobs
    ensures forall p :: p in st.blobs ==> p in r.blobs && r.blobs[p] == st.blobs[p]
    ensures forall p :: p in r.blobs && p !in st.blobs
                        ==> p == BlobPath(ComputeDigest(cfg.sha256, body)) && r.blobs[p] == body
  {
    var path := BlobPath(ComputeDigest(cfg.sha256, body));
    if path in st.blobs then st else st.(blobs := st.blobs[path := body])
  }

  /** The artifact record and index row a successful publish writes. */
  function AddArtifact(st: State, c: Coordinate, digest: string, size: nat, createdBy: string): (r: State)
    ensures r.blobs == st.blobs
    ensures r.kv.Keys == st.kv.Keys + {KeyOf(c)}
  {
    var record := ArtifactRecord(c.namespace, c.name, c.version, c.variant, digest, size, createdBy);
    var ik := IndexKey(c.namespace, c.name);
    st.(kv := st.kv[KeyOf(c) := record],
        index := st.index[ik := Insert(Group(st, ik), EntryOf(record))])
  }

  /** `publish_artifact_blob`. The blob is written before the duplicate check,
      so a rejected duplicate can still add a file. */
  function Publish(cfg: Config, st: State, ns: string, name: string, version: string, variant: string,
                   subject: Option<string>, body: Bytes): (t: Transition<Published>)
    ensures t.reply.Failure? ==> t.next.kv == st.kv && t.next.index == st.index
    ensures t.reply == Failure(TooLarge)
            <==> Accepted(cfg, Entity(cfg, CoordinateInput(ns, name, version, variant)))
                 && |body| > cfg.maxRequestBodyBytes
    ensures |body| > cfg.maxRequestBodyBytes ==> t.reply.Failure? && t.next == st
    ensures forall p :: p in st.blobs ==> p in t.next.blobs && t.next.blobs[p] == st.blobs[p]
    ensures forall p :: p in t.next.blobs && p !in st.blobs
                        ==> p == BlobPath(ComputeDigest(cfg.sha256, body)) && t.next.blobs[p] == body
    ensures t.reply.Success? ==> t.reply.value == Published(ComputeDigest(cfg.sha256, body), |body|)
    ensures var e := Entity(cfg, CoordinateInput(ns, name, version, variant));
            && (t.reply == Failure(Invalid) <==> !Accepted(cfg, e))
            && (!Accepted(cfg, e) ==> t.next == st)
            && (t.reply == Failure(Internal)
                <==> Accepted(cfg, e) && |body| <= cfg.maxRequestBodyBytes && CoordinateOf(e).None?)
            && (t.reply == Failure(Conflict)
                <==> Accepted(cfg, e) && |body| <= cfg.maxRequestBodyBytes
                     && CoordinateOf(e).Some? && KeyOf(CoordinateOf(e).value) in st.kv)
    ensures t.reply == Failure(Internal) || t.reply == Failure(Conflict) || t.reply.Success?
            ==> BlobPath(ComputeDigest(cfg.sha256, body)) in t.next.blobs
  {
    var entity := Entity(cfg, CoordinateInput(ns, name, version, variant));
    if !Accepted(cfg, entity) then Transition(Failure(Invalid), st)
    else if |body| > cfg.maxRequestBodyBytes then Transition(Failure(TooLarge), st)
    else
      var digest := ComputeDigest(cfg.sha256, body);
      var stored := StoreBlob(cfg, st, body);
      match CoordinateOf(entity)
      case None => Transition(Failure(Internal), stored)
      case Some(c) =>
        if KeyOf(c) in st.kv then Transition(Failure(Conflict), stored)
        else Transition(Success(Published(digest, |body|)),
                        AddArtifact(stored, c, digest, |body|, subject.ValueOr("unknown")))
  }

  // ---------------------------------------------------------------------------
  // Fetch, resolve-latest, list-versions
  // ---------------------------------------------------------------------------

  /** `fetch_artifact_blob`: reads only. */
  function Fetch(cfg: Config, st: State, ns: string, name: string, version: string, variant: string): (r: Result<Fetched, ApiError>)
    ensures r.Failure? ==> r.error in {Invalid, Internal, Missing, MissingBlob}
    ensures r.Success? ==> r.value.content in st.blobs.Values
    ensures var e := Entity(cfg, CoordinateInput(ns, name, version, variant));
            && (r == Failure(Invalid) <==> !Accepted(cfg, e))
            && (r == Failure(Missing)
                <==> Accepted(cfg, e) && CoordinateOf(e).Some? && KeyOf(CoordinateOf(e).value) !in st.kv)
            && (r == Failure(Internal)
                <==> Accepted(cfg, e)
                     && (CoordinateOf(e).None?
                         || (KeyOf(CoordinateOf(e).value) in st.kv && st.kv[KeyOf(CoordinateOf(e).value)].TagRecord?)))
    ensures var e := Entity(cfg, CoordinateInput(ns, name, version, variant));
            Accepted(cfg, e) && CoordinateOf(e).Some? && KeyOf(CoordinateOf(e).value) in st.kv
            && st.kv[KeyOf(CoordinateOf(e).value)].ArtifactRecord?
            ==> var c := CoordinateOf(e).value;
                var path := BlobPath(st.kv[KeyOf(c)].blobDigest);
                && (r == Failure(MissingBlob) <==> path !in st.blobs)
                && (r.Success? <==> path in st.blobs)
                && (r.Success? ==> r.value == Fetched(st.blobs[path], c.name + "-" + c.version + ".tar.gz"))
  {
    var entity := Entity(cfg, CoordinateInput(ns, name, version, variant));
    if !Accepted(cfg, entity) then Failure(Invalid)
    else match CoordinateOf(entity)
      case None => Failure(Internal)
      case Some(c) =>
        if KeyOf(c) !in st.kv then Failure(Missing)
        else match st.kv[KeyOf(c)]
          case TagRecord(_, _, _, _, _) => Failure(Internal)
          case ArtifactRecord(_, _, _, _, digest, _, _) =>
            var path := BlobPath(digest);
            if path !in st.blobs then Failure(MissingBlob)
            else Success(Fetched(st.blobs[path], c.name + "-" + c.version + ".tar.gz"))
  }

  /** `list_versions`: the group of the normalized `ns/name`, possibly empty.
      No validation is run. */
  function ListVersions(cfg: Config, st: State, ns: string, name: string): (r: Result<Versions, ApiError>)
    ensures r.Failure? ==> r.error == Internal
    ensures var e := Entity(cfg, PackageInput(ns, name));
            && (r.Success? <==> "namespace" in e && "name" in e)
            && (r.Success? ==> r.value == Versions(e["namespace"], e["name"], Group(st, IndexKey(e["namespace"], e["name"]))))
  {
    var entity := Entity(cfg, PackageInput(ns, name));
    if "namespace" !in entity || "name" !in entity then Failure(Internal)
    else
      var ik := IndexKey(entity["namespace"], entity["name"]);
      Success(Versions(entity["namespace"], entity["name"], Group(st, ik)))
  }

  /** `resolve_latest`: the first row of the group. No validation is run. */
  function ResolveLatest(cfg: Config, st: State, ns: string, name: string): (r: Result<Resolution, ApiError>)
    ensures r.Failure? ==> r.error in {Internal, Missing}
    ensures var e := Entity(cfg, PackageInput(ns, name));
            && (r == Failure(Internal) <==> "namespace" !in e || "name" !in e)
            && (r == Failure(Missing)
                <==> "namespace" in e && "name" in e && Group(st, IndexKey(e["namespace"], e["name"])) == [])
  {
    var entity := Entity(cfg, PackageInput(ns, name));
    if "namespace" !in entity || "name" !in entity then Failure(Internal)
    else
      var rows := Group(st, IndexKey(entity["namespace"], entity["name"]));
      if |rows| == 0 then Failure(Missing)
      else Success(Resolution(entity["namespace"], entity["name"], rows[0].version, rows[0].variant, rows[0].blobDigest))
  }

  // ---------------------------------------------------------------------------
  // Set-tag
  // ---------------------------------------------------------------------------

  /** The JSON body of a set-tag request: `None` when it is not a JSON object
      (absent, malformed or of another content type). */
  type TagBody = Option<map<string, string>>

  /** Every failure of the body check, including the missing-field case the
      code raises as `INVALID_REQUEST`, is caught by the surrounding
      `except Exception` and reported as `INVALID_JSON`. */
  predicate BodyUsable(body: TagBody) {
    body.Some? && |body.value| > 0 && "target_version" in body.value && "target_variant" in body.value
  }

  /** `set_tag`. The target key is built from the raw body values, not from
      normalized ones. */
  function SetTag(cfg: Config, st: State, ns: string, name: string, tag: string,
                  subject: Option<string>, body: TagBody): (t: Transition<Ack>)
    ensures t.reply.Failure? ==> t.next == st
    ensures t.next.blobs == st.blobs && t.next.index == st.index
    ensures t.reply.Success? ==> |t.next.kv.Keys - st.kv.Keys| <= 1 && st.kv.Keys <= t.next.kv.Keys
    ensures t.reply.Success? ==> var e := Entity(cfg, TagInput(ns, name, tag));
                                 Accepted(cfg, e) && BodyUsable(body) && "namespace" in e && "name" in e && "tag" in e
  {
    var entity := Entity(cfg, TagInput(ns, name, tag));
    if !Accepted(cfg, entity) then Transition(Failure(Invalid), st)
    else if !BodyUsable(body) then Transition(Failure(BadJson), st)
    else if "namespace" !in entity || "name" !in entity then Transition(Failure(Internal), st)
    else
      var target := ArtifactKey(entity["namespace"], entity["name"],
                                body.value["target_version"], body.value["target_variant"]);
      if target !in st.kv then Transition(Failure(MissingTarget), st)
      else if "tag" !in entity then Transition(Failure(Internal), st)
      else
        var tk := TagKey(entity["namespace"], entity["name"], entity["tag"]);
        var record := TagRecord(entity["namespace"], entity["name"], entity["tag"], target, subject.ValueOr("unknown"));
        assert st.kv[tk := record].Keys - st.kv.Keys <= {tk};
        Transition(Success(Ack), st.(kv := st.kv[tk := record]))
  }

  // ---------------------------------------------------------------------------
  // Invariant preservation
  // ---------------------------------------------------------------------------

  /** The stored file at a digest's path has that digest. */
  lemma StoredBlobMatches(cfg: Config, st: State, body: Bytes)
    requires BlobsAddressed(cfg.sha256, st.blobs)
    ensures var digest := ComputeDigest(cfg.sha256, body);
            var s := StoreBlob(cfg, st, body);
            BlobPath(digest) in s.blobs && ComputeDigest(cfg.sha256, s.blobs[BlobPath(digest)]) == digest
  {
    var digest := ComputeDigest(cfg.sha256, body);
    var path := BlobPath(digest);
    if path in st.blobs {
      PathInjective(ComputeDigest(cfg.sha256, st.blobs[path]), digest);
    }
  }

  lemma StoreBlobAddressed(cfg: Config, st: State, body: Bytes)
    requires BlobsAddressed(cfg.sha256, st.blobs)
    ensures BlobsAddressed(cfg.sha256, StoreBlob(cfg, st, body).blobs)
  {
  }

  lemma StoreBlobRecordsSound(cfg: Config, st: State, body: Bytes)
    requires RecordsSound(cfg.sha256, st)
    ensures RecordsSound(cfg.sha256, StoreBlob(cfg, st, body))
  {
    var s := StoreBlob(cfg, st, body);
    forall k | k in s.kv && s.kv[k].ArtifactRecord?
      ensures RecordSound(cfg.sha256, s, k)
    {
      assert RecordSound(cfg.sha256, st, k);
    }
  }

  lemma StoreBlobKeepsInv(cfg: Config, st: State, body: Bytes)
    requires Inv(cfg, st)
    ensures Inv(cfg, StoreBlob(cfg, st, body))
  {
    StoreBlobAddressed(cfg, st, body);
    StoreBlobRecordsSound(cfg, st, body);
    assert StoreBlob(cfg, st, body).kv == st.kv && StoreBlob(cfg, st, body).index == st.index;
  }

  /** A row backed before a record is added at a fresh key stays backed. */
  lemma StaysBacked(st: State, s: State, ik: string, x: Entry)
    requires EntryBacked(st.kv, ik, x)
    requires forall k :: k in st.kv ==> k in s.kv && s.kv[k] == st.kv[k]
    ensures EntryBacked(s.kv, ik, x)
  {
  }

  /** Every row of a group after an insertion is the new row or an old,
      backed one. */
  lemma InsertBacked(st: State, s: State, ik: string, g: seq<Entry>, e: Entry, i: int)
    requires forall j :: 0 <= j < |g| ==> EntryBacked(st.kv, ik, g[j])
    requires forall k :: k in st.kv ==> k in s.kv && s.kv[k] == st.kv[k]
    requires EntryBacked(s.kv, ik, e)
    requires 0 <= i < |Insert(g, e)|
    ensures EntryBacked(s.kv, ik, Insert(g, e)[i])
  {
    var x := Insert(g, e)[i];
    assert x in multiset(Insert(g, e));
    if x != e {
      assert x in multiset(g);
      var j :| 0 <= j < |g| && g[j] == x;
      StaysBacked(st, s, ik, x);
    }
  }

  /** Old rows of a group stay backed when the new record goes to a fresh
      key. */
  lemma AddArtifactIndexBacked(cfg: Config, st: State, c: Coordinate, digest: string, size: nat, author: string)
    requires Inv(cfg, st)
    requires KeyOf(c) !in st.kv
    ensures IndexBacked(AddArtifact(st, c, digest, size, author).kv, AddArtifact(st, c, digest, size, author).index)
  {
    var s := AddArtifact(st, c, digest, size, author);
    var ik := IndexKey(c.namespace, c.name);
    forall ik2, i | ik2 in s.index && 0 <= i < |s.index[ik2]|
      ensures EntryBacked(s.kv, ik2, s.index[ik2][i])
    {
      if ik2 == ik {
        var e := EntryOf(ArtifactRecord(c.namespace, c.name, c.version, c.variant, digest, size, author));
        var g := Group(st, ik);
        forall j | 0 <= j < |g|
          ensures EntryBacked(st.kv, ik, g[j])
        {
          assert EntryBacked(st.kv, ik, st.index[ik][j]);
        }
        InsertBacked(st, s, ik, g, e, i);
      } else {
        assert EntryBacked(st.kv, ik2, st.index[ik2][i]);
        StaysBacked(st, s, ik2, s.index[ik2][i]);
      }
    }
  }

  /** A record sound before a new record is added at a fresh key stays
      sound. */
  lemma OldRecordStaysSound(cfg: Config, st: State, c: Coordinate, digest: string, size: nat, author: string, k: string)
    requires k in st.kv && st.kv[k].ArtifactRecord?
    requires RecordSound(cfg.sha256, st, k)
    requires KeyOf(c) !in st.kv
    ensures var s := AddArtifact(st, c, digest, size, author);
            k in s.kv && RecordSound(cfg.sha256, s, k)
  {
    var e := EntryOf(ArtifactRecord(c.namespace, c.name, c.version, c.variant, digest, size, author));
    var ik := IndexKey(c.namespace, c.name);
    var r := st.kv[k];
    if IndexKey(r.namespace, r.name) == ik {
      assert EntryOf(r) in multiset(Group(st, ik));
      assert EntryOf(r) in multiset(Insert(Group(st, ik), e));
    }
  }

  lemma AddArtifactRecordsSound(cfg: Config, st: State, c: Coordinate, digest: string, size: nat, author: string)
    requires RecordsSound(cfg.sha256, st)
    requires KeyOf(c) !in st.kv
    requires BlobPath(digest) in st.blobs && ComputeDigest(cfg.sha256, st.blobs[BlobPath(digest)]) == digest
    ensures RecordsSound(cfg.sha256, AddArtifact(st, c, digest, size, author))
  {
    var s := AddArtifact(st, c, digest, size, author);
    var e := EntryOf(ArtifactRecord(c.namespace, c.name, c.version, c.variant, digest, size, author));
    var ik := IndexKey(c.namespace, c.name);
    forall k | k in s.kv && s.kv[k].ArtifactRecord?
      ensures RecordSound(cfg.sha256, s, k)
    {
      if k == KeyOf(c) {
        assert e in multiset(Insert(Group(st, ik), e));
      } else {
        OldRecordStaysSound(cfg, st, c, digest, size, author, k);
      }
    }
  }


  lemma AddArtifactTagsSound(cfg: Config, st: State, c: Coordinate, digest: string, size: nat, author: string)
    requires Inv(cfg, st)
    requires KeyOf(c) !in st.kv
    ensures TagsSound(AddArtifact(st, c, digest, size, author).kv)
  {
    var s := AddArtifact(st, c, digest, size, author);
    forall k | k in s.kv && s.kv[k].TagRecord?
      ensures TagSound(s.kv, k)
    {
      assert TagSound(st.kv, k);
    }
  }

  lemma AddArtifactGroupsOrdered(cfg: Config, st: State, c: Coordinate, digest: string, size: nat, author: string)
    requires Inv(cfg, st)
    requires KeyOf(c) !in st.kv
    ensures GroupsOrdered(AddArtifact(st, c, digest, size, author).index)
  {
    var record := ArtifactRecord(c.namespace, c.name, c.version, c.variant, digest, size, author);
    var e := EntryOf(record);
    var ik := IndexKey(c.namespace, c.name);
    var g := Group(st, ik);
    forall i | 0 <= i < |g|
      ensures !SameCoordinate(g[i], e)
    {
      assert EntryBacked(st.kv, ik, st.index[ik][i]);
    }
    InsertSorted(g, e);
    InsertDistinct(g, e);
  }

  lemma AddArtifactKeepsInv(cfg: Config, st: State, c: Coordinate, digest: string, size: nat, author: string)
    requires Inv(cfg, st)
    requires KeyOf(c) !in st.kv
    requires BlobPath(digest) in st.blobs && ComputeDigest(cfg.sha256, st.blobs[BlobPath(digest)]) == digest
    ensures Inv(cfg, AddArtifact(st, c, digest, size, author))
  {
    AddArtifactIndexBacked(cfg, st, c, digest, size, author);
    AddArtifactRecordsSound(cfg, st, c, digest, size, author);
    AddArtifactTagsSound(cfg, st, c, digest, size, author);
    AddArtifactGroupsOrdered(cfg, st, c, digest, size, author);
  }

  /** Publishing, whatever its outcome, keeps the repository invariant. */
  lemma PublishKeepsInv(cfg: Config, st: State, ns: string, name: string, version: string, variant: string,
                        subject: Option<string>, body: Bytes)
    requires Inv(cfg, st)
    ensures Inv(cfg, Publish(cfg, st, ns, name, version, variant, subject, body).next)
  {
    var entity := Entity(cfg, CoordinateInput(ns, name, version, variant));
    if Accepted(cfg, entity) && |body| <= cfg.maxRequestBodyBytes {
      var stored := StoreBlob(cfg, st, body);
      StoreBlobKeepsInv(cfg, st, body);
      StoredBlobMatches(cfg, st, body);
      match CoordinateOf(entity)
      case None =>
      case Some(c) =>
        if KeyOf(c) !in st.kv {
          AddArtifactKeepsInv(cfg, stored, c, ComputeDigest(cfg.sha256, body), |body|, subject.ValueOr("unknown"));
        }
    }
  }

  /** Artifact records never sit under a `tag/` key. */
  lemma ArtifactsNotUnderTags(cfg: Config, st: State)
    requires RecordsSound(cfg.sha256, st)
    ensures forall k :: k in st.kv && st.kv[k].ArtifactRecord? ==> !StartsWith(k, "tag/")
  {
    forall k | k in st.kv && st.kv[k].ArtifactRecord?
      ensures !StartsWith(k, "tag/")
    {
      assert RecordSound(cfg.sha256, st, k);
      var r := st.kv[k];
      ArtifactKeyNotTag(r.namespace, r.name, r.version, r.variant);
    }
  }

  /** Writing a tag under a `tag/` key leaves every index row backed. */
  lemma PutTagIndexBacked(kv: map<string, Record>, index: map<string, seq<Entry>>, tk: string, t: Record)
    requires IndexBacked(kv, index)
    requires StartsWith(tk, "tag/")
    ensures IndexBacked(kv[tk := t], index)
  {
    forall ik, i | ik in index && 0 <= i < |index[ik]|
      ensures EntryBacked(kv[tk := t], ik, index[ik][i])
    {
      var x := index[ik][i];
      assert EntryBacked(kv, ik, x);
      ArtifactKeyNotTag(x.namespace, x.name, x.version, x.variant);
    }
  }

  lemma PutTagRecordsSound(sha: Sha256, st: State, tk: string, t: Record)
    requires RecordsSound(sha, st)
    requires t.TagRecord?
    ensures RecordsSound(sha, st.(kv := st.kv[tk := t]))
  {
    var s := st.(kv := st.kv[tk := t]);
    forall k | k in s.kv && s.kv[k].ArtifactRecord?
      ensures RecordSound(sha, s, k)
    {
      assert RecordSound(sha, st, k);
    }
  }

  /** A tag pointing at an artifact, written under a `tag/` key, keeps every
      tag pointing at an artifact. */
  lemma PutTagTagsSound(kv: map<string, Record>, tk: string, t: Record)
    requires TagsSound(kv)
    requires forall k :: k in kv && kv[k].ArtifactRecord? ==> !StartsWith(k, "tag/")
    requires StartsWith(tk, "tag/")
    requires t.TagRecord? && t.targetKey in kv && kv[t.targetKey].ArtifactRecord?
    ensures TagsSound(kv[tk := t])
  {
    var kv2 := kv[tk := t];
    forall k | k in kv2 && kv2[k].TagRecord?
      ensures TagSound(kv2, k)
    {
      if k != tk {
        assert TagSound(kv, k);
      }
    }
  }

  lemma SetTagKeepsInv(cfg: Config, st: State, ns: string, name: string, tag: string,
                       subject: Option<string>, body: TagBody)
    requires Inv(cfg, st)
    ensures Inv(cfg, SetTag(cfg, st, ns, name, tag, subject, body).next)
  {
    var t := SetTag(cfg, st, ns, name, tag, subject, body);
    if t.reply.Success? {
      var entity := Entity(cfg, TagInput(ns, name, tag));
      var tv := body.value["target_version"];
      var tvar := body.value["target_variant"];
      var tk := TagKey(entity["namespace"], entity["name"], entity["tag"]);
      var record := t.next.kv[tk];
      assert t.next == st.(kv := st.kv[tk := record]);
      ArtifactKeyHoldsArtifact(cfg, st, entity["namespace"], entity["name"], tv, tvar);
      KeyKinds(entity["namespace"], entity["name"], entity["tag"], "", tk);
      ArtifactsNotUnderTags(cfg, st);
      PutTagIndexBacked(st.kv, st.index, tk, record);
      PutTagRecordsSound(cfg.sha256, st, tk, record);
      PutTagTagsSound(st.kv, tk, record);
    }
  }
}
