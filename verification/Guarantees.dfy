/**
  What the handlers promise when used together: a published artifact can be
  fetched back, cannot be published twice, shows up in its version list, and
  the latest version is the head of that list and its maximum.
*/
module Guarantees {
  import opened Wrappers
  import opened Text
  import opened Schema
  import opened BlobAddress
  import opened VersionIndex
  import opened RepoState
  import opened Engine

  /** The artifact record a successful publish writes. */
  function RecordFor(c: Coordinate, digest: string, size: nat, author: string): Record {
    ArtifactRecord(c.namespace, c.name, c.version, c.variant, digest, size, author)
  }

  // ---------------------------------------------------------------------------
  // Publish
  // ---------------------------------------------------------------------------

  /** A publish succeeds exactly when the coordinate is valid, the body fits,
      all four coordinate fields survive normalization and no record exists
      yet. */
  lemma PublishSucceeds(cfg: Config, st: State, ns: string, name: string, version: string, variant: string,
                        subject: Option<string>, body: Bytes)
    ensures var t := Publish(cfg, st, ns, name, version, variant, subject, body);
            var entity := Entity(cfg, CoordinateInput(ns, name, version, variant));
            t.reply.Success?
            <==> Accepted(cfg, entity) && |body| <= cfg.maxRequestBodyBytes
                 && CoordinateOf(entity).Some? && KeyOf(CoordinateOf(entity).value) !in st.kv
  {
  }

  /** A successful publish adds one record and one row of its group, placed
      as the stable reverse sort places it (`InsertPosition`), and changes no
      other record or group. */
  lemma {:induction false} PublishOutcome(cfg: Config, st: State, ns: string, name: string, version: string, variant: string,
                                          subject: Option<string>, body: Bytes)
    requires Publish(cfg, st, ns, name, version, variant, subject, body).reply.Success?
    ensures var t := Publish(cfg, st, ns, name, version, variant, subject, body);
            var entity := Entity(cfg, CoordinateInput(ns, name, version, variant));
            && CoordinateOf(entity).Some?
            && var c := CoordinateOf(entity).value;
               var ik := IndexKey(c.namespace, c.name);
               var record := RecordFor(c, ComputeDigest(cfg.sha256, body), |body|, subject.ValueOr("unknown"));
               && KeyOf(c) !in st.kv
               && t.next.kv == st.kv[KeyOf(c) := record]
               && t.next.index.Keys == st.index.Keys + {ik}
               && multiset(t.next.index[ik]) == multiset(Group(st, ik)) + multiset{EntryOf(record)}
               && t.next.index[ik] == Insert(Group(st, ik), EntryOf(record))
               && (forall ik2 :: ik2 in st.index && ik2 != ik ==> t.next.index[ik2] == st.index[ik2])
  {
    PublishSucceeds(cfg, st, ns, name, version, variant, subject, body);
    var entity := Entity(cfg, CoordinateInput(ns, name, version, variant));
    var c := CoordinateOf(entity).value;
    var stored := StoreBlob(cfg, st, body);
    var digest := ComputeDigest(cfg.sha256, body);
    var author := subject.ValueOr("unknown");
    assert Publish(cfg, st, ns, name, version, variant, subject, body).next == AddArtifact(stored, c, digest, |body|, author);
    assert stored.kv == st.kv && stored.index == st.index;
  }

  /** A coordinate that already has a record is refused with 409, and the
      metadata is left alone; the blob, however, has been written by then. */
  lemma PublishExistingConflicts(cfg: Config, st: State, ns: string, name: string, version: string, variant: string,
                                 subject: Option<string>, body: Bytes)
    requires var entity := Entity(cfg, CoordinateInput(ns, name, version, variant));
             && Accepted(cfg, entity) && |body| <= cfg.maxRequestBodyBytes
             && CoordinateOf(entity).Some? && KeyOf(CoordinateOf(entity).value) in st.kv
    ensures var t := Publish(cfg, st, ns, name, version, variant, subject, body);
            && t.reply == Failure(Conflict)
            && t.next.kv == st.kv && t.next.index == st.index
            && BlobPath(ComputeDigest(cfg.sha256, body)) in t.next.blobs
  {
  }

  /** Publishing the same coordinate a second time, with any body that fits,
      is refused. */
  lemma {:induction false} RepublishConflicts(cfg: Config, st: State, ns: string, name: string, version: string, variant: string,
                                              subject: Option<string>, body: Bytes, subject2: Option<string>, body2: Bytes)
    requires Publish(cfg, st, ns, name, version, variant, subject, body).reply.Success?
    requires |body2| <= cfg.maxRequestBodyBytes
    ensures var s := Publish(cfg, st, ns, name, version, variant, subject, body).next;
            var t := Publish(cfg, s, ns, name, version, variant, subject2, body2);
            t.reply == Failure(Conflict) && t.next.kv == s.kv && t.next.index == s.index
  {
    PublishOutcome(cfg, st, ns, name, version, variant, subject, body);
    PublishSucceeds(cfg, st, ns, name, version, variant, subject, body);
    var s := Publish(cfg, st, ns, name, version, variant, subject, body).next;
    PublishExistingConflicts(cfg, s, ns, name, version, variant, subject2, body2);
  }

  // ---------------------------------------------------------------------------
  // Fetch
  // ---------------------------------------------------------------------------

  /** In a good state a fetch never misses a blob nor meets a tag where an
      artifact should be: a valid coordinate with a record is always served,
      with the stored file at the recorded digest's path. */
  lemma {:induction false} FetchConsistent(cfg: Config, st: State, ns: string, name: string, version: string, variant: string)
    requires Inv(cfg, st)
    ensures var r := Fetch(cfg, st, ns, name, version, variant);
            var entity := Entity(cfg, CoordinateInput(ns, name, version, variant));
            && (r.Failure? ==> r.error == Invalid || r.error == Missing || (r.error == Internal && CoordinateOf(entity).None?))
            && (r.Success? ==> var k := KeyOf(CoordinateOf(entity).value);
                               k in st.kv && st.kv[k].ArtifactRecord?
                               && ComputeDigest(cfg.sha256, r.value.content) == st.kv[k].blobDigest)
            && (Accepted(cfg, entity) && CoordinateOf(entity).Some? && KeyOf(CoordinateOf(entity).value) in st.kv
                ==> var k := KeyOf(CoordinateOf(entity).value);
                    && r.Success?
                    && BlobPath(st.kv[k].blobDigest) in st.blobs
                    && r.value.content == st.blobs[BlobPath(st.kv[k].blobDigest)])
  {
    var entity := Entity(cfg, CoordinateInput(ns, name, version, variant));
    if Accepted(cfg, entity) && CoordinateOf(entity).Some? {
      var c := CoordinateOf(entity).value;
      if KeyOf(c) in st.kv {
        ArtifactKeyHoldsArtifact(cfg, st, c.namespace, c.name, c.version, c.variant);
        assert RecordSound(cfg.sha256, st, KeyOf(c));
      }
    }
  }

  /** What was published can be fetched back under the same coordinate: the
      bytes have the body's digest, and are the body itself unless a file
      with that digest was already stored. */
  lemma {:induction false} PublishThenFetch(cfg: Config, st: State, ns: string, name: string, version: string, variant: string,
                                            subject: Option<string>, body: Bytes)
    requires Inv(cfg, st)
    requires Publish(cfg, st, ns, name, version, variant, subject, body).reply.Success?
    ensures var s := Publish(cfg, st, ns, name, version, variant, subject, body).next;
            var r := Fetch(cfg, s, ns, name, version, variant);
            var c := CoordinateOf(Entity(cfg, CoordinateInput(ns, name, version, variant))).value;
            && r.Success?
            && r.value.downloadName == c.name + "-" + c.version + ".tar.gz"
            && ComputeDigest(cfg.sha256, r.value.content) == ComputeDigest(cfg.sha256, body)
            && (BlobPath(ComputeDigest(cfg.sha256, body)) !in st.blobs ==> r.value.content == body)
  {
    PublishOutcome(cfg, st, ns, name, version, variant, subject, body);
    PublishKeepsInv(cfg, st, ns, name, version, variant, subject, body);
    var s := Publish(cfg, st, ns, name, version, variant, subject, body).next;
    FetchConsistent(cfg, s, ns, name, version, variant);
  }

  // ---------------------------------------------------------------------------
  // Listing and resolving
  // ---------------------------------------------------------------------------

  /** Resolve-latest answers exactly when the version list is non-empty, and
      then with its first row. */
  lemma ResolveIsHeadOfList(cfg: Config, st: State, ns: string, name: string)
    ensures var l := ListVersions(cfg, st, ns, name);
            var r := ResolveLatest(cfg, st, ns, name);
            && (r.Success? <==> l.Success? && |l.value.rows| > 0)
            && (r.Success? ==> var head := l.value.rows[0];
                               r.value == Resolution(l.value.namespace, l.value.name, head.version, head.variant, head.blobDigest))
            && (r == Failure(Missing) <==> l.Success? && l.value.rows == [])
  {
  }

  /** In a good state the version list is ordered, lists each coordinate once
      and corresponds exactly to the artifact records of its group. */
  lemma {:induction false} ListVersionsComplete(cfg: Config, st: State, ns: string, name: string)
    requires Inv(cfg, st)
    requires ListVersions(cfg, st, ns, name).Success?
    ensures var v := ListVersions(cfg, st, ns, name).value;
            var ik := IndexKey(v.namespace, v.name);
            && Sorted(v.rows) && DistinctCoordinates(v.rows)
            && (forall i :: 0 <= i < |v.rows| ==> EntryBacked(st.kv, ik, v.rows[i]))
            && (forall k :: k in st.kv && st.kv[k].ArtifactRecord? && IndexKey(st.kv[k].namespace, st.kv[k].name) == ik
                  ==> EntryOf(st.kv[k]) in v.rows)
  {
    var v := ListVersions(cfg, st, ns, name).value;
    var ik := IndexKey(v.namespace, v.name);
    assert v.rows == Group(st, ik);
    if ik in st.index {
      assert Sorted(st.index[ik]) && DistinctCoordinates(st.index[ik]);
    }
    forall i | 0 <= i < |v.rows|
      ensures EntryBacked(st.kv, ik, v.rows[i])
    {
      assert EntryBacked(st.kv, ik, st.index[ik][i]);
    }
    forall k | k in st.kv && st.kv[k].ArtifactRecord? && IndexKey(st.kv[k].namespace, st.kv[k].name) == ik
      ensures EntryOf(st.kv[k]) in v.rows
    {
      assert RecordSound(cfg.sha256, st, k);
    }
  }

  /** In a good state the resolved version is the greatest of its list and
      names a stored artifact with the reported digest. */
  lemma {:induction false} ResolveIsMaximum(cfg: Config, st: State, ns: string, name: string)
    requires Inv(cfg, st)
    requires ResolveLatest(cfg, st, ns, name).Success?
    ensures var r := ResolveLatest(cfg, st, ns, name).value;
            var v := ListVersions(cfg, st, ns, name).value;
            var k := ArtifactKey(r.namespace, r.name, r.version, r.variant);
            && (forall i :: 0 <= i < |v.rows| ==> LexLe(v.rows[i].version, r.version))
            && k in st.kv && st.kv[k].ArtifactRecord? && st.kv[k].blobDigest == r.blobDigest
  {
    ResolveIsHeadOfList(cfg, st, ns, name);
    ListVersionsComplete(cfg, st, ns, name);
    var v := ListVersions(cfg, st, ns, name).value;
    HeadIsMaximum(v.rows);
    var x := v.rows[0];
    assert EntryBacked(st.kv, IndexKey(v.namespace, v.name), x);
  }

  // ---------------------------------------------------------------------------
  // Set-tag
  // ---------------------------------------------------------------------------

  /** A tag is set exactly when the path is valid, the body names a target
      version and variant, that artifact exists and the schema declares the
      package and tag fields; the target key is built from the body's values
      as sent, and only the tag's key changes. */
  lemma SetTagOutcome(cfg: Config, st: State, ns: string, name: string, tag: string,
                      subject: Option<string>, body: TagBody)
    ensures var t := SetTag(cfg, st, ns, name, tag, subject, body);
            var e := Entity(cfg, TagInput(ns, name, tag));
            && (t.reply == Failure(Invalid) <==> !Accepted(cfg, e))
            && (t.reply == Failure(BadJson) <==> Accepted(cfg, e) && !BodyUsable(body))
            && (t.reply.Success?
                <==> Accepted(cfg, e) && BodyUsable(body) && "namespace" in e && "name" in e && "tag" in e
                     && ArtifactKey(e["namespace"], e["name"], body.value["target_version"], body.value["target_variant"]) in st.kv)
            && (t.reply == Failure(Internal)
                <==> Accepted(cfg, e) && BodyUsable(body)
                     && ("namespace" !in e || "name" !in e
                         || (ArtifactKey(e["namespace"], e["name"], body.value["target_version"], body.value["target_variant"]) in st.kv
                             && "tag" !in e)))
            && (t.reply == Failure(MissingTarget)
                <==> Accepted(cfg, e) && BodyUsable(body) && "namespace" in e && "name" in e
                     && ArtifactKey(e["namespace"], e["name"], body.value["target_version"], body.value["target_variant"]) !in st.kv)
            && (t.reply.Success? ==>
                  var target := ArtifactKey(e["namespace"], e["name"], body.value["target_version"], body.value["target_variant"]);
                  var tk := TagKey(e["namespace"], e["name"], e["tag"]);
                  && target in st.kv
                  && t.next.kv == st.kv[tk := TagRecord(e["namespace"], e["name"], e["tag"], target, subject.ValueOr("unknown"))])
  {
  }

  /** Setting a tag twice moves it: the second target wins, every other key
      is as after the first. */
  lemma {:induction false} RetagOverwrites(cfg: Config, st: State, mid: State, ns: string, name: string, tag: string,
                                           subject: Option<string>, body: TagBody, subject2: Option<string>, body2: TagBody)
    requires SetTag(cfg, st, ns, name, tag, subject, body) == Transition(Success(Ack), mid)
    requires SetTag(cfg, mid, ns, name, tag, subject2, body2).reply.Success?
    ensures var t := SetTag(cfg, mid, ns, name, tag, subject2, body2).next;
            var e := Entity(cfg, TagInput(ns, name, tag));
            var tk := TagKey(e["namespace"], e["name"], e["tag"]);
            && t.kv.Keys == mid.kv.Keys
            && t.kv[tk].targetKey == ArtifactKey(e["namespace"], e["name"], body2.value["target_version"], body2.value["target_variant"])
            && (forall k :: k in mid.kv && k != tk ==> t.kv[k] == mid.kv[k])
  {
    var e := Entity(cfg, TagInput(ns, name, tag));
    var tk := TagKey(e["namespace"], e["name"], e["tag"]);
    SetTagOutcome(cfg, st, ns, name, tag, subject, body);
    assert tk in mid.kv;
    SetTagOutcome(cfg, mid, ns, name, tag, subject2, body2);
    var target := ArtifactKey(e["namespace"], e["name"], body2.value["target_version"], body2.value["target_variant"]);
    OverwriteKeepsKeys(mid.kv, tk, TagRecord(e["namespace"], e["name"], e["tag"], target, subject2.ValueOr("unknown")));
  }

  lemma OverwriteKeepsKeys(m: map<string, Record>, k: string, v: Record)
    requires k in m
    ensures m[k := v].Keys == m.Keys
    ensures forall k2 :: k2 in m && k2 != k ==> m[k := v][k2] == m[k2]
  {
  }

  /** A mutating request, as replayed against the repository. */
  datatype Request =
    | PublishRequest(ns: string, name: string, version: string, variant: string, subject: Option<string>, body: Bytes)
    | TagRequest(ns: string, name: string, tag: string, subject: Option<string>, tagBody: TagBody)

  function Apply(cfg: Config, st: State, req: Request): State {
    match req
    case PublishRequest(ns, name, version, variant, subject, body) =>
      Publish(cfg, st, ns, name, version, variant, subject, body).next
    case TagRequest(ns, name, tag, subject, tagBody) =>
      SetTag(cfg, st, ns, name, tag, subject, tagBody).next
  }

  function Run(cfg: Config, st: State, reqs: seq<Request>): State
    decreases |reqs|
  {
    if reqs == [] then st else Run(cfg, Apply(cfg, st, reqs[0]), reqs[1..])
  }

  /** Any sequence of publishes and tag updates from a good state ends in a
      good state. */
  lemma {:induction false} RunKeepsInv(cfg: Config, st: State, reqs: seq<Request>)
    requires Inv(cfg, st)
    ensures Inv(cfg, Run(cfg, st, reqs))
    decreases |reqs|
  {
    if reqs != [] {
      match reqs[0] {
        case PublishRequest(ns, name, version, variant, subject, body) =>
          PublishKeepsInv(cfg, st, ns, name, version, variant, subject, body);
        case TagRequest(ns, name, tag, subject, tagBody) =>
          SetTagKeepsInv(cfg, st, ns, name, tag, subject, tagBody);
      }
      RunKeepsInv(cfg, Apply(cfg, st, reqs[0]), reqs[1..]);
    }
  }

  /** Every repository reachable from a process start over a
      content-addressed blob directory is a good one. */
  lemma Reachable(cfg: Config, blobs: map<seq<string>, Bytes>, reqs: seq<Request>)
    requires BlobsAddressed(cfg.sha256, blobs)
    ensures Inv(cfg, Run(cfg, Start(blobs), reqs))
  {
    StartInv(cfg, blobs);
    RunKeepsInv(cfg, Start(blobs), reqs);
  }
}
