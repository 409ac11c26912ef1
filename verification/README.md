# goodpackagerepo engine in Dafny

A model of the artifact repository engine of goodpackagerepo: the Flask
handlers that publish, fetch, resolve, tag and list artifacts
(`backend/app.py`), their schema-driven normalization and validation, the
content-addressed blob layout, the per-package version index, and the
RocksDB-backed key-value wrapper with its operation counters
(`backend/rocksdb_store.py`).

The server's process state (blob directory, `kv_store`, `index_store`) is a
`State` value. Each handler is a pure function from a state and its request
to a reply and the next state. SHA-256 and `re.match` are function-typed
parameters in `Config`. Schema loading is not modelled: the loaded artifact
entity, the body size limit, the hash and the regex engine form the `Config`.

| file | module | contents |
|---|---|---|
| `Wrappers.dfy` | `Wrappers` | `Option`, `Result` |
| `Text.dfy` | `Text` | Python `str.strip`, `lower`, `replace`, `split`, slicing and string order |
| `Schema.dfy` | `Schema` | `normalize_entity`, `validate_entity` |
| `BlobAddress.dfy` | `BlobAddress` | `compute_blob_digest`, `get_blob_path` |
| `VersionIndex.dfy` | `VersionIndex` | append-then-reverse-sort of a version group |
| `RepoState.dfy` | `RepoState` | state, keys, error codes, the repository invariant |
| `Engine.dfy` | `Engine` | the five handlers and invariant preservation |
| `Guarantees.dfy` | `Guarantees` | properties relating several handler calls |
| `KvStore.dfy` | `KvStore` | `RocksDBStore` get/put/cas_put/delete/keys/count/get_stats |

Quirks of the code that the model keeps:

- `RocksDBStore.get` masks a stored value that fails to decode as `None`.
  It counts that read as a cache hit (before decoding) and again as a cache
  miss (in the exception handler). `KvStore.Get` does the same.
  `KvStore.ReplayAccounted` proves that hits plus misses are at least the
  number of reads, and exactly equal while every stored value decodes.
- A stored JSON `null` reads back as `None` yet counts as a hit.
  `cas_put(if_absent=True)` overwrites it, and it also overwrites an
  undecodable value.
- Normalization is idempotent for every `trim`/`lower` pipeline
  (`Schema.NormalizeIdempotent`). A `replace:` rule can break idempotence
  (`Schema.ReplaceRuleNotIdempotent`).
- `publish` writes the blob before it checks for an existing record. A
  publish refused with 409 still leaves the body's file in the blob
  directory (`Guarantees.PublishExistingConflicts`). So does a publish that
  fails with 500 because a coordinate field is missing (`Engine.Publish`).
- `set_tag` reports a missing, unparsable or empty body as `INVALID_JSON`.
  The same goes for an object lacking `target_version` or
  `target_variant`: the `INVALID_REQUEST` it raises for them is caught by
  its own `except Exception`. The target key uses the body's values as
  sent, without normalizing them.
- `resolve_latest` and `list_versions` never validate. The version order is
  plain string order, descending: `"10.0"` sorts below `"9.0"`.
- A handler that reads a coordinate field the schema does not declare
  raises `KeyError`. This surfaces as the generic 500 `INTERNAL_ERROR`.
- Route segments cannot contain `/`, because Flask's default converter
  matches `[^/]+` (`backend/app.py:230`, `:307`, `:344`, `:375`, `:422`).
  A `/` reaches a namespace or name only through a `replace:` rule whose
  replacement contains one. The key functions join their parts with `/`,
  so `a/b` + `c` and `a` + `b/c` would share the index key and the
  artifact keys (`RepoState.SlashCollision`). Keys are distinct for
  `/`-free parts (`RepoState.ArtifactKeyInjective`). The model takes route
  segments as arbitrary strings and leaves the converter's restriction to
  the routing layer.

## Model

| member | source | states |
|---|---|---|
| Text.Lower | backend/app.py:107-108 | same length; each character is mapped on its own: an ASCII upper-case letter becomes its lower-case letter (code point plus 32), every other character is kept |
| Text.LowerIdempotent | backend/app.py:107-108 | lower-casing twice gives the same string as lower-casing once |
| Text.TrimLeft | backend/app.py:105-106 | the result is a suffix of the input, only whitespace was dropped, and it does not start with whitespace |
| Text.TrimRight | backend/app.py:105-106 | the result is a prefix of the input, only whitespace was dropped, and it does not end with whitespace |
| Text.Trim | backend/app.py:105-106 | `strip()` leaves an infix of the input with only whitespace removed around it, and neither end of it is whitespace |
| Text.TrimIdempotent | backend/app.py:105-106 | stripping twice equals stripping once |
| Text.TrimLowerCommute | backend/app.py:104-108 | `strip` and `lower` commute, so a rule list's effect does not depend on their order |
| Text.Interleave | backend/app.py:112 | replacing the empty string adds one copy of the replacement per gap: the length grows by (n+1) times the replacement's length |
| Text.InterleaveLayout | backend/app.py:112 | replacing the empty string puts the replacement before each character: the k-th block of the result is the replacement followed by the k-th character |
| Text.InterleaveEnd | backend/app.py:112 | replacing the empty string also ends the result with the replacement |
| Text.Replace | backend/app.py:112 | a non-empty pattern replaced by one of the same length keeps the length; a shorter replacement never lengthens, a longer one never shortens the string |
| Text.InterleaveEmpty | backend/app.py:112 | `s.replace("", "")` is `s` |
| Text.ReplaceFirst | backend/app.py:112 | replacement runs left to right: the text before the first occurrence is kept, that occurrence becomes the replacement, and replacement continues after it; with `ReplaceAbsent` this fixes the result for every non-empty pattern |
| Text.ReplaceAbsent | backend/app.py:112 | replacing a non-empty pattern that does not occur changes nothing |
| Text.ReplaceSelf | backend/app.py:112 | replacing a pattern by itself changes nothing |
| Text.Split | backend/app.py:110 | split yields at least one part and no part contains the separator |
| Text.SplitCount | backend/app.py:110-111 | split yields one part more than there are separators, so a rule has three parts exactly when it has two colons |
| Text.JoinSplit | backend/app.py:110 | joining the split parts with the separator gives the input back |
| Text.SplitJoin | backend/app.py:110 | splitting the join of separator-free parts gives the parts back |
| Text.Slice | backend/app.py:59 | Python slicing clamps to the length: `s[i..j]` when in range, `s[i..]` when only `j` is past the end, `""` when `i` is, and never longer than j-i |
| Text.LexLessIrreflexive | backend/app.py:298 | no string sorts before itself |
| Text.LexLessTransitive | backend/app.py:298 | string order is transitive |
| Text.LexLessTotal | backend/app.py:298 | any two distinct strings are ordered one way or the other |
| Text.LexLeTransitive | backend/app.py:298 | the non-strict string order is transitive |
| Schema.PipelineAppend | backend/app.py:103-112 | running a rule list in two pieces equals running it whole: the rules apply left to right |
| Schema.ApplyRule | backend/app.py:104-112 | a rule name other than `trim`, `lower` or a `replace:` rule leaves the value unchanged; `lower` keeps the length and `trim` never lengthens |
| Schema.Pipeline | backend/app.py:103-112 | a rule list with only unknown names leaves the value unchanged; a list of `lower` rules keeps its length |
| Schema.ReplaceRuleApplies | backend/app.py:109-112 | a `replace:from:to` rule with colon-free parts performs `value.replace(from, to)` |
| Schema.ReplaceRuleSplits | backend/app.py:109-111 | a `replace:from:to` rule splits into exactly `replace`, `from`, `to` |
| Schema.ReplaceRuleIgnored | backend/app.py:109-112 | a `replace:` rule whose colon count is not two leaves the value unchanged |
| Schema.ReplaceRuleNotIdempotent | backend/app.py:109-112 | `replace:a:aa` turns `a` into `aa` and that into `aaaa`, so such a pipeline is not idempotent |
| Schema.PipelineIsCanonical | backend/app.py:103-108 | a `trim`/`lower` pipeline equals: lower-case if any rule is `lower`, then strip if any rule is `trim` |
| Schema.PipelineIdempotent | backend/app.py:103-108 | running a `trim`/`lower` pipeline twice equals running it once |
| Schema.PipelineOfEmpty | backend/app.py:103-108 | a `trim`/`lower` pipeline maps the empty string to itself |
| Schema.Normalize | backend/app.py:95-100 | the entity's keys are exactly the declared fields that were given or are required; undeclared input keys are dropped |
| Schema.NormalizeValues | backend/app.py:95-114 | each declared field holds its pipeline over the given value, `""` when required and missing, nothing when optional and missing |
| Schema.NormalizeIdempotent | backend/app.py:90-116 | with `trim`/`lower` rules only, normalizing a normalized entity changes nothing |
| Schema.FirstViolation | backend/app.py:123-138 | validation passes iff no constraint has a non-empty value failing its regex; otherwise it raises at the first such constraint |
| Schema.PassesIffNotRejects | backend/app.py:127-138 | the loop body lets a constraint pass exactly when its field is empty or missing, it has no regex, or the regex matches |
| Schema.WhenPresentIrrelevant | backend/app.py:127-131 | the `when_present` flags never change the outcome of validation |
| BlobAddress.ComputeDigest | backend/app.py:141-143 | the digest is `sha256:` followed by the 64-digit hex hash of the data |
| BlobAddress.BlobPath | backend/app.py:54-59 | three segments; both shard names have at most two characters, exactly two for a long enough digest, and together prefix the file name |
| BlobAddress.HexHasNoPrefix | backend/app.py:57 | a hex digest contains no `sha256:` |
| BlobAddress.CleanDigest | backend/app.py:57 | removing `sha256:` from a well-formed digest leaves exactly its hex part |
| BlobAddress.DigestPath | backend/app.py:54-59 | a computed digest's path is `[h[:2], h[2:4], h]` for its hex hash `h` |
| BlobAddress.BareHexSamePath | backend/app.py:56-59 | the `sha256:` prefix is optional: a bare hex digest maps to the same path |
| BlobAddress.PathInjective | backend/app.py:54-59 | distinct well-formed digests never share a path |
| VersionIndex.Insert | backend/app.py:289-298 | the new group holds the old rows plus the new one, as a multiset |
| VersionIndex.InsertPosition | backend/app.py:289-298 | the stable reverse sort puts the new row after every row with a version at least its own, before every smaller one, and keeps the other rows in order |
| VersionIndex.InsertSorted | backend/app.py:298 | a group sorted by descending version stays sorted after a publish |
| VersionIndex.InsertDistinct | backend/app.py:285-298 | a group that lists each coordinate once still does after adding a new coordinate |
| VersionIndex.HeadIsMaximum | backend/app.py:362 | the first row of a sorted group has the greatest version |
| RepoState.KeyKinds | backend/app.py:265 | artifact keys start with `artifact/`, tag keys with `tag/`, and no key starts with both |
| RepoState.IndexKey | backend/app.py:285 | the index key joins namespace and name with `/` |
| RepoState.ArtifactKey | backend/app.py:265 | the artifact key starts with `artifact/`, extends its group's index key by version and variant, and joins its five parts with `/` |
| RepoState.TagKey | backend/app.py:408 | the tag key starts with `tag/` and joins its four parts with `/` |
| RepoState.ArtifactKeyInjective | backend/app.py:265 | coordinates whose parts contain no `/` get distinct artifact keys |
| RepoState.TagKeyInjective | backend/app.py:408 | tags whose parts contain no `/` get distinct tag keys |
| RepoState.SlashCollision | backend/app.py:265-285 | as the key functions join parts with `/`, namespace `a/b` with name `c` and namespace `a` with name `b/c` share the index key and the artifact keys; such parts arise only from a `replace:` rule |
| RepoState.StartInv | backend/app.py:31-42 | a process start, with empty stores over a blob directory holding files at their own digests' paths, satisfies the repository invariant |
| RepoState.ArtifactKeyHoldsArtifact | backend/app.py:265-282 | in a good state an artifact key holds an artifact record, never a tag |
| Engine.StoreBlob | backend/app.py:256-262 | the body's path is then present; existing files are never rewritten; a new file sits at the body's path and holds the body |
| Engine.AddArtifact | backend/app.py:270-298 | adds exactly the coordinate's key to the records; the blobs are untouched |
| Engine.Publish | backend/app.py:230-304 | 400 iff the normalized entity fails validation, and then nothing changes; 413 iff it validates and the body is over the limit, and then nothing changes; 500 iff it validates, the body fits and a coordinate field is missing; 409 iff it validates, the body fits and the key is already recorded; on 500, 409 and success the body's file is in the blob directory; failures leave records and index alone; blobs are only added, at the body's path; success reports the body's digest and size |
| Engine.Fetch | backend/app.py:307-341 | 400 iff the entity fails validation; 404 `NOT_FOUND` iff it passes and no record exists; 500 iff a coordinate field is missing or the key holds a tag; for an artifact record, 404 `BLOB_NOT_FOUND` iff its file is absent, otherwise that file under `name-version.tar.gz` |
| Engine.ListVersions | backend/app.py:422-444 | succeeds iff normalization yields namespace and name, and then lists that package's group (empty when unknown); fails only with 500 |
| Engine.ResolveLatest | backend/app.py:344-372 | 500 iff normalization lacks namespace or name; 404 `NOT_FOUND` iff the package's group is empty; no other failure |
| Engine.SetTag | backend/app.py:375-419 | a failure changes nothing; blobs and index never change; success adds at most one key, and only for a valid path, a usable body and declared package and tag fields |
| Engine.StoredBlobMatches | backend/app.py:256-262 | after the blob step the file at the body's digest path has that digest, even when it was already there |
| Engine.StoreBlobKeepsInv | backend/app.py:256-262 | writing a blob keeps the repository invariant |
| Engine.AddArtifactKeepsInv | backend/app.py:270-298 | adding a record at a fresh key, with its blob stored, keeps the invariant: index rows backed, records listed, groups sorted and duplicate-free, tags pointing at artifacts |
| Engine.PublishKeepsInv | backend/app.py:230-304 | every publish outcome keeps the repository invariant |
| Engine.SetTagKeepsInv | backend/app.py:375-419 | every set-tag outcome keeps the repository invariant |
| Guarantees.PublishSucceeds | backend/app.py:245-268 | a publish succeeds iff the entity validates, the body fits, all coordinate fields exist and the coordinate has no record |
| Guarantees.PublishOutcome | backend/app.py:265-298 | a successful publish adds one record at a fresh key and one row to its group, and changes no other record or group; the new group is exactly the old one with the row placed by the stable reverse sort (`VersionIndex.InsertPosition`), so among equal versions earlier rows stay first |
| Guarantees.PublishExistingConflicts | backend/app.py:256-268 | a coordinate with a record is refused with 409 `ALREADY_EXISTS` and metadata stays, but the blob is stored |
| Guarantees.RepublishConflicts | backend/app.py:265-268 | publishing the same coordinate again, with any body that fits, is refused with 409 |
| Guarantees.FetchConsistent | backend/app.py:307-341 | in a good state fetch never reports `BLOB_NOT_FOUND` and fails with 500 only when a coordinate field is missing; a valid coordinate with a record is always served, with the file at its recorded digest's path |
| Guarantees.PublishThenFetch | backend/app.py:230-341 | after a successful publish, fetching the same coordinate succeeds with `name-version.tar.gz` and bytes of the body's digest, the body itself when no file with that digest existed |
| Guarantees.ResolveIsHeadOfList | backend/app.py:344-372 | resolve-latest succeeds iff the version list is non-empty and then answers with its first row; it is 404 iff the list is empty |
| Guarantees.ListVersionsComplete | backend/app.py:422-444 | in a good state the list is sorted, duplicate-free, backed by records, and contains every artifact record of the group |
| Guarantees.ResolveIsMaximum | backend/app.py:344-372 | in a good state the resolved version is the greatest in its list and names a stored artifact with the reported digest |
| Guarantees.SetTagOutcome | backend/app.py:375-417 | classifies every outcome: 400 `VALIDATION_ERROR` iff the path fails validation; `INVALID_JSON` iff it passes and the body is unusable; success iff, besides, the schema declares namespace, name and tag and the raw-value target key exists; `TARGET_NOT_FOUND` iff that key is absent; 500 otherwise; success writes the tag record under the tag key |
| Guarantees.RetagOverwrites | backend/app.py:406-417 | setting a tag again keeps the key set, repoints the tag, and leaves every other key alone |
| Guarantees.RunKeepsInv | backend/app.py:230-419 | any sequence of publishes and tag updates keeps the repository invariant |
| Guarantees.Reachable | backend/app.py:31-42 | every state reached from a process start, with empty stores over a content-addressed blob directory, satisfies the invariant |
| KvStore.Open | backend/rocksdb_store.py:37-47 | a fresh wrapper has zero counters over the existing data |
| KvStore.Get | backend/rocksdb_store.py:49-72 | counts one `get`; absent keys, stored `null` and undecodable values read as `None`; a found key counts a hit, an absent or undecodable one a miss |
| KvStore.Put | backend/rocksdb_store.py:74-85 | the key is present afterwards, other keys keep their values, only the `put` counter rises, by one, and hits and misses stay |
| KvStore.Delete | backend/rocksdb_store.py:108-119 | removes the key if present and nothing else; only the `delete` counter rises, by one, either way |
| KvStore.CasPut | backend/rocksdb_store.py:87-106 | stores iff not `if_absent` or the key reads as `None`, then overwriting it; `cas_put` rises by one, `get` by one and hits or misses as `get` counts them when `if_absent`, `put` by one when stored |
| KvStore.Keys | backend/rocksdb_store.py:121-140 | lists exactly the keys with the prefix (all keys for no or an empty prefix), strictly ascending, each once |
| KvStore.Count | backend/rocksdb_store.py:142-151 | the number of keys with the prefix |
| KvStore.GetStats | backend/rocksdb_store.py:153-178 | total keys is the key count; total operations is the sum of the four counters |
| KvStore.PutThenGet | backend/rocksdb_store.py:49-85 | a read after a put returns the value written (`None` for `null`); other keys read as before |
| KvStore.DeleteThenGet | backend/rocksdb_store.py:49-119 | a read after a delete returns `None`; other keys read as before |
| KvStore.DeleteIdempotent | backend/rocksdb_store.py:108-119 | deleting twice leaves the same data as deleting once |
| KvStore.CasPutOnce | backend/rocksdb_store.py:87-106 | after a successful conditional put of a non-null value, a second one under the key is refused and the first value stays |
| KvStore.StepAccounted | backend/rocksdb_store.py:58-72 | each call keeps hits plus misses at least the number of reads, and exactly equal while all values decode |
| KvStore.ReplayAccounted | backend/rocksdb_store.py:58-72 | the read counters stay consistent over any sequence of calls |
| KvStore.OpenAccounted | backend/rocksdb_store.py:37-72 | from a fresh wrapper the counters account for every read, exactly so when every stored value decodes |

## Left out

- HTTP routing, request parsing and response marshalling (Flask, `jsonify`, `send_file`) are left out. Handlers return typed replies.
- Authentication is left out: `require_scopes` and `verify_token` (JWT) with their 401/403 replies. The principal's `sub` is a handler input.
- SHA-256 and `re.match` are not modelled. They are parameters of `Config`: a hash of 64 lower-case hex digits, and any predicate on pattern and value.
- The blob directory is a map from path segments to contents. `mkdir`, disk errors, durability and partial writes are left out.
- Timestamps (`created_at`, `updated_at`), uptime, `ops_per_second` and `hit_rate_percent` involve clocks or floats, so they are left out.
- Concurrency is left out. The handlers and the store are modelled as single-threaded.
- Schema loading and the rest of the schema (`SCHEMA` outside the artifact entity and the body limit) are not part of this model, nor is `config_db.py`.
- Other entity types than `artifact` are not part of this model.
- `set_tag` bodies are modelled as a map from strings to strings, or as not a JSON object (`INVALID_JSON`). Non-string values, rendered by the f-string, are left out.
- A JSON string or array body that contains both `target_version` and `target_variant` passes the body check, since `in` tests substrings or elements. Indexing it then raises `TypeError`, giving 500 `INTERNAL_ERROR`. The model answers `INVALID_JSON` for every non-object body, because JSON values other than objects are left out.
- A malformed constraint regex makes `re.match` raise, giving 500 `INTERNAL_ERROR`. `Config.matches` is a total predicate, so this case is left out.
- Guarantees.Reachable: it starts from a blob directory whose files all sit at their own digests' paths, as this server writes them. Foreign files placed in the directory are left out.
- `RocksDBStore.put` cannot fail in the model: `json.dumps` of a non-serializable value is left out.
- Non-UTF-8 keys in the database, the `print` in `get`, `get_rocksdb_property`, `close` and the tuning options of `__init__` are left out.
- The engine uses in-memory dictionaries, not the RocksDB wrapper. The two are modelled separately, as in the code.
- Text.Lower: only ASCII letters are lower-cased, because Unicode case mapping is left out.
- Text.Trim: only ASCII whitespace is stripped, because Unicode whitespace classes are left out.
- Engine.Fetch: `if not meta` also treats an empty record as missing. Records written by the handlers are never empty, so the model checks presence only.
- Schema.Normalize: input values are always strings, since every caller passes path segments. A `None` value given explicitly is left out.
