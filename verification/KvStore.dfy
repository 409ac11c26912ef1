/**
  The RocksDB-backed key-value store wrapper (`RocksDBStore`) and its
  operation and cache counters.

  The database is a map from keys to stored values. A value written by `put`
  is JSON text; a value the store finds but cannot decode (written by some
  other program) is `Undecodable`. Keys are UTF-8 encoded by the wrapper, and
  RocksDB iterates them in byte order, which for UTF-8 is the order of code
  points: `LexLess`.
*/
module KvStore {
  import opened Wrappers
  import opened Text

  /** A decoded JSON value; `JNull` is JSON `null`, which Python reads back
      as `None`. Other values are kept as their JSON text. */
  datatype Json = JNull | JValue(text: string)

  datatype Stored = Encoded(value: Json) | Undecodable

  /** `stats['operations']`. */
  datatype OpCounts = OpCounts(get: nat, put: nat, delete: nat, casPut: nat)

  datatype Store = Store(db: map<string, Stored>, ops: OpCounts, hits: nat, misses: nat)

  /** A store as `__init__` leaves it over an existing database. */
  function Open(db: map<string, Stored>): (s: Store)
    ensures s.db == db && s.hits == 0 && s.misses == 0 && TotalOperations(s) == 0
  {
    Store(db, OpCounts(0, 0, 0, 0), 0, 0)
  }

  function TotalOperations(s: Store): nat {
    s.ops.get + s.ops.put + s.ops.delete + s.ops.casPut
  }

  /** The Python value a stored entry reads back as. */
  function Decoded(v: Stored): Option<Json> {
    match v
    case Encoded(JNull) => None
    case Encoded(j) => Some(j)
    case Undecodable => None
  }

  datatype Read = Read(value: Option<Json>, store: Store)

  /** `get`. A decoding failure is counted as a hit (before decoding) and
      again as a miss (in the handler). */
  function Get(s: Store, key: string): (r: Read)
    ensures r.store.db == s.db
    ensures r.store.ops == s.ops.(get := s.ops.get + 1)
    ensures r.value == (if key in s.db then Decoded(s.db[key]) else None)
    ensures r.value != Some(JNull)
    ensures r.store.hits == s.hits + (if key in s.db then 1 else 0)
    ensures r.store.misses == s.misses + (if key in s.db && s.db[key] != Undecodable then 0 else 1)
  {
    var s1 := s.(ops := s.ops.(get := s.ops.get + 1));
    if key !in s.db then Read(None, s1.(misses := s1.misses + 1))
    else
      var s2 := s1.(hits := s1.hits + 1);
      match s.db[key]
      case Undecodable => Read(None, s2.(misses := s2.misses + 1))
      case Encoded(JNull) => Read(None, s2)
      case Encoded(j) => Read(Some(j), s2)
  }

  /** `put`: serializes and overwrites. */
  function Put(s: Store, key: string, value: Json): (r: Store)
    ensures r.db.Keys == s.db.Keys + {key}
    ensures forall k :: k in s.db && k != key ==> r.db[k] == s.db[k]
    ensures r.ops == s.ops.(put := s.ops.put + 1)
    ensures TotalOperations(r) == TotalOperations(s) + 1
    ensures r.hits == s.hits && r.misses == s.misses
  {
    s.(db := s.db[key := Encoded(value)], ops := s.ops.(put := s.ops.put + 1))
  }

  /** `delete`: absent keys are ignored. */
  function Delete(s: Store, key: string): (r: Store)
    ensures r.db.Keys == s.db.Keys - {key}
    ensures forall k :: k in r.db ==> r.db[k] == s.db[k]
    ensures r.ops == s.ops.(delete := s.ops.delete + 1)
    ensures TotalOperations(r) == TotalOperations(s) + 1
    ensures r.hits == s.hits && r.misses == s.misses
  {
    s.(db := map k | k in s.db && k != key :: s.db[k], ops := s.ops.(delete := s.ops.delete + 1))
  }

  datatype CasResult = CasResult(stored: bool, store: Store)

  /** `cas_put`. With `ifAbsent` the value is written unless a `get` returns
      something other than `None`: a stored JSON `null` or an undecodable
      value counts as absent and is overwritten. */
  function CasPut(s: Store, key: string, value: Json, ifAbsent: bool): (r: CasResult)
    ensures r.stored <==> !ifAbsent || key !in s.db || Decoded(s.db[key]).None?
    ensures r.stored ==> r.store.db == s.db[key := Encoded(value)]
    ensures !r.stored ==> r.store.db == s.db
    ensures r.store.ops == s.ops.(casPut := s.ops.casPut + 1,
                                  get := s.ops.get + (if ifAbsent then 1 else 0),
                                  put := s.ops.put + (if r.stored then 1 else 0))
    ensures TotalOperations(r.store) == TotalOperations(s) + 1 + (if ifAbsent then 1 else 0) + (if r.stored then 1 else 0)
    ensures !ifAbsent ==> r.store.hits == s.hits && r.store.misses == s.misses
    ensures ifAbsent ==> r.store.hits == s.hits + (if key in s.db then 1 else 0)
    ensures ifAbsent ==> r.store.misses == s.misses + (if key in s.db && s.db[key] != Undecodable then 0 else 1)
  {
    var s1 := s.(ops := s.ops.(casPut := s.ops.casPut + 1));
    if ifAbsent then
      var read := Get(s1, key);
      if read.value.Some? then CasResult(false, read.store)
      else CasResult(true, Put(read.store, key, value))
    else CasResult(true, Put(s1, key, value))
  }

  // ---------------------------------------------------------------------------
  // Listing
  // ---------------------------------------------------------------------------

  /** The keys `keys(prefix)` reports: all of them when the prefix is `None`
      or empty. */
  function Matching(db: map<string, Stored>, prefix: Option<string>): set<string> {
    set k | k in db && StartsWith(k, prefix.ValueOr(""))
  }

  predicate StrictlyAscending(ks: seq<string>) {
    forall i, j :: 0 <= i < j < |ks| ==> LexLess(ks[i], ks[j])
  }

  predicate IsLeast(m: string, ks: set<string>) {
    m in ks && forall x :: x in ks ==> LexLe(m, x)
  }

  lemma {:induction false} LeastExists(ks: set<string>)
    requires ks != {}
    ensures exists m :: IsLeast(m, ks)
    decreases |ks|
  {
    var x :| x in ks;
    LexLessIrreflexive(x);
    if ks == {x} {
      assert IsLeast(x, ks);
    } else {
      var rest := ks - {x};
      LeastExists(rest);
      var m :| IsLeast(m, rest);
      if LexLess(x, m) {
        LexLessImpliesLe(x, m);
        forall y | y in ks
          ensures LexLe(x, y)
        {
          if y != x {
            LexLeTransitive(x, m, y);
          }
        }
        assert IsLeast(x, ks);
      } else {
        assert IsLeast(m, ks);
      }
    }
  }

  /** `keys`: the matching keys in ascending order, each once. */
  method Keys(s: Store, prefix: Option<string>) returns (ks: seq<string>)
    ensures StrictlyAscending(ks)
    ensures forall k :: k in ks <==> k in Matching(s.db, prefix)
    ensures |ks| == |Matching(s.db, prefix)|
  {
    var all := Matching(s.db, prefix);
    var rest := all;
    ks := [];
    while rest != {}
      invariant rest <= all
      invariant forall k :: k in ks <==> k in all && k !in rest
      invariant StrictlyAscending(ks)
      invariant forall i, k :: 0 <= i < |ks| && k in rest ==> LexLess(ks[i], k)
      invariant |ks| + |rest| == |all|
      decreases |rest|
    {
      LeastExists(rest);
      var m :| IsLeast(m, rest);
      forall k | k in rest && k != m
        ensures LexLess(m, k)
      {
        LexLessTotal(m, k);
      }
      ks := ks + [m];
      rest := rest - {m};
    }
  }

  /** `count`: the number of keys `keys` would list. */
  method Count(s: Store, prefix: Option<string>) returns (n: nat)
    ensures n == |Matching(s.db, prefix)|
  {
    var ks := Keys(s, prefix);
    n := |ks|;
  }

  /** The integer part of `get_stats`; the path, uptime and rates are left
      out. */
  datatype Stats = Stats(totalKeys: nat, ops: OpCounts, totalOperations: nat, hits: nat, misses: nat)

  method GetStats(s: Store) returns (st: Stats)
    ensures st.totalKeys == |s.db.Keys|
    ensures st.totalOperations == st.ops.get + st.ops.put + st.ops.delete + st.ops.casPut
    ensures st.ops == s.ops && st.hits == s.hits && st.misses == s.misses
  {
    var n := Count(s, None);
    assert Matching(s.db, None) == s.db.Keys;
    st := Stats(n, s.ops, TotalOperations(s), s.hits, s.misses);
  }

  // ---------------------------------------------------------------------------
  // Properties
  // ---------------------------------------------------------------------------

  /** A value read back after `put` is the value written, unless it was
      `null`; other keys read as before. */
  lemma PutThenGet(s: Store, key: string, value: Json, other: string)
    ensures Get(Put(s, key, value), key).value == (if value == JNull then None else Some(value))
    ensures other != key ==> Get(Put(s, key, value), other).value == Get(s, other).value
  {
  }

  lemma DeleteThenGet(s: Store, key: string, other: string)
    ensures Get(Delete(s, key), key).value == None
    ensures other != key ==> Get(Delete(s, key), other).value == Get(s, other).value
  {
  }

  /** Deleting twice leaves the same data as deleting once. */
  lemma DeleteIdempotent(s: Store, key: string)
    ensures Delete(Delete(s, key), key).db == Delete(s, key).db
  {
  }

  /** Of two conditional puts of non-null values under one key, the second
      is refused and the first value stays. */
  lemma CasPutOnce(s: Store, key: string, v1: Json, v2: Json)
    requires v1 != JNull
    ensures var first := CasPut(s, key, v1, true);
            var second := CasPut(first.store, key, v2, true);
            first.stored ==> !second.stored && Get(second.store, key).value == Some(v1)
  {
  }

  /** Every value in the database decodes. */
  predicate AllDecodable(s: Store) {
    forall k | k in s.db :: s.db[k] != Undecodable
  }

  /** Each read counts a hit or a miss, and an undecodable value counts
      both: the two counters add up to at least the number of reads. */
  predicate ReadsAccounted(s: Store) {
    s.hits + s.misses >= s.ops.get
  }

  /** While no undecodable value has been met, hits and misses add up to the
      number of reads exactly. */
  predicate ReadsExact(s: Store) {
    AllDecodable(s) && s.hits + s.misses == s.ops.get
  }

  /** One call on the store. */
  datatype Call =
    | GetCall(key: string)
    | PutCall(key: string, value: Json)
    | CasPutCall(key: string, value: Json, ifAbsent: bool)
    | DeleteCall(key: string)

  function Step(s: Store, c: Call): Store {
    match c
    case GetCall(k) => Get(s, k).store
    case PutCall(k, v) => Put(s, k, v)
    case CasPutCall(k, v, ifAbsent) => CasPut(s, k, v, ifAbsent).store
    case DeleteCall(k) => Delete(s, k)
  }

  function Replay(s: Store, calls: seq<Call>): Store
    decreases |calls|
  {
    if calls == [] then s else Replay(Step(s, calls[0]), calls[1..])
  }

  lemma StepAccounted(s: Store, c: Call)
    ensures ReadsAccounted(s) ==> ReadsAccounted(Step(s, c))
    ensures ReadsExact(s) ==> ReadsExact(Step(s, c))
  {
  }

  /** The read counters stay consistent over any sequence of calls, and
      exact on a database whose values all decode. */
  lemma {:induction false} ReplayAccounted(s: Store, calls: seq<Call>)
    ensures ReadsAccounted(s) ==> ReadsAccounted(Replay(s, calls))
    ensures ReadsExact(s) ==> ReadsExact(Replay(s, calls))
    decreases |calls|
  {
    if calls != [] {
      StepAccounted(s, calls[0]);
      ReplayAccounted(Step(s, calls[0]), calls[1..]);
    }
  }

  /** Starting from `Open`, the counters account for every read, exactly so
      when every stored value decodes. */
  lemma OpenAccounted(db: map<string, Stored>, calls: seq<Call>)
    ensures ReadsAccounted(Replay(Open(db), calls))
    ensures (forall k | k in db :: db[k] != Undecodable) ==> ReadsExact(Replay(Open(db), calls))
  {
    ReplayAccounted(Open(db), calls);
  }
}
