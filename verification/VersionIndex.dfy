/**
  The per-package version index: the list kept under `index_store["ns/name"]`.

  Publishing appends an entry and re-sorts the list with
  `sort(key=version, reverse=True)`: plain string order, descending. Python's
  sort is stable even when reversed, so on an already sorted list the new
  entry lands after every entry whose version is greater or equal and before
  every entry whose version is smaller. `Insert` computes that list directly.
*/
module VersionIndex {
  import opened Text

  /** One row of the index. */
  datatype Entry = Entry(namespace: string, name: string, version: string, variant: string, blobDigest: string)

  /** Non-increasing by version string. */
  predicate Sorted(g: seq<Entry>) {
    forall i, j :: 0 <= i < j < |g| ==> LexLe(g[j].version, g[i].version)
  }

  /** No two rows name the same `(namespace, name, version, variant)`. */
  predicate DistinctCoordinates(g: seq<Entry>) {
    forall i, j :: 0 <= i < j < |g| ==> !SameCoordinate(g[i], g[j])
  }

  predicate SameCoordinate(a: Entry, b: Entry) {
    a.namespace == b.namespace && a.name == b.name && a.version == b.version && a.variant == b.variant
  }

  /** Append-then-stable-sort on a sorted group. */
  function Insert(g: seq<Entry>, e: Entry): (r: seq<Entry>)
    ensures multiset(r) == multiset(g) + multiset{e}
    ensures |r| == |g| + 1
    decreases |g|
  {
    if g == [] then [e]
    else if LexLess(g[0].version, e.version) then [e] + g
    else
      assert g == [g[0]] + g[1..];
      [g[0]] + Insert(g[1..], e)
  }

  /** The new entry sits at position `k`, after every row with a version at
      least its own and before every row with a smaller one; the other rows
      keep their order. */
  predicate InsertedAt(g: seq<Entry>, e: Entry, r: seq<Entry>, k: int) {
    && 0 <= k <= |g|
    && r == g[..k] + [e] + g[k..]
    && (forall i :: 0 <= i < k ==> LexLe(e.version, g[i].version))
    && (forall i :: k <= i < |g| ==> LexLess(g[i].version, e.version))
  }

  lemma SortedTail(g: seq<Entry>)
    requires Sorted(g) && |g| > 0
    ensures Sorted(g[1..])
  {
  }

  lemma {:induction false} InsertPosition(g: seq<Entry>, e: Entry)
    requires Sorted(g)
    ensures exists k :: InsertedAt(g, e, Insert(g, e), k)
    decreases |g|
  {
    if g == [] {
      assert InsertedAt(g, e, Insert(g, e), 0);
    } else if LexLess(g[0].version, e.version) {
      AllBelow(g, e);
      assert InsertedAt(g, e, Insert(g, e), 0);
    } else {
      SortedTail(g);
      InsertPosition(g[1..], e);
      var k :| InsertedAt(g[1..], e, Insert(g[1..], e), k);
      InsertedAtCons(g, e, Insert(g[1..], e), k);
    }
  }

  /** When the head of a sorted group is below `e`, every row is. */
  lemma AllBelow(g: seq<Entry>, e: Entry)
    requires Sorted(g) && |g| > 0
    requires LexLess(g[0].version, e.version)
    ensures forall i :: 0 <= i < |g| ==> LexLess(g[i].version, e.version)
  {
    forall i | 0 < i < |g|
      ensures LexLess(g[i].version, e.version)
    {
      if g[i].version != g[0].version {
        LexLessTotal(g[i].version, g[0].version);
        LexLessTransitive(g[i].version, g[0].version, e.version);
      }
    }
  }

  lemma InsertedAtCons(g: seq<Entry>, e: Entry, tail: seq<Entry>, k: int)
    requires |g| > 0
    requires LexLe(e.version, g[0].version)
    requires InsertedAt(g[1..], e, tail, k)
    ensures InsertedAt(g, e, [g[0]] + tail, k + 1)
  {
    assert g[..k + 1] == [g[0]] + g[1..][..k];
    assert g[k + 1..] == g[1..][k..];
    forall i | 0 <= i < k + 1
      ensures LexLe(e.version, g[i].version)
    {
      if i > 0 {
        assert g[i] == g[1..][i - 1];
      }
    }
    forall i | k + 1 <= i < |g|
      ensures LexLess(g[i].version, e.version)
    {
      assert g[i] == g[1..][i - 1];
    }
  }

  /** Reading the rows of an insertion result by position. */
  lemma InsertedAtIndex(g: seq<Entry>, e: Entry, r: seq<Entry>, k: int)
    requires InsertedAt(g, e, r, k)
    ensures |r| == |g| + 1
    ensures forall i :: 0 <= i < k ==> r[i] == g[i]
    ensures r[k] == e
    ensures forall i :: k < i < |r| ==> r[i] == g[i - 1]
  {
  }

  /** Inserting keeps a group sorted. */
  lemma InsertSorted(g: seq<Entry>, e: Entry)
    requires Sorted(g)
    ensures Sorted(Insert(g, e))
  {
    InsertPosition(g, e);
    var r := Insert(g, e);
    var k :| InsertedAt(g, e, r, k);
    InsertedAtIndex(g, e, r, k);
    forall i, j | 0 <= i < j < |r|
      ensures LexLe(r[j].version, r[i].version)
    {
      if i == k {
        LexLessImpliesLe(g[j - 1].version, e.version);
      } else if i < k < j {
        LexLessImpliesLe(g[j - 1].version, e.version);
        LexLeTransitive(g[j - 1].version, e.version, g[i].version);
      }
    }
  }

  /** Inserting a row whose coordinate is new keeps coordinates distinct. */
  lemma InsertDistinct(g: seq<Entry>, e: Entry)
    requires Sorted(g)
    requires DistinctCoordinates(g)
    requires forall i :: 0 <= i < |g| ==> !SameCoordinate(g[i], e)
    ensures DistinctCoordinates(Insert(g, e))
  {
    InsertPosition(g, e);
    var r := Insert(g, e);
    var k :| InsertedAt(g, e, r, k);
    InsertedAtIndex(g, e, r, k);
    forall i, j | 0 <= i < j < |r|
      ensures !SameCoordinate(r[i], r[j])
    {
      if j < k {
        assert !SameCoordinate(g[i], g[j]);
      } else if j > k && i > k {
        assert !SameCoordinate(g[i - 1], g[j - 1]);
      } else if j > k && i < k {
        assert !SameCoordinate(g[i], g[j - 1]);
      }
    }
  }

  /** The head of a sorted group carries the greatest version. */
  lemma HeadIsMaximum(g: seq<Entry>)
    requires Sorted(g) && |g| > 0
    ensures forall i :: 0 <= i < |g| ==> LexLe(g[i].version, g[0].version)
  {
    forall i | 0 < i < |g|
      ensures LexLe(g[i].version, g[0].version)
    {
    }
    LexLessIrreflexive(g[0].version);
  }
}
