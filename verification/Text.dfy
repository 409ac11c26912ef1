/**
  The Python `str` operations the repository engine relies on, restricted to
  what the engine uses: `strip()`, `lower()`, `replace(old, new)`,
  `split(sep)`, `startswith(p)`, clamped slicing and the code-point ordering
  of `<` on strings. `lower()` and the whitespace class are ASCII only.
*/
module Text {

  /** Python's `str.isspace()` restricted to ASCII: tab .. carriage return,
      the four information separators 0x1C .. 0x1F, and the space. */
  predicate IsSpace(c: char) {
    9 <= c as int <= 13 || 28 <= c as int <= 32
  }

  predicate IsUpper(c: char) {
    'A' <= c <= 'Z'
  }

  /** `s.startswith(p)`. */
  predicate StartsWith(s: string, p: string) {
    p <= s
  }

  // ---------------------------------------------------------------------------
  // lower()
  // ---------------------------------------------------------------------------

  function LowerChar(c: char): (d: char)
    ensures !IsUpper(d)
    ensures IsSpace(d) == IsSpace(c)
    ensures !IsUpper(c) ==> d == c
    ensures IsUpper(c) ==> d as int == c as int + 32
  {
    if IsUpper(c) then (c as int + 32) as char else c
  }

  /** `s.lower()` on ASCII letters; every other character is kept. */
  function Lower(s: string): (r: string)
    ensures |r| == |s|
    ensures forall i :: 0 <= i < |s| ==> r[i] == LowerChar(s[i])
  {
    if s == [] then [] else [LowerChar(s[0])] + Lower(s[1..])
  }

  lemma LowerIdempotent(s: string)
    ensures Lower(Lower(s)) == Lower(s)
  {
    var once := Lower(s);
    var twice := Lower(once);
    assert forall i :: 0 <= i < |s| ==> twice[i] == once[i];
  }

  lemma LowerEmpty()
    ensures Lower("") == ""
  {
  }

  // ---------------------------------------------------------------------------
  // strip()
  // ---------------------------------------------------------------------------

  /** Drops leading whitespace: the result is the suffix of `s` that starts at
      its first non-space character. */
  function TrimLeft(s: string): (r: string)
    ensures |r| <= |s| && r == s[|s| - |r|..]
    ensures forall i :: 0 <= i < |s| - |r| ==> IsSpace(s[i])
    ensures |r| > 0 ==> !IsSpace(r[0])
  {
    if |s| > 0 && IsSpace(s[0]) then TrimLeft(s[1..]) else s
  }

  /** Drops trailing whitespace: the result is the prefix of `s` that ends at
      its last non-space character. */
  function TrimRight(s: string): (r: string)
    ensures |r| <= |s| && r == s[..|r|]
    ensures forall i :: |r| <= i < |s| ==> IsSpace(s[i])
    ensures |r| > 0 ==> !IsSpace(r[|r| - 1])
  {
    if |s| > 0 && IsSpace(s[|s| - 1]) then TrimRight(s[..|s| - 1]) else s
  }

  /** `s.strip()`: the infix `s[i..j]` left once every leading and trailing
      whitespace character is dropped. */
  function Trim(s: string): (r: string)
    ensures |r| > 0 ==> !IsSpace(r[0]) && !IsSpace(r[|r| - 1])
    ensures exists i :: StripsTo(s, r, i)
  {
    TrimStrips(s);
    TrimRight(TrimLeft(s))
  }

  lemma TrimStrips(s: string)
    ensures StripsTo(s, TrimRight(TrimLeft(s)), |s| - |TrimLeft(s)|)
  {
    StripsOfSuffixPrefix(s, TrimLeft(s), TrimRight(TrimLeft(s)));
  }

  /** Stripping spaces from the front and then from the back leaves an infix
      surrounded by spaces. */
  lemma StripsOfSuffixPrefix(s: string, l: string, r: string)
    requires |l| <= |s| && l == s[|s| - |l|..]
    requires forall k :: 0 <= k < |s| - |l| ==> IsSpace(s[k])
    requires |r| <= |l| && r == l[..|r|]
    requires forall k :: |r| <= k < |l| ==> IsSpace(l[k])
    ensures StripsTo(s, r, |s| - |l|)
  {
    var i := |s| - |l|;
    forall k | i + |r| <= k < |s|
      ensures IsSpace(s[k])
    {
      assert s[k] == l[k - i];
    }
  }

  /** `r` is the infix of `s` starting at `i`, and everything of `s` outside
      it is whitespace. */
  predicate StripsTo(s: string, r: string, i: int) {
    && 0 <= i <= |s| - |r|
    && r == s[i..i + |r|]
    && (forall k :: 0 <= k < i ==> IsSpace(s[k]))
    && (forall k :: i + |r| <= k < |s| ==> IsSpace(s[k]))
  }

  lemma TrimLeftNoop(s: string)
    requires |s| > 0 ==> !IsSpace(s[0])
    ensures TrimLeft(s) == s
  {
  }

  lemma TrimRightNoop(s: string)
    requires |s| > 0 ==> !IsSpace(s[|s| - 1])
    ensures TrimRight(s) == s
  {
  }

  lemma TrimIdempotent(s: string)
    ensures Trim(Trim(s)) == Trim(s)
  {
    var t := Trim(s);
    TrimLeftNoop(t);
    TrimRightNoop(t);
  }

  lemma {:induction false} TrimLeftLower(s: string)
    ensures TrimLeft(Lower(s)) == Lower(TrimLeft(s))
    decreases |s|
  {
    if |s| > 0 {
      assert Lower(s)[1..] == Lower(s[1..]);
      TrimLeftLower(s[1..]);
    }
  }

  lemma LowerPrefix(s: string, n: nat)
    requires n <= |s|
    ensures Lower(s)[..n] == Lower(s[..n])
  {
    var a := Lower(s)[..n];
    var b := Lower(s[..n]);
    assert forall i :: 0 <= i < n ==> a[i] == b[i];
  }

  lemma {:induction false} TrimRightLower(s: string)
    ensures TrimRight(Lower(s)) == Lower(TrimRight(s))
    decreases |s|
  {
    if |s| > 0 {
      LowerPrefix(s, |s| - 1);
      TrimRightLower(s[..|s| - 1]);
    }
  }

  /** Lower-casing and stripping commute, because no ASCII upper-case letter
      is whitespace and lower-casing never creates whitespace. */
  lemma TrimLowerCommute(s: string)
    ensures Trim(Lower(s)) == Lower(Trim(s))
  {
    TrimLeftLower(s);
    TrimRightLower(TrimLeft(s));
  }

  // ---------------------------------------------------------------------------
  // replace(old, new)
  // ---------------------------------------------------------------------------

  /** `"".replace` semantics for an empty `old`: `new` is inserted before
      every character and at the end. */
  function Interleave(s: string, rep: string): (r: string)
    ensures |r| == |s| + (|s| + 1) * |rep|
  {
    if |s| == 0 then rep else rep + [s[0]] + Interleave(s[1..], rep)
  }

  /** Where the pieces of `Interleave(s, rep)` sit: with `w` the width of
      one `rep` plus one character, the `k`-th block is `rep` followed by
      `s[k]`. `InterleaveEnd` adds the final `rep`. */
  lemma {:induction false} InterleaveLayout(s: string, rep: string, k: nat)
    requires k < |s|
    ensures var r := Interleave(s, rep);
            var w := |rep| + 1;
            && k * w + w <= |r|
            && r[k * w .. k * w + |rep|] == rep
            && r[k * w + |rep|] == s[k]
    decreases k
  {
    var r := Interleave(s, rep);
    var w := |rep| + 1;
    var tail := Interleave(s[1..], rep);
    assert r == rep + [s[0]] + tail;
    assert |r| == w + |tail|;
    if k == 0 {
      assert k * w == 0;
    } else {
      InterleaveLayout(s[1..], rep, k - 1);
      var off := (k - 1) * w;
      assert k * w == w + off;
      assert off + w <= |tail|;
      assert r[w + off .. w + off + |rep|] == tail[off .. off + |rep|];
      assert r[w + off + |rep|] == tail[off + |rep|];
    }
  }

  /** `Interleave(s, rep)` ends with `rep`. */
  lemma {:induction false} InterleaveEnd(s: string, rep: string)
    ensures var r := Interleave(s, rep);
            |rep| <= |r| && r[|r| - |rep|..] == rep
    decreases |s|
  {
    if |s| > 0 {
      InterleaveEnd(s[1..], rep);
    }
  }

  /** `s.replace(old, new)`: left-to-right, non-overlapping substitution of
      every occurrence of `old`. */
  function Replace(s: string, pat: string, rep: string): (r: string)
    ensures |pat| > 0 && |rep| == |pat| ==> |r| == |s|
    ensures |pat| > 0 && |rep| <= |pat| ==> |r| <= |s|
    ensures |pat| > 0 && |pat| <= |rep| ==> |s| <= |r|
    ensures |pat| == 0 ==> |r| == |s| + (|s| + 1) * |rep|
    decreases |s|
  {
    if |pat| == 0 then Interleave(s, rep)
    else if |s| == 0 then s
    else if pat <= s then rep + Replace(s[|pat|..], pat, rep)
    else [s[0]] + Replace(s[1..], pat, rep)
  }

  /** `pat` occurs somewhere in `s` as a contiguous substring. */
  predicate Occurs(pat: string, s: string) {
    exists i | 0 <= i <= |s| :: OccursAt(pat, s, i)
  }

  predicate OccursAt(pat: string, s: string, i: int) {
    0 <= i && i + |pat| <= |s| && s[i..i + |pat|] == pat
  }

  /** Replacement works left to right: up to the first occurrence the text
      is kept, that occurrence becomes `rep`, and the rest is replaced from
      just after it. With `ReplaceAbsent` this determines `Replace` for
      every non-empty pattern. */
  lemma ReplaceFirst(s: string, pat: string, rep: string, i: nat)
    requires |pat| > 0 && OccursAt(pat, s, i)
    requires forall j :: 0 <= j < i ==> !OccursAt(pat, s, j)
    ensures Replace(s, pat, rep) == s[..i] + rep + Replace(s[i + |pat|..], pat, rep)
  {
    ReplaceKeepsPrefix(s, pat, rep, i);
    var u := s[i..];
    assert u[..|pat|] == s[i..i + |pat|];
    ReplaceAtStart(u, pat, rep);
    assert u[|pat|..] == s[i + |pat|..];
    Regroup(s[..i], rep, Replace(u[|pat|..], pat, rep));
  }

  // Sequence identities, kept apart so that proofs about `Replace` use them
  // without unfolding it.

  lemma Regroup(a: string, b: string, c: string)
    ensures a + (b + c) == a + b + c
  {
  }

  lemma PrefixSnoc(s: string, j: nat)
    requires 0 < j <= |s|
    ensures s[..j - 1] + [s[j - 1]] == s[..j]
  {
  }

  lemma EmptyPrefix(s: string, r: string)
    ensures r == s[..0] + r && s[0..] == s
  {
  }

  lemma Chain(whole: string, a: string, mid: string, c: char, rest: string, b: string)
    requires whole == a + mid && mid == [c] + rest && a + [c] == b
    ensures whole == b + rest
  {
    assert a + ([c] + rest) == a + [c] + rest;
  }

  /** Positions before the first occurrence are copied unchanged. */
  lemma {:induction false} ReplaceKeepsPrefix(s: string, pat: string, rep: string, j: nat)
    requires |pat| > 0 && j + |pat| <= |s|
    requires forall k :: 0 <= k < j ==> !OccursAt(pat, s, k)
    ensures Replace(s, pat, rep) == s[..j] + Replace(s[j..], pat, rep)
    decreases j
  {
    if j == 0 {
      EmptyPrefix(s, Replace(s, pat, rep));
    } else {
      ReplaceKeepsPrefix(s, pat, rep, j - 1);
      KeepOne(s, pat, rep, j);
      PrefixSnoc(s, j);
      Chain(Replace(s, pat, rep), s[..j - 1], Replace(s[j - 1..], pat, rep),
            s[j - 1], Replace(s[j..], pat, rep), s[..j]);
    }
  }

  /** A position where `pat` does not occur is copied unchanged. */
  lemma KeepOne(s: string, pat: string, rep: string, j: nat)
    requires |pat| > 0 && 0 < j && j - 1 + |pat| < |s| && !OccursAt(pat, s, j - 1)
    ensures Replace(s[j - 1..], pat, rep) == [s[j - 1]] + Replace(s[j..], pat, rep)
  {
    var u := s[j - 1..];
    assert u[..|pat|] == s[j - 1..j - 1 + |pat|];
    ReplaceSkip(u, pat, rep);
    assert u[1..] == s[j..];
  }

  /** Where `pat` starts `s`, it becomes `rep`. */
  lemma ReplaceAtStart(s: string, pat: string, rep: string)
    requires |pat| > 0 && |pat| <= |s| && s[..|pat|] == pat
    ensures Replace(s, pat, rep) == rep + Replace(s[|pat|..], pat, rep)
  {
  }

  /** Where `pat` does not start `s` and `s` is longer than `pat`, the first
      character is kept. */
  lemma ReplaceSkip(s: string, pat: string, rep: string)
    requires |pat| > 0 && |pat| < |s| && s[..|pat|] != pat
    ensures Replace(s, pat, rep) == [s[0]] + Replace(s[1..], pat, rep)
  {
  }

  lemma {:induction false} ReplaceAbsent(s: string, pat: string, rep: string)
    requires |pat| > 0 && !Occurs(pat, s)
    ensures Replace(s, pat, rep) == s
    decreases |s|
  {
    if |s| > 0 {
      if pat <= s {
        assert OccursAt(pat, s, 0);
      }
      if Occurs(pat, s[1..]) {
        var t := s[1..];
        var i :| 0 <= i <= |t| && OccursAt(pat, t, i);
        assert t[i..i + |pat|] == pat;
        assert s[i + 1..i + 1 + |pat|] == pat;
        assert OccursAt(pat, s, i + 1);
      }
      ReplaceAbsent(s[1..], pat, rep);
    }
  }

  lemma {:induction false} InterleaveEmpty(s: string)
    ensures Interleave(s, "") == s
    decreases |s|
  {
    if |s| > 0 {
      InterleaveEmpty(s[1..]);
    }
  }

  /** Replacing a string by itself changes nothing. */
  lemma {:induction false} ReplaceSelf(s: string, pat: string)
    ensures Replace(s, pat, pat) == s
    decreases |s|
  {
    if |pat| == 0 {
      InterleaveEmpty(s);
    } else if |s| > 0 {
      if pat <= s {
        ReplaceSelf(s[|pat|..], pat);
        assert s == pat + s[|pat|..];
      } else {
        ReplaceSelf(s[1..], pat);
      }
    }
  }

  // ---------------------------------------------------------------------------
  // split(sep) and its inverse sep.join(parts)
  // ---------------------------------------------------------------------------

  /** `s.split(sep)` for a one-character separator: one part more than there
      are separators, none of them containing `sep`. */
  function Split(s: string, sep: char): (parts: seq<string>)
    ensures |parts| >= 1
    ensures forall i :: 0 <= i < |parts| ==> sep !in parts[i]
    decreases |s|
  {
    if |s| == 0 then [""]
    else
      var rest := Split(s[1..], sep);
      assert s == [s[0]] + s[1..];
      if s[0] == sep then [""] + rest
      else [[s[0]] + rest[0]] + rest[1..]
  }

  /** One part more than there are separators. */
  lemma {:induction false} SplitCount(s: string, sep: char)
    ensures |Split(s, sep)| == multiset(s)[sep] + 1
    decreases |s|
  {
    if |s| > 0 {
      SplitCount(s[1..], sep);
      assert s == [s[0]] + s[1..];
      assert multiset(s) == multiset{s[0]} + multiset(s[1..]);
    }
  }

  /** `sep.join(parts)`. */
  function Join(parts: seq<string>, sep: char): string
  {
    if |parts| == 0 then ""
    else if |parts| == 1 then parts[0]
    else parts[0] + [sep] + Join(parts[1..], sep)
  }

  lemma {:induction false} JoinSplit(s: string, sep: char)
    ensures Join(Split(s, sep), sep) == s
    decreases |s|
  {
    if |s| > 0 {
      JoinSplit(s[1..], sep);
      var rest := Split(s[1..], sep);
      assert s == [s[0]] + s[1..];
      if s[0] == sep {
        assert Split(s, sep) == [""] + rest;
        JoinEmptyHead(rest, sep);
      } else {
        assert Split(s, sep) == [[s[0]] + rest[0]] + rest[1..];
        JoinExtendHead(s[0], rest, sep);
      }
    }
  }

  lemma JoinEmptyHead(rest: seq<string>, sep: char)
    requires |rest| >= 1
    ensures Join([""] + rest, sep) == [sep] + Join(rest, sep)
  {
    assert ([""] + rest)[1..] == rest;
  }

  lemma JoinExtendHead(c: char, rest: seq<string>, sep: char)
    requires |rest| >= 1
    ensures Join([[c] + rest[0]] + rest[1..], sep) == [c] + Join(rest, sep)
  {
    var parts := [[c] + rest[0]] + rest[1..];
    assert parts[1..] == rest[1..];
    if |rest| > 1 {
      assert Join(parts, sep) == ([c] + rest[0]) + [sep] + Join(rest[1..], sep);
    }
  }

  lemma {:induction false} SplitFree(a: string, sep: char)
    requires sep !in a
    ensures Split(a, sep) == [a]
    decreases |a|
  {
    if |a| > 0 {
      SplitFree(a[1..], sep);
      assert [a[0]] + a[1..] == a;
    }
  }

  lemma {:induction false} SplitAtSep(a: string, t: string, sep: char)
    requires sep !in a
    ensures Split(a + [sep] + t, sep) == [a] + Split(t, sep)
    decreases |a|
  {
    var s := a + [sep] + t;
    if |a| == 0 {
      assert s[1..] == t;
    } else {
      assert s[0] == a[0] != sep;
      assert s[1..] == a[1..] + [sep] + t;
      SplitAtSep(a[1..], t, sep);
      var rest := Split(s[1..], sep);
      assert rest == [a[1..]] + Split(t, sep);
      assert Split(s, sep) == [[a[0]] + rest[0]] + rest[1..];
      assert [a[0]] + a[1..] == a;
    }
  }

  /** Joining separator-free parts and splitting again gives the parts back. */
  lemma {:induction false} SplitJoin(parts: seq<string>, sep: char)
    requires |parts| >= 1
    requires forall i :: 0 <= i < |parts| ==> sep !in parts[i]
    ensures Split(Join(parts, sep), sep) == parts
    decreases |parts|
  {
    if |parts| == 1 {
      SplitFree(parts[0], sep);
    } else {
      SplitJoin(parts[1..], sep);
      SplitAtSep(parts[0], Join(parts[1..], sep), sep);
      assert parts == [parts[0]] + parts[1..];
    }
  }

  // ---------------------------------------------------------------------------
  // Slicing and ordering
  // ---------------------------------------------------------------------------

  /** Python's `s[i:j]` for non-negative bounds: both ends are clamped to
      the length, so it never fails. */
  function Slice(s: string, i: nat, j: nat): (r: string)
    requires i <= j
    ensures |r| <= j - i
    ensures i <= |s| ==> r <= s[i..]
    ensures j <= |s| ==> r == s[i..j]
    ensures i <= |s| < j ==> r == s[i..]
    ensures |s| <= i ==> r == ""
  {
    var hi := if j <= |s| then j else |s|;
    var lo := if i <= hi then i else hi;
    s[lo..hi]
  }

  /** Python's `a < b` on `str`: lexicographic by code point, with a proper
      prefix ordered first. */
  predicate LexLess(a: string, b: string)
    decreases |a|
  {
    if |a| == 0 then |b| > 0
    else if |b| == 0 then false
    else a[0] < b[0] || (a[0] == b[0] && LexLess(a[1..], b[1..]))
  }

  /** Python's `a <= b` on `str`. */
  predicate LexLe(a: string, b: string) {
    !LexLess(b, a)
  }

  lemma {:induction false} LexLessIrreflexive(a: string)
    ensures !LexLess(a, a)
    decreases |a|
  {
    if |a| > 0 {
      LexLessIrreflexive(a[1..]);
    }
  }

  lemma {:induction false} LexLessTransitive(a: string, b: string, c: string)
    requires LexLess(a, b) && LexLess(b, c)
    ensures LexLess(a, c)
    decreases |a|
  {
    if |a| > 0 && |b| > 0 && |c| > 0 && a[0] == b[0] == c[0] {
      LexLessTransitive(a[1..], b[1..], c[1..]);
    }
  }

  lemma {:induction false} LexLessTotal(a: string, b: string)
    requires a != b
    ensures LexLess(a, b) || LexLess(b, a)
    decreases |a|
  {
    if |a| > 0 && |b| > 0 && a[0] == b[0] {
      assert a == [a[0]] + a[1..] && b == [b[0]] + b[1..];
      LexLessTotal(a[1..], b[1..]);
    }
  }

  lemma LexLeTransitive(a: string, b: string, c: string)
    requires LexLe(a, b) && LexLe(b, c)
    ensures LexLe(a, c)
  {
    if a != b && b != c {
      LexLessTotal(a, b);
      LexLessTotal(b, c);
      LexLessTransitive(a, b, c);
      LexLessAsymmetric(a, c);
    }
  }

  lemma LexLessAsymmetric(a: string, b: string)
    requires LexLess(a, b)
    ensures !LexLess(b, a)
  {
    if LexLess(b, a) {
      LexLessTransitive(a, b, a);
      LexLessIrreflexive(a);
    }
  }

  lemma LexLessImpliesLe(a: string, b: string)
    requires LexLess(a, b)
    ensures LexLe(a, b)
  {
    LexLessAsymmetric(a, b);
  }
}
