/** YarnScriptNode.prep: the chapter files of a directory listing, sorted in place
    with Python's ordering of strings. */
module Listing {
  import opened Text
  import opened Naming

  predicate Sorted(s: seq<string>)
  {
    forall k, l :: 0 <= k < l < |s| ==> Le(s[k], s[l])
  }

  /** list.sort() on a list of str, as an insertion sort over an array. */
  method SortInPlace(a: array<string>)
    modifies a
    ensures Sorted(a[..])
    ensures multiset(a[..]) == multiset(old(a[..]))
  {
    var i := 0;
    while i < a.Length
      invariant 0 <= i <= a.Length
      invariant forall k, l :: 0 <= k < l < i ==> Le(a[k], a[l])
      invariant multiset(a[..]) == multiset(old(a[..]))
    {
      InsertAt(a, i);
      i := i + 1;
    }
    assert a[..] == a[..a.Length];
  }

  /** One pass of the insertion sort: a[i] moves left into the sorted prefix a[..i]. */
  method InsertAt(a: array<string>, i: nat)
    requires i < a.Length
    requires forall k, l :: 0 <= k < l < i ==> Le(a[k], a[l])
    modifies a
    ensures forall k, l :: 0 <= k < l <= i ==> Le(a[k], a[l])
    ensures multiset(a[..]) == multiset(old(a[..]))
    ensures a[i + 1..] == old(a[i + 1..])
  {
    var j := i;
    while j > 0 && !Le(a[j - 1], a[j])
      invariant 0 <= j <= i
      invariant forall k, l :: 0 <= k < l <= i && k != j && l != j ==> Le(a[k], a[l])
      invariant forall l :: j < l <= i ==> Le(a[j], a[l])
      invariant multiset(a[..]) == multiset(old(a[..]))
      invariant forall m :: i < m < a.Length ==> a[m] == old(a[m])
    {
      LeTotal(a[j - 1], a[j]);
      a[j - 1], a[j] := a[j], a[j - 1];
      j := j - 1;
    }
    if j > 0 {
      forall k | 0 <= k < j - 1 ensures Le(a[k], a[j]) {
        LeTransitive(a[k], a[j - 1], a[j]);
      }
    }
  }

  /** The case of YarnScriptNode.prep: the chapter files of the listing, in ascending order. */
  method ListChapterFiles(listing: seq<string>) returns (files: seq<string>)
    ensures Sorted(files)
    ensures forall k :: 0 <= k < |files| ==> IsChapterFile(files[k])
    ensures forall x :: multiset(files)[x] == if IsChapterFile(x) then multiset(listing)[x] else 0
  {
    var chapterFiles := ChapterFiles(listing);
    var a := new string[|chapterFiles|](k requires 0 <= k < |chapterFiles| => chapterFiles[k]);
    assert a[..] == chapterFiles;
    SortInPlace(a);
    files := a[..];
    forall k | 0 <= k < |files| ensures IsChapterFile(files[k]) {
      assert files[k] in multiset(chapterFiles);
    }
  }

  /** The least element of a sorted sequence comes first. */
  lemma SortedHeadIsLeast(s: seq<string>, x: string)
    requires Sorted(s) && x in s
    ensures Le(s[0], x)
  {
    var k :| 0 <= k < |s| && s[k] == x;
    if k == 0 {
      LeReflexive(x);
    }
  }

  lemma SortedTail(s: seq<string>)
    requires Sorted(s) && s != []
    ensures Sorted(s[1..])
  {
    forall k, l | 0 <= k < l < |s| - 1 ensures Le(s[1..][k], s[1..][l]) {
      assert s[1..][k] == s[k + 1] && s[1..][l] == s[l + 1];
    }
  }

  lemma MultisetTail(s: seq<string>)
    requires s != []
    ensures multiset(s[1..]) == multiset(s) - multiset{s[0]}
  {
    assert s == [s[0]] + s[1..];
  }

  /** A sorted arrangement of a multiset of strings is unique, so the order the
      listing came in does not matter. */
  lemma {:induction false} SortedUnique(s: seq<string>, t: seq<string>)
    requires Sorted(s) && Sorted(t) && multiset(s) == multiset(t)
    ensures s == t
    decreases |s|
  {
    assert |t| == |multiset(t)| == |multiset(s)| == |s|;
    if s != [] {
      assert s[0] in multiset(t) && t[0] in multiset(s);
      SortedHeadIsLeast(s, t[0]);
      SortedHeadIsLeast(t, s[0]);
      LeAntisymmetric(s[0], t[0]);
      MultisetTail(s);
      MultisetTail(t);
      SortedTail(s);
      SortedTail(t);
      SortedUnique(s[1..], t[1..]);
      assert s == [s[0]] + s[1..] && t == [t[0]] + t[1..];
    }
  }

  /** Two listings with the same names, in any order, give the same prep result. */
  lemma ListingOrderIrrelevant(listing1: seq<string>, listing2: seq<string>, r1: seq<string>, r2: seq<string>)
    requires multiset(listing1) == multiset(listing2)
    requires Sorted(r1) && multiset(r1) == multiset(ChapterFiles(listing1))
    requires Sorted(r2) && multiset(r2) == multiset(ChapterFiles(listing2))
    ensures r1 == r2
  {
    assert multiset(ChapterFiles(listing1)) == multiset(ChapterFiles(listing2)) by {
      forall x ensures multiset(ChapterFiles(listing1))[x] == multiset(ChapterFiles(listing2))[x] { }
    }
    SortedUnique(r1, r2);
  }
}
