/**
 * The sort() rank of app/Support/Traits/ResourceSortingByFilename.php:
 * a resource's menu rank is the index of its class file's name in the
 * sorted list of resource file names, plus 2000. The directory listing
 * is an input.
 */
module ResourceSorting {
  import opened Wrappers

  /** The offset added to every index. */
  const RankBase := 2000

  /** PHP's comparison of two non-numeric strings: byte by byte, a proper prefix first. */
  predicate NotAfter(a: string, b: string)
    decreases |a|
  {
    if a == [] then true
    else if b == [] then false
    else if a[0] != b[0] then a[0] < b[0]
    else NotAfter(a[1..], b[1..])
  }

  lemma {:induction false} NotAfterTotal(a: string, b: string)
    ensures NotAfter(a, b) || NotAfter(b, a)
    decreases |a|
  {
    if a != [] && b != [] && a[0] == b[0] {
      NotAfterTotal(a[1..], b[1..]);
    }
  }

  lemma {:induction false} NotAfterAntisymmetric(a: string, b: string)
    requires NotAfter(a, b) && NotAfter(b, a)
    ensures a == b
    decreases |a|
  {
    if a != [] {
      NotAfterAntisymmetric(a[1..], b[1..]);
      assert a == [a[0]] + a[1..] && b == [b[0]] + b[1..];
    }
  }

  lemma {:induction false} NotAfterTransitive(a: string, b: string, c: string)
    requires NotAfter(a, b) && NotAfter(b, c)
    ensures NotAfter(a, c)
    decreases |a|
  {
    if a != [] && a[0] == b[0] && b[0] == c[0] {
      NotAfterTransitive(a[1..], b[1..], c[1..]);
    }
  }

  predicate Sorted(s: seq<string>) {
    forall i, j :: 0 <= i < j < |s| ==> NotAfter(s[i], s[j])
  }

  /** Insert x into a sorted list before the first name after it. */
  function Insert(x: string, s: seq<string>): (r: seq<string>)
    ensures |r| == |s| + 1
    decreases |s|
  {
    if s == [] || NotAfter(x, s[0]) then [x] + s else [s[0]] + Insert(x, s[1..])
  }

  /** ->sort()->values(): the names in ascending order. */
  function SortNames(s: seq<string>): (r: seq<string>)
    ensures |r| == |s|
    decreases |s|
  {
    if s == [] then [] else Insert(s[0], SortNames(s[1..]))
  }

  lemma {:induction false} InsertPermutes(x: string, s: seq<string>)
    ensures multiset(Insert(x, s)) == multiset([x] + s)
    decreases |s|
  {
    if s != [] && !NotAfter(x, s[0]) {
      InsertPermutes(x, s[1..]);
      assert [x] + s == [x] + ([s[0]] + s[1..]);
    }
  }

  lemma {:induction false} NotAfterReflexive(a: string)
    ensures NotAfter(a, a)
    decreases |a|
  {
    if a != [] {
      NotAfterReflexive(a[1..]);
    }
  }

  /** A sorted list behind a head that comes before all of it stays sorted. */
  lemma ConsSorted(h: string, rest: seq<string>)
    requires Sorted(rest) && forall k :: 0 <= k < |rest| ==> NotAfter(h, rest[k])
    ensures Sorted([h] + rest)
  {
    var s := [h] + rest;
    forall i, j | 0 <= i < j < |s| ensures NotAfter(s[i], s[j]) {
      if i > 0 {
        assert s[i] == rest[i - 1] && s[j] == rest[j - 1];
      } else {
        assert s[j] == rest[j - 1];
      }
    }
  }

  /** Inserting keeps a lower bound of the list and of the inserted name. */
  lemma {:induction false} InsertBounded(x: string, s: seq<string>, lo: string)
    requires NotAfter(lo, x) && forall k :: 0 <= k < |s| ==> NotAfter(lo, s[k])
    ensures forall k :: 0 <= k < |Insert(x, s)| ==> NotAfter(lo, Insert(x, s)[k])
    decreases |s|
  {
    if s != [] && !NotAfter(x, s[0]) {
      InsertBounded(x, s[1..], lo);
      var rest := Insert(x, s[1..]);
      assert Insert(x, s) == [s[0]] + rest;
      forall k | 0 <= k < |Insert(x, s)| ensures NotAfter(lo, Insert(x, s)[k]) {
        if k > 0 {
          assert Insert(x, s)[k] == rest[k - 1];
        }
      }
    } else {
      forall k | 0 <= k < |Insert(x, s)| ensures NotAfter(lo, Insert(x, s)[k]) {
        if k > 0 {
          assert Insert(x, s)[k] == s[k - 1];
        }
      }
    }
  }

  lemma {:induction false} InsertSorted(x: string, s: seq<string>)
    requires Sorted(s)
    ensures Sorted(Insert(x, s))
    decreases |s|
  {
    if s == [] {
      assert Insert(x, s) == [x];
    } else if NotAfter(x, s[0]) {
      forall k | 0 <= k < |s| ensures NotAfter(x, s[k]) {
        if k == 0 {
        } else {
          NotAfterTransitive(x, s[0], s[k]);
        }
      }
      ConsSorted(x, s);
    } else {
      NotAfterTotal(x, s[0]);
      InsertSorted(x, s[1..]);
      InsertBounded(x, s[1..], s[0]);
      ConsSorted(s[0], Insert(x, s[1..]));
    }
  }

  /** Sorting yields the same names in ascending order. */
  lemma {:induction false} SortNamesSpec(s: seq<string>)
    ensures Sorted(SortNames(s)) && multiset(SortNames(s)) == multiset(s)
    decreases |s|
  {
    if s != [] {
      SortNamesSpec(s[1..]);
      InsertSorted(s[0], SortNames(s[1..]));
      InsertPermutes(s[0], SortNames(s[1..]));
      assert s == [s[0]] + s[1..];
    }
  }

  /** ->flip()[name]: the last index holding name, or None when no entry holds it. */
  function LastIndexOf(s: seq<string>, name: string): (r: Option<nat>)
    ensures r.None? <==> name !in s
    ensures r.Some? ==> r.value < |s| && s[r.value] == name &&
                        forall j :: r.value < j < |s| ==> s[j] != name
    decreases |s|
  {
    if s == [] then None
    else if s[|s| - 1] == name then Some(|s| - 1)
    else
      var r := LastIndexOf(s[..|s| - 1], name);
      assert s == s[..|s| - 1] + [s[|s| - 1]];
      r
  }

  /**
   * sort(): the rank of the class file `name` among `files`, which is its
   * position in the sorted list counted from 2000; None where the lookup
   * raises, which is exactly when no file has that name.
   */
  function Rank(files: seq<string>, name: string): (r: Option<int>)
    ensures r.None? <==> name !in files
    ensures r.Some? ==> RankBase <= r.value < RankBase + |files| && SortNames(files)[r.value - RankBase] == name
  {
    SortNamesSpec(files);
    assert name in SortNames(files) <==> name in files by {
      assert name in files <==> name in multiset(files);
      assert name in SortNames(files) <==> name in multiset(SortNames(files));
    }
    match LastIndexOf(SortNames(files), name)
    case None => None
    case Some(i) => Some(i + RankBase)
  }

  /** Files rank in name order: a name before another ranks lower. */
  lemma RankOrdered(files: seq<string>, a: string, b: string)
    requires a in files && b in files && a != b && NotAfter(a, b)
    ensures Rank(files, a).value < Rank(files, b).value
  {
    var i, j := Rank(files, a).value - RankBase, Rank(files, b).value - RankBase;
    if j < i {
      SortedPair(files, j, i);
      NotAfterAntisymmetric(a, b);
    }
  }

  lemma SortedPair(files: seq<string>, j: int, i: int)
    requires 0 <= j < i < |files|
    ensures NotAfter(SortNames(files)[j], SortNames(files)[i])
  {
    SortNamesSpec(files);
  }

  /** A name listed twice (one file per sub-folder) takes the later of its sorted positions. */
  lemma RankTakesLast(files: seq<string>, name: string, k: nat)
    requires k < |SortNames(files)| && SortNames(files)[k] == name
    ensures Rank(files, name).Some? && k + RankBase <= Rank(files, name).value
  {
  }
}
