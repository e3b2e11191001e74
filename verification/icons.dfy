/**
  Icon descriptors and the list helpers of the conversion: `hasSize`,
  `contains` and `sortBySize`, plus a per-size count used to state how many
  descriptors of a size a list holds.
 */
module Icons {

  /** `IconInfo{File, Size}`: one image file of the iconset and its pixel size. */
  datatype IconInfo = IconInfo(file: string, size: nat)

  /** Why a conversion fails. */
  datatype ConvertError =
    | ExtractionFailed        // iconutil, the directory listing or the decoder failed
    | IndexOutOfRange         // the fallback decoder produced no image at all
    | LoadFailed(path: string) // the resampling source could not be loaded
    | SaveFailed              // some resize-and-save task failed

  /** `hasSize`: some descriptor of the list has the given size. */
  function HasSize(list: seq<IconInfo>, size: nat): (found: bool)
    ensures found <==> exists i :: 0 <= i < |list| && list[i].size == size
  {
    if |list| == 0 then false
    else if list[0].size == size then true
    else
      var found := HasSize(list[1..], size);
      assert found ==> exists i :: 0 <= i < |list[1..]| && list[1..][i].size == size;
      found
  }

  /** `contains`: the name occurs among the listed file names. */
  function Contains(files: seq<string>, name: string): (found: bool)
    ensures found <==> name in files
  {
    if |files| == 0 then false
    else if files[0] == name then true
    else
      assert files == [files[0]] + files[1..];
      Contains(files[1..], name)
  }

  /** Non-decreasing by size. */
  predicate SortedBySize(list: seq<IconInfo>) {
    forall i, j :: 0 <= i < j < |list| ==> list[i].size <= list[j].size
  }

  /** Prepending a descriptor no larger than the first keeps a list sorted. */
  lemma PrependSorted(h: IconInfo, list: seq<IconInfo>)
    requires SortedBySize(list)
    requires |list| > 0 ==> h.size <= list[0].size
    ensures SortedBySize([h] + list)
  {
    var r := [h] + list;
    forall i, j | 0 <= i < j < |r|
      ensures r[i].size <= r[j].size
    {
      if i == 0 && j > 1 {
        assert list[0].size <= list[j - 1].size;
      }
    }
  }

  /** Insert `x` into a list sorted by size, keeping it sorted; the result starts with `x` or with the list's first. */
  function Insert(x: IconInfo, list: seq<IconInfo>): (r: seq<IconInfo>)
    requires SortedBySize(list)
    ensures SortedBySize(r)
    ensures multiset(r) == multiset(list) + multiset{x}
    ensures |r| == |list| + 1
    ensures r[0] == x || (|list| > 0 && r[0] == list[0])
  {
    if |list| == 0 then [x]
    else if x.size <= list[0].size then
      PrependSorted(x, list);
      [x] + list
    else
      var tail := list[1..];
      var rest := Insert(x, tail);
      assert SortedBySize(tail);
      assert |tail| > 0 ==> list[0].size <= tail[0].size;
      PrependSorted(list[0], rest);
      assert list == [list[0]] + tail;
      [list[0]] + rest
  }

  /**
    `sortBySize`: a permutation of the list that is non-decreasing by size.
    The source sorts with an unstable sort, so the order of descriptors of
    equal size is not promised; this is one admissible order.
   */
  function SortBySize(list: seq<IconInfo>): (r: seq<IconInfo>)
    ensures SortedBySize(r)
    ensures multiset(r) == multiset(list)
    ensures |r| == |list|
  {
    if |list| == 0 then []
    else
      assert list == [list[0]] + list[1..];
      Insert(list[0], SortBySize(list[1..]))
  }

  /** Number of descriptors of the given size. */
  function CountSize(list: seq<IconInfo>, size: nat): nat {
    if |list| == 0 then 0
    else (if list[0].size == size then 1 else 0) + CountSize(list[1..], size)
  }

  lemma {:induction false} CountSizeAppend(a: seq<IconInfo>, b: seq<IconInfo>, size: nat)
    ensures CountSize(a + b, size) == CountSize(a, size) + CountSize(b, size)
    decreases |a|
  {
    if |a| == 0 {
      assert a + b == b;
    } else {
      assert (a + b)[1..] == a[1..] + b;
      CountSizeAppend(a[1..], b, size);
    }
  }

  lemma {:induction false} CountSizeInsert(x: IconInfo, list: seq<IconInfo>, size: nat)
    requires SortedBySize(list)
    ensures CountSize(Insert(x, list), size) == CountSize(list, size) + (if x.size == size then 1 else 0)
    decreases |list|
  {
    if |list| == 0 {
    } else if x.size <= list[0].size {
      assert ([x] + list)[1..] == list;
    } else {
      var r := Insert(x, list);
      assert r[1..] == Insert(x, list[1..]);
      CountSizeInsert(x, list[1..], size);
    }
  }

  /** Sorting keeps the number of descriptors of every size. */
  lemma {:induction false} SortBySizeCounts(list: seq<IconInfo>, size: nat)
    ensures CountSize(SortBySize(list), size) == CountSize(list, size)
    decreases |list|
  {
    if |list| > 0 {
      SortBySizeCounts(list[1..], size);
      CountSizeInsert(list[0], SortBySize(list[1..]), size);
    }
  }

  /** `hasSize` holds exactly when the list holds at least one descriptor of the size. */
  lemma {:induction false} HasSizeCount(list: seq<IconInfo>, size: nat)
    ensures HasSize(list, size) <==> CountSize(list, size) > 0
    decreases |list|
  {
    if |list| > 0 {
      HasSizeCount(list[1..], size);
    }
  }

  /** Strictly ascending by size, hence at most one descriptor per size. */
  predicate AscendingSizes(list: seq<IconInfo>) {
    forall i, j :: 0 <= i < j < |list| ==> list[i].size < list[j].size
  }

  /** Appending a descriptor larger than every one in the list keeps sizes strictly ascending. */
  lemma AppendAscending(list: seq<IconInfo>, x: IconInfo)
    requires AscendingSizes(list)
    requires forall e :: e in list ==> e.size < x.size
    ensures AscendingSizes(list + [x])
  {
    var r := list + [x];
    forall i, j | 0 <= i < j < |r|
      ensures r[i].size < r[j].size
    {
      assert r[i] == list[i];
      assert list[i] in list;
    }
  }

  /** A list whose sizes strictly ascend holds at most one descriptor per size. */
  lemma {:induction false} CountSizeStrict(list: seq<IconInfo>, size: nat)
    requires AscendingSizes(list)
    ensures CountSize(list, size) == if HasSize(list, size) then 1 else 0
    decreases |list|
  {
    if |list| > 0 {
      CountSizeStrict(list[1..], size);
      if list[0].size == size {
        assert !HasSize(list[1..], size);
      }
    }
  }

  /** Sorting neither adds nor removes sizes. */
  lemma SortBySizeHasSize(list: seq<IconInfo>, size: nat)
    ensures HasSize(SortBySize(list), size) <==> HasSize(list, size)
  {
    SortBySizeCounts(list, size);
    HasSizeCount(list, size);
    HasSizeCount(SortBySize(list), size);
  }

  /** Lists with the same elements share membership. */
  lemma SameElements(a: seq<IconInfo>, b: seq<IconInfo>, e: IconInfo)
    requires multiset(a) == multiset(b)
    requires e in a
    ensures e in b
  {
    assert e in multiset(a);
  }

  /** Lists with the same elements have the same sizes. */
  lemma SameElementsHasSize(a: seq<IconInfo>, b: seq<IconInfo>, size: nat)
    requires multiset(a) == multiset(b)
    ensures HasSize(a, size) <==> HasSize(b, size)
  {
    if HasSize(a, size) {
      var i :| 0 <= i < |a| && a[i].size == size;
      SameElements(a, b, a[i]);
    }
    if HasSize(b, size) {
      var i :| 0 <= i < |b| && b[i].size == size;
      SameElements(b, a, b[i]);
    }
  }

  /** The last descriptor of a sorted list is one of largest size. */
  lemma SortedMax(sorted: seq<IconInfo>)
    requires SortedBySize(sorted)
    requires |sorted| > 0
    ensures forall e :: e in sorted ==> e.size <= sorted[|sorted| - 1].size
  {
    forall e | e in sorted
      ensures e.size <= sorted[|sorted| - 1].size
    {
      var j :| 0 <= j < |sorted| && sorted[j] == e;
      if j < |sorted| - 1 {
        assert sorted[j].size <= sorted[|sorted| - 1].size;
      }
    }
  }

  /** The last descriptor of the sorted list is one of largest size in the list. */
  lemma SortBySizeLast(list: seq<IconInfo>)
    requires |list| > 0
    ensures var sorted := SortBySize(list);
            && |sorted| == |list|
            && sorted[|sorted| - 1] in list
            && forall i :: 0 <= i < |list| ==> list[i].size <= sorted[|sorted| - 1].size
  {
    var sorted := SortBySize(list);
    var n := |sorted|;
    SameElements(sorted, list, sorted[n - 1]);
    SortedMax(sorted);
    forall i | 0 <= i < |list|
      ensures list[i].size <= sorted[n - 1].size
    {
      SameElements(list, sorted, list[i]);
    }
  }
}
