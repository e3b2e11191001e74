/**
  The planning part of `ConvertIcnsToPng`: which images already exist, which
  sizes must still be derived (the size list) and which existing image is the
  resampling source. There are two branches: the iconutil branch, which
  inspects a directory listing, and the fallback branch, which takes the
  descriptors of the fallback decoder.
 */
module Select {
  import opened Paths
  import opened Icons
  import opened Catalog

  /**
    The state the planning code builds: the existing images (`result`), the
    sizes to derive (`sizeList`), and the path and size of the source image.
   */
  datatype Plan = Plan(result: seq<IconInfo>, sizeList: seq<nat>, maxPath: string, maxSize: nat)

  /** Before the walk: no image yet, the auxiliary sizes queued, no source (`""`, 0). */
  const InitialPlan: Plan := Plan([], AuxSizes, "", 0)

  /** `size` is the largest catalog size present in the listing, or 0 if none is. */
  ghost predicate LargestPresent(names: seq<string>, sizes: seq<nat>, size: nat) {
    || (size == 0 && forall s :: s in sizes ==> !Present(names, s))
    || (&& size in sizes
        && Present(names, size)
        && forall s :: s in sizes && Present(names, s) ==> s <= size)
  }

  /** One iteration of the iconutil branch's walk over the catalog. */
  function DarwinStep(dir: string, names: seq<string>, acc: Plan, size: nat): Plan {
    var fileName := IconFileName(size);
    if Contains(names, fileName) then
      var path := JoinPath(dir, fileName);
      Plan(acc.result + [IconInfo(path, size)], acc.sizeList, path, size)
    else
      acc.(sizeList := acc.sizeList + [size])
  }

  /** The plan after the first `k` iterations of the walk over the catalog's `sizes`. */
  function DarwinScan(dir: string, names: seq<string>, sizes: seq<nat>, k: nat): Plan
    requires k <= |sizes|
  {
    if k == 0 then InitialPlan
    else DarwinStep(dir, names, DarwinScan(dir, names, sizes, k - 1), sizes[k - 1])
  }

  /**
    After `k` iterations the size list is the auxiliary sizes followed by the
    absent sizes among the first `k`, in catalog order.
   */
  lemma {:induction false} DarwinScanSizeList(dir: string, names: seq<string>, sizes: seq<nat>, k: nat)
    requires k <= |sizes|
    requires StrictlyAscending(sizes)
    ensures DarwinScan(dir, names, sizes, k).sizeList == AuxSizes + Gaps(Listed(names), sizes, k)
  {
    if k > 0 {
      DarwinScanSizeList(dir, names, sizes, k - 1);
      var size := sizes[k - 1];
      var prefix := Gaps(Listed(names), sizes, k - 1);
      DarwinStepEffect(dir, names, DarwinScan(dir, names, sizes, k - 1), size);
      GapsStep(Listed(names), sizes, k);
      if !Present(names, size) {
        assert AuxSizes + prefix + [size] == AuxSizes + (prefix + [size]);
      }
    }
  }

  /** What one iteration does to the plan. */
  lemma DarwinStepEffect(dir: string, names: seq<string>, acc: Plan, size: nat)
    ensures var p := DarwinStep(dir, names, acc, size);
            if Present(names, size) then
              p == Plan(acc.result + [IconInfo(IconPath(dir, size), size)], acc.sizeList, IconPath(dir, size), size)
            else
              p == acc.(sizeList := acc.sizeList + [size])
  {
  }

  /** Every existing image is a present size no larger than `bound`, at its iconset path. */
  ghost predicate ExistingImages(dir: string, names: seq<string>, sizes: seq<nat>, bound: nat, result: seq<IconInfo>) {
    forall e :: e in result ==>
      && e.file == IconPath(dir, e.size)
      && e.size in sizes
      && e.size <= bound
      && Present(names, e.size)
  }

  /**
    After `k` iterations every existing image is a present size among the
    first `k`, at its iconset path, and their sizes strictly ascend.
   */
  lemma {:induction false} DarwinScanResult(dir: string, names: seq<string>, sizes: seq<nat>, k: nat)
    requires 0 < k <= |sizes|
    requires StrictlyAscending(sizes)
    ensures ExistingImages(dir, names, sizes, sizes[k - 1], DarwinScan(dir, names, sizes, k).result)
    ensures AscendingSizes(DarwinScan(dir, names, sizes, k).result)
  {
    var size := sizes[k - 1];
    var acc := DarwinScan(dir, names, sizes, k - 1);
    var r := DarwinScan(dir, names, sizes, k).result;
    DarwinStepEffect(dir, names, acc, size);
    if k == 1 {
      assert acc.result == [];
    } else {
      DarwinScanResult(dir, names, sizes, k - 1);
      assert sizes[k - 2] < size;
    }
    assert forall e :: e in acc.result ==> e.size < size;
    if Present(names, size) {
      AppendAscending(acc.result, IconInfo(IconPath(dir, size), size));
    }
  }

  /** After `k` iterations every present size among the first `k` has an existing image. */
  lemma {:induction false} DarwinScanComplete(dir: string, names: seq<string>, sizes: seq<nat>, k: nat)
    requires k <= |sizes|
    ensures forall j :: 0 <= j < k && Present(names, sizes[j]) ==> HasSize(DarwinScan(dir, names, sizes, k).result, sizes[j])
  {
    if k > 0 {
      DarwinScanComplete(dir, names, sizes, k - 1);
      var acc := DarwinScan(dir, names, sizes, k - 1).result;
      var r := DarwinScan(dir, names, sizes, k).result;
      var size := sizes[k - 1];
      if Present(names, size) {
        assert r == acc + [IconInfo(IconPath(dir, size), size)];
        assert r[|acc|].size == size;
        forall j | 0 <= j < k - 1 && Present(names, sizes[j])
          ensures HasSize(r, sizes[j])
        {
          var i :| 0 <= i < |acc| && acc[i].size == sizes[j];
          assert r[i] == acc[i];
        }
      } else {
        assert r == acc;
      }
    }
  }

  /**
    After `k` iterations the source is the last, hence largest, present size
    among the first `k`, or no source (`""`, 0) if none is.
   */
  lemma {:induction false} DarwinScanSource(dir: string, names: seq<string>, sizes: seq<nat>, k: nat)
    requires k <= |sizes|
    requires StrictlyAscending(sizes)
    requires forall i :: 0 <= i < |sizes| ==> sizes[i] > 0
    ensures var p := DarwinScan(dir, names, sizes, k);
            && (forall j :: 0 <= j < k && Present(names, sizes[j]) ==> sizes[j] <= p.maxSize)
            && (p.maxSize == 0 ==> p.maxPath == "" && forall j :: 0 <= j < k ==> !Present(names, sizes[j]))
            && (p.maxSize != 0 ==>
                  && p.maxSize in sizes
                  && Present(names, p.maxSize)
                  && p.maxPath == IconPath(dir, p.maxSize))
  {
    if k > 0 {
      DarwinScanSource(dir, names, sizes, k - 1);
      var size := sizes[k - 1];
      var acc := DarwinScan(dir, names, sizes, k - 1);
      var p := DarwinScan(dir, names, sizes, k);
      if Present(names, size) {
        assert p.maxSize == size && p.maxPath == IconPath(dir, size);
      } else {
        assert p == acc.(sizeList := acc.sizeList + [size]);
      }
    }
  }

  /** The iconutil branch's plan: the whole catalog walked. */
  function DarwinPlan(dir: string, names: seq<string>, sizes: seq<nat>): Plan
    requires ValidCatalog(sizes)
  {
    DarwinScan(dir, names, sizes, |sizes|)
  }

  /**
    In the iconutil branch every catalog size is either an existing image or
    queued for derivation, never both, and there is at most one existing
    image per size.
   */
  lemma DarwinPartition(dir: string, names: seq<string>, sizes: seq<nat>, size: nat)
    requires ValidCatalog(sizes)
    requires size in sizes
    ensures var p := DarwinPlan(dir, names, sizes);
            && (HasSize(p.result, size) <==> size !in p.sizeList)
            && (HasSize(p.result, size) <==> Present(names, size))
            && CountSize(p.result, size) <= 1
  {
    var p := DarwinScan(dir, names, sizes, |sizes|);
    assert DarwinPlan(dir, names, sizes) == p;
    if |p.result| > 0 {
      DarwinScanResult(dir, names, sizes, |sizes|);
    }
    DarwinScanComplete(dir, names, sizes, |sizes|);
    DarwinScanSizeList(dir, names, sizes, |sizes|);
    var gaps := Gaps(Listed(names), sizes, |sizes|);
    var j :| 0 <= j < |sizes| && sizes[j] == size;
    CountSizeStrict(p.result, size);
    if HasSize(p.result, size) {
      var i :| 0 <= i < |p.result| && p.result[i].size == size;
      assert Present(names, size);
    }
    assert Has(Listed(names), size) == Present(names, size);
    assert size !in AuxSizes;
    assert size in p.sizeList <==> size in gaps;
  }

  /** The iconutil branch's source size is the largest catalog size present, or 0. */
  lemma DarwinSource(dir: string, names: seq<string>, sizes: seq<nat>)
    requires ValidCatalog(sizes)
    ensures var p := DarwinPlan(dir, names, sizes);
            && LargestPresent(names, sizes, p.maxSize)
            && (p.maxSize == 0 ==> p.maxPath == "")
            && (p.maxSize != 0 ==> p.maxPath == IconPath(dir, p.maxSize))
  {
    DarwinScanSource(dir, names, sizes, |sizes|);
  }

  /** Only one size can be the largest present one. */
  lemma LargestPresentUnique(names: seq<string>, sizes: seq<nat>, a: nat, b: nat)
    requires LargestPresent(names, sizes, a) && LargestPresent(names, sizes, b)
    ensures a == b
  {
  }

  /** When the walk's last size is present, it becomes the source. */
  lemma DarwinLastPresent(dir: string, names: seq<string>, sizes: seq<nat>)
    requires ValidCatalog(sizes)
    requires |sizes| > 0
    requires Present(names, sizes[|sizes| - 1])
    ensures DarwinPlan(dir, names, sizes).maxSize == sizes[|sizes| - 1]
    ensures LargestPresent(names, sizes, sizes[|sizes| - 1])
  {
    var n := |sizes|;
    var acc := DarwinScan(dir, names, sizes, n - 1);
    assert DarwinPlan(dir, names, sizes) == DarwinStep(dir, names, acc, sizes[n - 1]);
    forall s | s in sizes && Present(names, s)
      ensures s <= sizes[n - 1]
    {
      var j :| 0 <= j < n && sizes[j] == s;
      if j < n - 1 {
        assert sizes[j] < sizes[n - 1];
      }
    }
  }

  /** A listing that holds every catalog size: only the auxiliary sizes are queued and the largest size is the source. */
  lemma DarwinAllPresent(dir: string, names: seq<string>, sizes: seq<nat>)
    requires ValidCatalog(sizes)
    requires |sizes| > 0
    requires forall j :: 0 <= j < |sizes| ==> Present(names, sizes[j])
    ensures DarwinPlan(dir, names, sizes).sizeList == AuxSizes
    ensures DarwinPlan(dir, names, sizes).maxSize == sizes[|sizes| - 1]
  {
    forall j | 0 <= j < |sizes|
      ensures Has(Listed(names), sizes[j])
    {
    }
    GapsAllPresent(Listed(names), sizes, |sizes|);
    DarwinScanSizeList(dir, names, sizes, |sizes|);
    assert AuxSizes + [] == AuxSizes;
    DarwinLastPresent(dir, names, sizes);
  }

  /** A listing of the single image of size `b` holds the image of size `a` exactly when `a == b`. */
  lemma PresentSingle(a: nat, b: nat)
    ensures Present([IconFileName(b)], a) <==> a == b
  {
    if Present([IconFileName(b)], a) {
      IconFileNameInjective(a, b);
    }
  }

  /** A listing of only the last size holds none of the earlier sizes. */
  lemma OnlyLargestAbsent(sizes: seq<nat>)
    requires StrictlyAscending(sizes)
    requires |sizes| > 0
    ensures forall j :: 0 <= j < |sizes| - 1 ==> !Has(Listed([IconFileName(sizes[|sizes| - 1])]), sizes[j])
  {
    var largest := sizes[|sizes| - 1];
    forall j | 0 <= j < |sizes| - 1
      ensures !Present([IconFileName(largest)], sizes[j])
    {
      assert sizes[j] < largest;
      PresentSingle(sizes[j], largest);
    }
  }

  /** With a listing of only the last size, every earlier size is a gap. */
  lemma OnlyLargestGaps(sizes: seq<nat>)
    requires StrictlyAscending(sizes)
    requires |sizes| > 0
    ensures Gaps(Listed([IconFileName(sizes[|sizes| - 1])]), sizes, |sizes|) == sizes[..|sizes| - 1]
  {
    var n := |sizes|;
    var largest := sizes[n - 1];
    var presence := Listed([IconFileName(largest)]);
    OnlyLargestAbsent(sizes);
    PresentSingle(largest, largest);
    GapsNonePresent(presence, sizes, n - 1);
    GapsStep(presence, sizes, n);
  }

  /** A listing that holds only the largest catalog size: every smaller size is queued, in catalog order. */
  lemma DarwinOnlyLargest(dir: string, sizes: seq<nat>)
    requires ValidCatalog(sizes)
    requires |sizes| > 0
    ensures DarwinPlan(dir, [IconFileName(sizes[|sizes| - 1])], sizes).sizeList == AuxSizes + sizes[..|sizes| - 1]
    ensures DarwinPlan(dir, [IconFileName(sizes[|sizes| - 1])], sizes).maxSize == sizes[|sizes| - 1]
  {
    var largest := sizes[|sizes| - 1];
    OnlyLargestGaps(sizes);
    DarwinScanSizeList(dir, [IconFileName(largest)], sizes, |sizes|);
    PresentSingle(largest, largest);
    DarwinLastPresent(dir, [IconFileName(largest)], sizes);
  }

  /**
    The walk reads the listing only through membership: listings with the
    same file names, in whatever order and with whatever repetitions, give
    the same plan.
   */
  lemma {:induction false} DarwinScanListingOrder(dir: string, a: seq<string>, b: seq<string>, sizes: seq<nat>, k: nat)
    requires k <= |sizes|
    requires forall name :: name in a <==> name in b
    ensures DarwinScan(dir, a, sizes, k) == DarwinScan(dir, b, sizes, k)
  {
    if k > 0 {
      DarwinScanListingOrder(dir, a, b, sizes, k - 1);
      assert Present(a, sizes[k - 1]) == Present(b, sizes[k - 1]);
    }
  }

  /**
    The fallback branch's plan: the decoder's descriptors sorted by size, the
    catalog sizes none of them has queued after the auxiliary sizes, and the
    last descriptor of the sorted list as the source. Taking the last element
    of an empty list is an index error, hence the precondition.
   */
  function FallbackPlan(decoded: seq<IconInfo>, sizes: seq<nat>): (p: Plan)
    requires ValidCatalog(sizes)
    requires |decoded| > 0
    ensures SortedBySize(p.result)
    ensures multiset(p.result) == multiset(decoded)
    ensures |p.sizeList| >= |AuxSizes| && p.sizeList[..|AuxSizes|] == AuxSizes
    ensures StrictlyAscending(p.sizeList[|AuxSizes|..])
    ensures forall s :: s in p.sizeList[|AuxSizes|..] ==> s in sizes && !HasSize(decoded, s)
    ensures forall s :: s in sizes && !HasSize(decoded, s) ==> s in p.sizeList[|AuxSizes|..]
    ensures IconInfo(p.maxPath, p.maxSize) in decoded
    ensures forall i :: 0 <= i < |decoded| ==> decoded[i].size <= p.maxSize
  {
    var sorted := SortBySize(decoded);
    var gaps := Gaps(Decoded(sorted), sizes, |sizes|);
    SortBySizeLast(decoded);
    var last := sorted[|sorted| - 1];
    forall s
      ensures Has(Decoded(sorted), s) == HasSize(decoded, s)
    {
      SortBySizeHasSize(decoded, s);
    }
    assert (AuxSizes + gaps)[|AuxSizes|..] == gaps;
    Plan(sorted, AuxSizes + gaps, last.file, last.size)
  }

  /**
    The fallback plan does not depend on the order in which the decoder
    delivers its descriptors: the same descriptors in any order give the
    same size list and the same source size. The source path can differ when
    several descriptors share the largest size, as the sort is not stable.
   */
  lemma FallbackPlanOrder(a: seq<IconInfo>, b: seq<IconInfo>, sizes: seq<nat>)
    requires ValidCatalog(sizes)
    requires |a| > 0
    requires multiset(a) == multiset(b)
    ensures |b| > 0
    ensures FallbackPlan(a, sizes).sizeList == FallbackPlan(b, sizes).sizeList
    ensures FallbackPlan(a, sizes).maxSize == FallbackPlan(b, sizes).maxSize
  {
    assert a[0] in multiset(b);
    var pa := FallbackPlan(a, sizes);
    var pb := FallbackPlan(b, sizes);
    forall j | 0 <= j < |sizes|
      ensures Has(Decoded(SortBySize(a)), sizes[j]) <==> Has(Decoded(SortBySize(b)), sizes[j])
    {
      SortBySizeHasSize(a, sizes[j]);
      SortBySizeHasSize(b, sizes[j]);
      SameElementsHasSize(a, b, sizes[j]);
    }
    GapsAgree(Decoded(SortBySize(a)), Decoded(SortBySize(b)), sizes, |sizes|);
    var ea := IconInfo(pa.maxPath, pa.maxSize);
    var eb := IconInfo(pb.maxPath, pb.maxSize);
    assert ea in multiset(b);
    assert eb in multiset(a);
    var i :| 0 <= i < |b| && b[i] == ea;
    var j :| 0 <= j < |a| && a[j] == eb;
  }
}
