/**
  `ConvertIcnsToPng` end to end: plan with one of the two branches, derive the
  missing sizes from the source, merge and sort by size.
 */
module Convert {
  import opened Wrappers
  import opened Paths
  import opened Icons
  import opened Catalog
  import opened Select
  import opened Resize

  /**
    Which extraction branch runs and what its collaborator returned: iconutil
    followed by a listing of the iconset directory, or the fallback decoder's
    descriptors. `None` stands for a failure of the collaborator.
   */
  datatype Backend =
    | Iconutil(listing: Option<seq<string>>)
    | OpenJpeg(decoded: Option<seq<IconInfo>>)

  /** The plan of the branch that runs, or the failure that ends the conversion first. */
  function PlanFor(dir: string, backend: Backend, sizes: seq<nat>): (r: Result<Plan, ConvertError>)
    requires ValidCatalog(sizes)
    ensures r.Failure? <==>
              || (backend.Iconutil? && backend.listing.None?)
              || (backend.OpenJpeg? && (backend.decoded.None? || |backend.decoded.value| == 0))
    ensures backend == OpenJpeg(Some([])) ==> r == Failure(IndexOutOfRange)
    ensures r.Success? ==> |r.value.sizeList| >= |AuxSizes| && r.value.sizeList[..|AuxSizes|] == AuxSizes
  {
    match backend
    case Iconutil(None) => Failure(ExtractionFailed)
    case Iconutil(Some(names)) =>
      DarwinScanSizeList(dir, names, sizes, |sizes|);
      Success(DarwinPlan(dir, names, sizes))
    case OpenJpeg(None) => Failure(ExtractionFailed)
    case OpenJpeg(Some(decoded)) =>
      if |decoded| == 0 then Failure(IndexOutOfRange)
      else Success(FallbackPlan(decoded, sizes))
  }

  /**
    The conversion over a size catalog: the plan, then `multiResizeImage` on
    the plan's source, then the merged descriptors sorted by size. It fails
    exactly when planning fails, the source does not load, or a derived image
    cannot be saved; it never returns a partial list.
   */
  function Convert(dir: string, backend: Backend, store: ImageStore, sizes: seq<nat>): (r: Result<seq<IconInfo>, ConvertError>)
    requires ValidCatalog(sizes)
    ensures r.Success? ==> SortedBySize(r.value)
    ensures r.Failure? <==>
              || PlanFor(dir, backend, sizes).Failure?
              || (var p := PlanFor(dir, backend, sizes).value;
                  || p.maxPath !in store.decodable
                  || exists size :: size in p.sizeList && size <= p.maxSize && IconPath(dir, size) in store.unwritable)
  {
    match PlanFor(dir, backend, sizes)
    case Failure(e) => Failure(e)
    case Success(p) =>
      match MultiResizeImage(p.maxPath, dir, p.result, p.sizeList, p.maxSize, store)
      case Failure(e) => Failure(e)
      case Success(merged) => Success(SortBySize(merged))
  }

  /** `ConvertIcnsToPng`: the conversion over the ICNS catalog. */
  function ConvertIcnsToPng(dir: string, backend: Backend, store: ImageStore): (r: Result<seq<IconInfo>, ConvertError>)
    ensures r.Success? ==> SortedBySize(r.value)
    ensures backend == Iconutil(None) || backend == OpenJpeg(None) ==> r == Failure(ExtractionFailed)
    ensures backend == OpenJpeg(Some([])) ==> r == Failure(IndexOutOfRange)
  {
    Convert(dir, backend, store, Sizes())
  }

  /**
    An iconutil listing without any catalog image leaves no source: the
    conversion tries to load the empty path, and fails unless that loads.
   */
  lemma EmptyListing(dir: string, names: seq<string>, store: ImageStore, sizes: seq<nat>)
    requires ValidCatalog(sizes)
    requires forall s :: s in sizes ==> !Present(names, s)
    requires "" !in store.decodable
    ensures Convert(dir, Iconutil(Some(names)), store, sizes) == Failure(LoadFailed(""))
  {
    DarwinSource(dir, names, sizes);
    DarwinScanSizeList(dir, names, sizes, |sizes|);
    var p := PlanFor(dir, Iconutil(Some(names)), sizes).value;
    assert p.maxPath == "";
  }

  /** The merged list before sorting: existing descriptors, then derived ones. */
  lemma MergedCounts(dir: string, p: Plan, store: ImageStore, merged: seq<IconInfo>, size: nat)
    requires MultiResizeImage(p.maxPath, dir, p.result, p.sizeList, p.maxSize, store) == Success(merged)
    ensures CountSize(SortBySize(merged), size) ==
              CountSize(p.result, size) + (if size <= p.maxSize then multiset(p.sizeList)[size] else 0)
    ensures forall e :: e in SortBySize(merged) ==> e in p.result || (e.file == IconPath(dir, e.size) && e.size <= p.maxSize)
  {
    var n := |p.result|;
    assert merged == p.result + merged[n..];
    CountSizeAppend(p.result, merged[n..], size);
    SortBySizeCounts(merged, size);
    forall e | e in SortBySize(merged)
      ensures e in p.result || (e.file == IconPath(dir, e.size) && e.size <= p.maxSize)
    {
      assert e in multiset(merged);
      assert e in p.result || e in merged[n..];
    }
  }

  /** A successful conversion is a plan, a successful resize, and a sort. */
  lemma ConvertSteps(dir: string, backend: Backend, store: ImageStore, sizes: seq<nat>, out: seq<IconInfo>)
    returns (p: Plan, merged: seq<IconInfo>)
    requires ValidCatalog(sizes)
    requires Convert(dir, backend, store, sizes) == Success(out)
    ensures PlanFor(dir, backend, sizes) == Success(p)
    ensures MultiResizeImage(p.maxPath, dir, p.result, p.sizeList, p.maxSize, store) == Success(merged)
    ensures out == SortBySize(merged)
  {
    p := PlanFor(dir, backend, sizes).value;
    merged := MultiResizeImage(p.maxPath, dir, p.result, p.sizeList, p.maxSize, store).value;
  }

  /** How often each size occurs in a size list made of the auxiliary sizes and ascending gaps. */
  lemma SizeListMultiplicity(gaps: seq<nat>, size: nat)
    requires StrictlyAscending(gaps)
    ensures multiset(AuxSizes + gaps)[size] ==
              (if size in AuxSizes then 1 else 0) + (if size in gaps then 1 else 0)
  {
    StrictlyAscendingMultiplicity(gaps, size);
    assert multiset(AuxSizes)[size] == if size in AuxSizes then 1 else 0;
  }

  /** In the iconutil plan each present catalog size has one existing image, other sizes none. */
  lemma DarwinResultCount(dir: string, names: seq<string>, sizes: seq<nat>, size: nat)
    requires ValidCatalog(sizes)
    ensures CountSize(DarwinPlan(dir, names, sizes).result, size) ==
              if size in sizes && Present(names, size) then 1 else 0
  {
    var p := DarwinPlan(dir, names, sizes);
    HasSizeCount(p.result, size);
    if size in sizes {
      DarwinPartition(dir, names, sizes, size);
    } else if |p.result| > 0 {
      DarwinScanResult(dir, names, sizes, |sizes|);
      forall i | 0 <= i < |p.result|
        ensures p.result[i].size != size
      {
        assert p.result[i] in p.result;
      }
    }
  }

  /** In the iconutil plan each auxiliary size and each absent catalog size is queued once. */
  lemma DarwinSizeListCount(dir: string, names: seq<string>, sizes: seq<nat>, size: nat)
    requires ValidCatalog(sizes)
    ensures multiset(DarwinPlan(dir, names, sizes).sizeList)[size] ==
              (if size in AuxSizes then 1 else 0) + (if size in sizes && !Present(names, size) then 1 else 0)
  {
    DarwinScanSizeList(dir, names, sizes, |sizes|);
    var gaps := Gaps(Listed(names), sizes, |sizes|);
    SizeListMultiplicity(gaps, size);
    assert Has(Listed(names), size) == Present(names, size);
  }

  /** The iconutil branch, one size at a time. */
  lemma DarwinCount(dir: string, names: seq<string>, store: ImageStore, sizes: seq<nat>,
                    out: seq<IconInfo>, m: nat, size: nat)
    requires ValidCatalog(sizes)
    requires Convert(dir, Iconutil(Some(names)), store, sizes) == Success(out)
    requires LargestPresent(names, sizes, m)
    ensures CountSize(out, size) == if (size in AuxSizes || size in sizes) && size <= m then 1 else 0
  {
    var p, merged := ConvertSteps(dir, Iconutil(Some(names)), store, sizes, out);
    assert p == DarwinPlan(dir, names, sizes);
    MergedCounts(dir, p, store, merged, size);
    DarwinSource(dir, names, sizes);
    LargestPresentUnique(names, sizes, m, p.maxSize);
    DarwinResultCount(dir, names, sizes, size);
    DarwinSizeListCount(dir, names, sizes, size);
    assert size in AuxSizes ==> size !in sizes;
    assert size in sizes && Present(names, size) ==> size <= m;
  }

  /**
    The iconutil branch on success: sorted by size, and every auxiliary or
    catalog size up to the largest catalog size present occurs exactly once,
    no other size occurs (in particular nothing above the source size), and
    every image sits at its iconset path.
   */
  lemma DarwinOutcome(dir: string, names: seq<string>, store: ImageStore, sizes: seq<nat>,
                      out: seq<IconInfo>, m: nat)
    requires ValidCatalog(sizes)
    requires Convert(dir, Iconutil(Some(names)), store, sizes) == Success(out)
    requires LargestPresent(names, sizes, m)
    ensures SortedBySize(out)
    ensures forall size: nat :: CountSize(out, size) == if (size in AuxSizes || size in sizes) && size <= m then 1 else 0
    ensures forall e :: e in out ==> e.file == IconPath(dir, e.size)
  {
    forall size: nat
      ensures CountSize(out, size) == if (size in AuxSizes || size in sizes) && size <= m then 1 else 0
    {
      DarwinCount(dir, names, store, sizes, out, m, size);
    }
    var p, merged := ConvertSteps(dir, Iconutil(Some(names)), store, sizes, out);
    assert p == DarwinPlan(dir, names, sizes);
    MergedCounts(dir, p, store, merged, 0);
    if |p.result| > 0 {
      DarwinScanResult(dir, names, sizes, |sizes|);
    }
  }

  /** `size` is the largest size among the descriptors. */
  ghost predicate LargestDecoded(decoded: seq<IconInfo>, size: nat) {
    && (exists i :: 0 <= i < |decoded| && decoded[i].size == size)
    && forall i :: 0 <= i < |decoded| ==> decoded[i].size <= size
  }

  /** The fallback plan's source is the largest decoded descriptor. */
  lemma FallbackSource(decoded: seq<IconInfo>, sizes: seq<nat>, m: nat)
    requires ValidCatalog(sizes)
    requires |decoded| > 0
    requires LargestDecoded(decoded, m)
    ensures FallbackPlan(decoded, sizes).maxSize == m
  {
    var p := FallbackPlan(decoded, sizes);
    var i :| 0 <= i < |decoded| && decoded[i] == IconInfo(p.maxPath, p.maxSize);
  }

  /** The fallback branch, one size at a time. */
  lemma FallbackCount(dir: string, decoded: seq<IconInfo>, store: ImageStore, sizes: seq<nat>,
                      out: seq<IconInfo>, m: nat, size: nat)
    requires ValidCatalog(sizes)
    requires Convert(dir, OpenJpeg(Some(decoded)), store, sizes) == Success(out)
    requires LargestDecoded(decoded, m)
    ensures CountSize(out, size) ==
              CountSize(decoded, size)
              + (if size <= m && (size in AuxSizes || (size in sizes && CountSize(decoded, size) == 0)) then 1 else 0)
  {
    var p, merged := ConvertSteps(dir, OpenJpeg(Some(decoded)), store, sizes, out);
    assert p == FallbackPlan(decoded, sizes);
    MergedCounts(dir, p, store, merged, size);
    FallbackSource(decoded, sizes, m);
    assert p.result == SortBySize(decoded);
    SortBySizeCounts(decoded, size);
    HasSizeCount(decoded, size);
    var gaps := p.sizeList[|AuxSizes|..];
    assert p.sizeList == AuxSizes + gaps;
    SizeListMultiplicity(gaps, size);
    assert size in AuxSizes ==> size !in sizes;
  }

  /** The fallback branch on success keeps every decoded descriptor. */
  lemma FallbackKeeps(dir: string, decoded: seq<IconInfo>, store: ImageStore, sizes: seq<nat>, out: seq<IconInfo>)
    requires ValidCatalog(sizes)
    requires Convert(dir, OpenJpeg(Some(decoded)), store, sizes) == Success(out)
    ensures forall e :: e in decoded ==> e in out
  {
    var p, merged := ConvertSteps(dir, OpenJpeg(Some(decoded)), store, sizes, out);
    var n := |p.result|;
    assert merged[..n] == p.result;
    assert multiset(p.result) == multiset(decoded);
    forall e | e in decoded
      ensures e in out
    {
      assert e in multiset(p.result);
      var i :| 0 <= i < n && p.result[i] == e;
      assert merged[i] == e;
      assert e in multiset(merged);
    }
  }

  /** The fallback branch on success holds nothing larger than the largest decoded size. */
  lemma FallbackBounded(dir: string, decoded: seq<IconInfo>, store: ImageStore, sizes: seq<nat>,
                        out: seq<IconInfo>, m: nat)
    requires ValidCatalog(sizes)
    requires Convert(dir, OpenJpeg(Some(decoded)), store, sizes) == Success(out)
    requires LargestDecoded(decoded, m)
    ensures forall e :: e in out ==> e.size <= m
  {
    var p, merged := ConvertSteps(dir, OpenJpeg(Some(decoded)), store, sizes, out);
    assert p == FallbackPlan(decoded, sizes);
    MergedCounts(dir, p, store, merged, 0);
    FallbackSource(decoded, sizes, m);
    forall e | e in out
      ensures e.size <= m
    {
      if e in p.result {
        assert e in multiset(decoded);
      }
    }
  }

  /**
    The fallback branch on success: sorted by size; every decoded descriptor
    is kept; an auxiliary size up to the source size, and a catalog size up to
    the source size that the decoder did not produce, gain exactly one derived
    descriptor; nothing is larger than the largest decoded size.
   */
  lemma FallbackOutcome(dir: string, decoded: seq<IconInfo>, store: ImageStore, sizes: seq<nat>,
                        out: seq<IconInfo>, m: nat)
    requires ValidCatalog(sizes)
    requires Convert(dir, OpenJpeg(Some(decoded)), store, sizes) == Success(out)
    requires LargestDecoded(decoded, m)
    ensures SortedBySize(out)
    ensures forall size: nat :: CountSize(out, size) ==
              CountSize(decoded, size)
              + (if size <= m && (size in AuxSizes || (size in sizes && CountSize(decoded, size) == 0)) then 1 else 0)
    ensures forall e :: e in decoded ==> e in out
    ensures forall e :: e in out ==> e.size <= m
  {
    forall size: nat
      ensures CountSize(out, size) ==
                CountSize(decoded, size)
                + (if size <= m && (size in AuxSizes || (size in sizes && CountSize(decoded, size) == 0)) then 1 else 0)
    {
      FallbackCount(dir, decoded, store, sizes, out, m, size);
    }
    FallbackKeeps(dir, decoded, store, sizes, out);
    FallbackBounded(dir, decoded, store, sizes, out, m);
  }
}
