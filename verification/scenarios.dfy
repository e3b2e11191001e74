/**
  The conversion on the ICNS catalog for three extraction outcomes: every
  native size, only 512, nothing.
 */
module Scenarios {
  import opened Wrappers
  import opened Paths
  import opened Icons
  import opened Catalog
  import opened Select
  import opened Resize
  import opened Convert

  /** Every size an iconset can end up with: the auxiliary and the native ones, ascending. */
  const TargetSizes: seq<nat> := [16, 24, 32, 48, 64, 96, 128, 256, 512]

  /** The target sizes are the auxiliary and the native sizes. */
  lemma TargetSizesSplit()
    ensures forall size: nat :: size in TargetSizes <==> size in AuxSizes || size in Sizes()
    ensures forall size: nat :: size in TargetSizes ==> size <= 512
  {
  }

  /**
    `ConvertIcnsToPng` with iconutil: each target size up to the largest
    native size iconutil produced occurs exactly once, no other size occurs.
   */
  lemma IconutilOutcome(dir: string, names: seq<string>, store: ImageStore, out: seq<IconInfo>, m: nat)
    requires ConvertIcnsToPng(dir, Iconutil(Some(names)), store) == Success(out)
    requires LargestPresent(names, Sizes(), m)
    ensures SortedBySize(out)
    ensures forall size: nat :: CountSize(out, size) == if size in TargetSizes && size <= m then 1 else 0
  {
    DarwinOutcome(dir, names, store, Sizes(), out, m);
    TargetSizesSplit();
  }

  /** Whenever the 512 image is extracted, a successful conversion holds each target size once. */
  lemma FullIconset(dir: string, names: seq<string>, store: ImageStore, out: seq<IconInfo>)
    requires ConvertIcnsToPng(dir, Iconutil(Some(names)), store) == Success(out)
    requires Present(names, 512)
    ensures forall size: nat :: CountSize(out, size) == if size in TargetSizes then 1 else 0
  {
    var sizes := Sizes();
    assert sizes[|sizes| - 1] == 512;
    DarwinLastPresent(dir, names, sizes);
    IconutilOutcome(dir, names, store, out, 512);
    TargetSizesSplit();
  }

  /** All seven native sizes extracted: only the auxiliary sizes are queued and the source is the 512 image. */
  lemma AllNativePlan(dir: string, names: seq<string>)
    requires forall s :: s in Sizes() ==> IconFileName(s) in names
    ensures DarwinPlan(dir, names, Sizes()).sizeList == [24, 96]
    ensures DarwinPlan(dir, names, Sizes()).maxSize == 512
  {
    var sizes := Sizes();
    forall j | 0 <= j < |sizes|
      ensures Present(names, sizes[j])
    {
      assert sizes[j] in sizes;
    }
    DarwinAllPresent(dir, names, sizes);
  }

  /** All seven native sizes extracted: a successful conversion holds each of the nine target sizes once. */
  lemma AllNativePresent(dir: string, names: seq<string>, store: ImageStore, out: seq<IconInfo>)
    requires forall s :: s in Sizes() ==> IconFileName(s) in names
    requires ConvertIcnsToPng(dir, Iconutil(Some(names)), store) == Success(out)
    ensures forall size: nat :: CountSize(out, size) == if size in TargetSizes then 1 else 0
  {
    assert 512 in Sizes();
    FullIconset(dir, names, store, out);
  }

  /**
    Only the 512 image extracted: the six smaller native sizes are queued
    after the auxiliary sizes in catalog order, and the source is the 512 image.
   */
  lemma Only512Plan(dir: string)
    ensures DarwinPlan(dir, [IconFileName(512)], Sizes()).sizeList == [24, 96, 16, 32, 48, 64, 128, 256]
    ensures DarwinPlan(dir, [IconFileName(512)], Sizes()).maxSize == 512
  {
    var sizes := Sizes();
    DarwinOnlyLargest(dir, sizes);
    assert sizes[|sizes| - 1] == 512;
    assert AuxSizes + sizes[..|sizes| - 1] == [24, 96, 16, 32, 48, 64, 128, 256];
  }

  /** Only the 512 image extracted: a successful conversion again holds each target size once. */
  lemma Only512Present(dir: string, store: ImageStore, out: seq<IconInfo>)
    requires ConvertIcnsToPng(dir, Iconutil(Some([IconFileName(512)])), store) == Success(out)
    ensures forall size: nat :: CountSize(out, size) == if size in TargetSizes then 1 else 0
  {
    FullIconset(dir, [IconFileName(512)], store, out);
  }

  /**
    Nothing extracted. With iconutil there is no source, so the conversion
    tries to load the empty path; with the fallback decoder, taking the last
    of no descriptors is an index error.
   */
  lemma NothingExtracted(dir: string, store: ImageStore)
    requires "" !in store.decodable
    ensures ConvertIcnsToPng(dir, Iconutil(Some([])), store) == Failure(LoadFailed(""))
    ensures ConvertIcnsToPng(dir, OpenJpeg(Some([])), store) == Failure(IndexOutOfRange)
  {
    EmptyListing(dir, [], store, Sizes());
  }
}
