/**
  The descriptor part of `multiResizeImage`: one resize job per queued size,
  except that a size larger than the source is skipped (no upsampling). A
  job's descriptor is registered as soon as the job is created; the resize
  and save run afterwards and any failure fails the whole call.
 */
module Resize {
  import opened Wrappers
  import opened Paths
  import opened Icons

  /**
    What the image codec does with paths: `LoadImage` succeeds exactly on the
    `decodable` paths, `SaveImage` fails exactly on the `unwritable` ones.
   */
  datatype ImageStore = ImageStore(decodable: set<string>, unwritable: set<string>)

  /**
    The descriptors the job-creation callback appends, one per size of
    `sizeList` that is at most `maxSize`, each at the path the template gives.
   */
  function Derive(dir: string, sizeList: seq<nat>, maxSize: nat): (derived: seq<IconInfo>)
    ensures forall e :: e in derived ==> e.file == IconPath(dir, e.size) && e.size <= maxSize && e.size in sizeList
    ensures forall size :: size in sizeList && size <= maxSize ==> IconInfo(IconPath(dir, size), size) in derived
    ensures forall size: nat :: CountSize(derived, size) == if size <= maxSize then multiset(sizeList)[size] else 0
  {
    if |sizeList| == 0 then []
    else
      assert sizeList == [sizeList[0]] + sizeList[1..];
      var size := sizeList[0];
      var rest := Derive(dir, sizeList[1..], maxSize);
      if size > maxSize then rest
      else
        var derived := [IconInfo(IconPath(dir, size), size)] + rest;
        assert derived[1..] == rest;
        derived
  }

  /**
    `multiResizeImage`: an empty size list succeeds at once without loading
    the source. Otherwise the source must load, and the call fails if any
    created task fails to save; on success the existing descriptors are kept
    as they are and followed by the derived ones.
   */
  function MultiResizeImage(inFile: string, dir: string, result: seq<IconInfo>, sizeList: seq<nat>,
                            maxSize: nat, store: ImageStore): (r: Result<seq<IconInfo>, ConvertError>)
    ensures |sizeList| == 0 ==> r == Success(result)
    ensures |sizeList| > 0 && inFile !in store.decodable ==> r == Failure(LoadFailed(inFile))
    ensures r.Failure? <==>
              && |sizeList| > 0
              && (|| inFile !in store.decodable
                  || exists size :: size in sizeList && size <= maxSize && IconPath(dir, size) in store.unwritable)
    ensures r.Success? ==>
              && |r.value| >= |result|
              && r.value[..|result|] == result
              && (forall e :: e in r.value[|result|..] ==> e.file == IconPath(dir, e.size) && e.size <= maxSize)
              && (forall size: nat :: CountSize(r.value[|result|..], size) == if size <= maxSize then multiset(sizeList)[size] else 0)
  {
    if |sizeList| == 0 then Success(result)
    else if inFile !in store.decodable then Failure(LoadFailed(inFile))
    else
      var derived := Derive(dir, sizeList, maxSize);
      if exists e :: e in derived && e.file in store.unwritable then Failure(SaveFailed)
      else
        assert (result + derived)[..|result|] == result;
        assert (result + derived)[|result|..] == derived;
        Success(result + derived)
  }

  /** Sizes all larger than the source derive nothing. */
  lemma {:induction false} DeriveNone(dir: string, sizeList: seq<nat>, maxSize: nat)
    requires forall i :: 0 <= i < |sizeList| ==> sizeList[i] > maxSize
    ensures Derive(dir, sizeList, maxSize) == []
  {
    if |sizeList| > 0 {
      DeriveNone(dir, sizeList[1..], maxSize);
    }
  }

  /**
    No upsampling: when every queued size exceeds the source size and the
    source loads, nothing is derived and nothing fails.
   */
  lemma NoUpsampling(inFile: string, dir: string, result: seq<IconInfo>, sizeList: seq<nat>,
                     maxSize: nat, store: ImageStore)
    requires inFile in store.decodable
    requires forall i :: 0 <= i < |sizeList| ==> sizeList[i] > maxSize
    ensures MultiResizeImage(inFile, dir, result, sizeList, maxSize, store) == Success(result)
  {
    DeriveNone(dir, sizeList, maxSize);
    assert result + [] == result;
  }
}
