/**
  The native ICNS sizes (`icnsTypeToSize`), the auxiliary sizes every iconset
  also wants, and the list of catalog sizes still to be derived.
 */
module Catalog {
  import opened Paths
  import opened Icons

  /** `Icns2PngMapping{Id, Size}`: an ICNS image type and its pixel size. */
  datatype Icns2PngMapping = Icns2PngMapping(id: string, size: nat)

  /** ICNS type codes of the 256 and 512 pixel images. */
  const ICNS_256: string := "ic08"
  const ICNS_512: string := "ic09"

  /** The native catalog, listed by ascending size. */
  const IcnsTypeToSize: seq<Icns2PngMapping> := [
    Icns2PngMapping("is32", 16),
    Icns2PngMapping("il32", 32),
    Icns2PngMapping("ih32", 48),
    Icns2PngMapping("icp6", 64),
    Icns2PngMapping("it32", 128),
    Icns2PngMapping(ICNS_256, 256),
    Icns2PngMapping(ICNS_512, 512)
  ]

  /** The sizes the size list starts with before any catalog gap is added. */
  const AuxSizes: seq<nat> := [24, 96]

  predicate StrictlyAscending(s: seq<nat>) {
    forall i, j :: 0 <= i < j < |s| ==> s[i] < s[j]
  }

  /**
    What the planning code relies on in a size catalog: sizes strictly ascend
    (so the last match of a walk is the largest one), are positive, and are
    never auxiliary sizes.
   */
  predicate ValidCatalog(sizes: seq<nat>) {
    && StrictlyAscending(sizes)
    && (forall i :: 0 <= i < |sizes| ==> sizes[i] > 0)
    && (forall i :: 0 <= i < |sizes| ==> sizes[i] !in AuxSizes)
  }

  /** The catalog's sizes in catalog order; they form a valid catalog. */
  function Sizes(): (r: seq<nat>)
    ensures |r| == |IcnsTypeToSize|
    ensures forall i :: 0 <= i < |r| ==> r[i] == IcnsTypeToSize[i].size
    ensures r == [16, 32, 48, 64, 128, 256, 512]
    ensures ValidCatalog(r)
  {
    seq(|IcnsTypeToSize|, i requires 0 <= i < |IcnsTypeToSize| => IcnsTypeToSize[i].size)
  }

  /** The listing of the iconset directory holds the image of this size. */
  predicate Present(names: seq<string>, size: nat) {
    Contains(names, IconFileName(size))
  }

  /** What a branch already has: file names listed by iconutil, or the decoder's descriptors. */
  datatype Presence = Listed(names: seq<string>) | Decoded(icons: seq<IconInfo>)

  /** The branch already has an image of this size. */
  predicate Has(presence: Presence, size: nat) {
    match presence
    case Listed(names) => Present(names, size)
    case Decoded(icons) => HasSize(icons, size)
  }

  /**
    The sizes that the first `k` steps of a walk over the ascending `sizes`
    append to the size list because `presence` lacks them: exactly the
    absent ones among the first `k`, in ascending order.
   */
  function Gaps(presence: Presence, sizes: seq<nat>, k: nat): (r: seq<nat>)
    requires k <= |sizes|
    requires StrictlyAscending(sizes)
    ensures StrictlyAscending(r)
    ensures forall x :: x in r ==> x in sizes && 0 < k && x <= sizes[k - 1] && !Has(presence, x)
    ensures forall j :: 0 <= j < k && !Has(presence, sizes[j]) ==> sizes[j] in r
  {
    if k == 0 then []
    else
      var size := sizes[k - 1];
      var prefix := Gaps(presence, sizes, k - 1);
      assert forall i :: 0 <= i < |prefix| ==> prefix[i] < size by {
        forall i | 0 <= i < |prefix|
          ensures prefix[i] < size
        {
          assert prefix[i] in prefix;
        }
      }
      if Has(presence, size) then prefix
      else
        assert StrictlyAscending(prefix + [size]);
        prefix + [size]
  }

  /** One step of the walk: the gaps of `k` steps extend those of `k - 1` by at most the `k`-th size. */
  lemma GapsStep(presence: Presence, sizes: seq<nat>, k: nat)
    requires 0 < k <= |sizes|
    requires StrictlyAscending(sizes)
    ensures Gaps(presence, sizes, k) ==
              if Has(presence, sizes[k - 1]) then Gaps(presence, sizes, k - 1)
              else Gaps(presence, sizes, k - 1) + [sizes[k - 1]]
  {
  }

  /** When none of the first `k` sizes is present, all of them are gaps. */
  lemma {:induction false} GapsNonePresent(presence: Presence, sizes: seq<nat>, k: nat)
    requires k <= |sizes|
    requires StrictlyAscending(sizes)
    requires forall j :: 0 <= j < k ==> !Has(presence, sizes[j])
    ensures Gaps(presence, sizes, k) == sizes[..k]
  {
    if k > 0 {
      GapsNonePresent(presence, sizes, k - 1);
      assert sizes[..k] == sizes[..k - 1] + [sizes[k - 1]];
    }
  }

  /** When all of the first `k` sizes are present, there is no gap. */
  lemma {:induction false} GapsAllPresent(presence: Presence, sizes: seq<nat>, k: nat)
    requires k <= |sizes|
    requires StrictlyAscending(sizes)
    requires forall j :: 0 <= j < k ==> Has(presence, sizes[j])
    ensures Gaps(presence, sizes, k) == []
  {
    if k > 0 {
      GapsAllPresent(presence, sizes, k - 1);
    }
  }

  /** The gaps depend on what a branch has only through which catalog sizes it has. */
  lemma {:induction false} GapsAgree(a: Presence, b: Presence, sizes: seq<nat>, k: nat)
    requires k <= |sizes|
    requires StrictlyAscending(sizes)
    requires forall j :: 0 <= j < k ==> (Has(a, sizes[j]) <==> Has(b, sizes[j]))
    ensures Gaps(a, sizes, k) == Gaps(b, sizes, k)
  {
    if k > 0 {
      GapsAgree(a, b, sizes, k - 1);
    }
  }

  /** A strictly ascending sequence holds each value at most once. */
  lemma {:induction false} StrictlyAscendingMultiplicity(s: seq<nat>, x: nat)
    requires StrictlyAscending(s)
    ensures multiset(s)[x] == if x in s then 1 else 0
    decreases |s|
  {
    if |s| > 0 {
      assert s == [s[0]] + s[1..];
      StrictlyAscendingMultiplicity(s[1..], x);
      if s[0] == x {
        assert x !in s[1..];
      }
    }
  }
}
