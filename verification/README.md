# ICNS to PNG size planning

This project models the planning logic of `ConvertIcnsToPng` in app-builder's
`pkg/icons/icns-to-png.go`. The function turns an ICNS icon container into a
set of PNG images, one per target size, and works in four steps:

1. It finds out which images already exist. There are two branches:
   - The iconutil branch runs on macOS. `iconutil` writes an iconset directory, and the branch lists it.
   - The fallback branch calls the OpenJPEG-based decoder, which returns image descriptors.
2. It plans:
   - which images already exist (`result`);
   - which sizes must still be derived (`sizeList`): always 24 and 96, then every native catalog size that is missing;
   - which existing image is the resampling source (`maxIconPath`, `maxSize`).
3. `multiResizeImage` derives every queued size that is not larger than the source. It never upsamples. It registers a descriptor for each derived image, then resizes and saves it.
4. It merges the existing and derived descriptors and sorts them by size.

The model is purely functional:

- `Icons` holds the descriptor type `IconInfo` and the list helpers `hasSize`, `contains` and `sortBySize`.
- `Catalog` holds the native catalog `icnsTypeToSize`, the auxiliary sizes, and `Gaps`, the list of missing catalog sizes.
- `Paths` holds the file-name template `icon_%dx%d.png` with its decimal rendering.
- `Select` holds the two planning branches.
- `Resize` holds `multiResizeImage`.
- `Convert` holds the whole conversion and its end-to-end properties.
- `Scenarios` holds the conversion on the real catalog for three extraction outcomes: every native size, only 512, nothing.

Things outside the model become inputs:

- A `Backend` value says which branch runs and what its collaborator returned:
  - `Iconutil(Some(listing))` or `Iconutil(None)` for iconutil followed by the directory listing, where `None` means a failure;
  - `OpenJpeg(Some(descriptors))` or `OpenJpeg(None)` for the decoder, where `None` means a failure.
- An `ImageStore` says which paths `LoadImage` can decode and which paths `SaveImage` cannot write.
- The temporary directory is the parameter `dir`.

Most properties are proved over any valid catalog (`ValidCatalog`: strictly ascending, positive, disjoint from the auxiliary sizes). They are then applied to the real catalog `Sizes()`.

## Model

| member | source | states |
|---|---|---|
| Paths.NatToString | pkg/icons/icns-to-png.go:58 | The `%d` rendering of a size is a non-empty string of decimal digits. `NatToStringRoundTrip` and `NatToStringInjective` carry its other properties. |
| Paths.IconFileName | pkg/icons/icns-to-png.go:58 | The file name `icon_%dx%d.png` of a size. `IconFileNameShape` and `IconFileNameInjective` carry its properties. |
| Paths.JoinPath | pkg/icons/icns-to-png.go:61 | `filepath.Join` of the iconset directory and a file name. `IconPathInjective` carries its property. |
| Paths.IconPath | pkg/icons/icns-to-png.go:135 | The output path the template `dir/icon_%dx%d.png` gives a size. `IconPathInjective` shows distinct sizes get distinct paths. |
| Paths.NatToStringRoundTrip | pkg/icons/icns-to-png.go:58 | The decimal rendering that `%d` produces reads back as the same number. |
| Paths.NatToStringInjective | pkg/icons/icns-to-png.go:58 | Different sizes render as different decimal strings. |
| Paths.IconFileNameShape | pkg/icons/icns-to-png.go:58 | In an icon file name, the decimal width follows `icon_` and ends at the first `x`. |
| Paths.IconFileNameInjective | pkg/icons/icns-to-png.go:58 | Two sizes with the same icon file name are the same size, so a listed name identifies exactly one catalog size. |
| Paths.IconPathInjective | pkg/icons/icns-to-png.go:135 | Different sizes get different output paths in the same directory, so derived images never overwrite each other. |
| Icons.HasSize | pkg/icons/icns-to-png.go:95-102 | `hasSize` is true exactly when some descriptor of the list has the size. |
| Icons.Contains | pkg/icons/icns-to-png.go:109-116 | `contains` is true exactly when the name occurs in the listing. |
| Icons.Insert | pkg/icons/icns-to-png.go:104-107 | Inserting into a size-sorted list keeps it sorted and adds exactly the inserted descriptor. |
| Icons.SortBySize | pkg/icons/icns-to-png.go:104-107 | `sortBySize` returns a permutation of its input that is non-decreasing by size. |
| Icons.SortBySizeCounts | pkg/icons/icns-to-png.go:104-107 | Sorting keeps the number of descriptors of every size. |
| Icons.SortBySizeHasSize | pkg/icons/icns-to-png.go:74-79 | `hasSize` gives the same answer on the sorted list as on the decoder's unsorted one. |
| Icons.HasSizeCount | pkg/icons/icns-to-png.go:95-102 | `hasSize` is true exactly when the list holds at least one descriptor of the size. |
| Icons.CountSizeStrict | pkg/icons/icns-to-png.go:57-67 | A list whose sizes strictly ascend holds exactly one descriptor of each size it has and none of any other size. |
| Icons.SortBySizeLast | pkg/icons/icns-to-png.go:81-83 | After sorting, the last descriptor belongs to the input list and is at least as large as every descriptor in it. |
| Icons.SameElementsHasSize | pkg/icons/icns-to-png.go:76 | Two lists with the same descriptors agree on `hasSize` for every size. |
| Catalog.Sizes | pkg/icons/icns-to-png.go:23-31 | The catalog's sizes in order are 16, 32, 48, 64, 128, 256 and 512. They strictly ascend, are positive, and never equal an auxiliary size. |
| Catalog.Present | pkg/icons/icns-to-png.go:58-59 | The iconutil branch's test `contains(iconFileNames, fileName)` for a size. `PresentSingle` and `IconFileNameInjective` carry its properties. |
| Catalog.Has | pkg/icons/icns-to-png.go:57-79 | What a branch already has: the listing test of line 59 or `hasSize` of line 76. `GapsAgree` shows the gaps depend only on it. |
| Catalog.Gaps | pkg/icons/icns-to-png.go:75-79 | The missing-size walk appends exactly the catalog sizes the branch does not already have, in ascending catalog order. |
| Catalog.GapsNonePresent | pkg/icons/icns-to-png.go:57-67 | When none of the walked sizes is present, every one of them is appended, in order. |
| Catalog.GapsAllPresent | pkg/icons/icns-to-png.go:57-67 | When every walked size is present, nothing is appended. |
| Catalog.GapsAgree | pkg/icons/icns-to-png.go:57-67 | The appended sizes depend only on which catalog sizes are present, not on how presence is established. |
| Catalog.StrictlyAscendingMultiplicity | pkg/icons/icns-to-png.go:23-31 | A strictly ascending size list holds each size at most once. |
| Select.DarwinStep | pkg/icons/icns-to-png.go:58-66 | One iteration of the iconutil loop. Its effect over the whole walk is stated by `DarwinScanSizeList`, `DarwinScanResult`, `DarwinScanComplete` and `DarwinScanSource`. |
| Select.DarwinScan | pkg/icons/icns-to-png.go:57-67 | The plan after the first `k` iterations. `DarwinScanSizeList`, `DarwinScanResult`, `DarwinScanComplete`, `DarwinScanSource` and `DarwinScanListingOrder` carry its properties. |
| Select.DarwinPlan | pkg/icons/icns-to-png.go:39-67 | The iconutil branch's plan over the whole catalog. `DarwinScanSizeList`, `DarwinSource` and `DarwinPartition` carry its properties. |
| Select.DarwinScanSizeList | pkg/icons/icns-to-png.go:42-67 | In the iconutil branch, `sizeList` is `[24, 96]` followed by the absent catalog sizes in catalog order. |
| Select.DarwinScanResult | pkg/icons/icns-to-png.go:57-67 | Every existing image of the iconutil branch is a present catalog size at its iconset path, and their sizes strictly ascend. |
| Select.DarwinScanComplete | pkg/icons/icns-to-png.go:57-67 | Every present catalog size gets an existing image. |
| Select.DarwinScanSource | pkg/icons/icns-to-png.go:57-67 | The last match wins, and because the catalog ascends it is the largest present size. With no match the source stays `""` with size 0. |
| Select.DarwinPartition | pkg/icons/icns-to-png.go:57-67 | Each catalog size is either an existing image or queued, never both, and there is at most one image of it. |
| Select.DarwinSource | pkg/icons/icns-to-png.go:57-67 | The iconutil branch's source is the largest present catalog size at its iconset path, or `""` with size 0 when none is present. |
| Select.DarwinLastPresent | pkg/icons/icns-to-png.go:57-67 | When the largest catalog size is present, it is the source. |
| Select.DarwinAllPresent | pkg/icons/icns-to-png.go:57-67 | When every catalog size is present, only the auxiliary sizes are queued and the largest catalog size is the source. |
| Select.PresentSingle | pkg/icons/icns-to-png.go:58-59 | A listing of a single icon file holds exactly one catalog size. |
| Select.OnlyLargestAbsent | pkg/icons/icns-to-png.go:57-67 | With only the largest image listed, every smaller catalog size is absent. |
| Select.OnlyLargestGaps | pkg/icons/icns-to-png.go:57-67 | With only the largest image listed, all smaller catalog sizes are appended, in order. |
| Select.DarwinOnlyLargest | pkg/icons/icns-to-png.go:57-67 | With only the largest image listed, `sizeList` is the auxiliary sizes followed by all smaller catalog sizes, and the largest size is the source. |
| Select.DarwinScanListingOrder | pkg/icons/icns-to-png.go:59 | The plan depends only on which file names are listed, not on their order or repetitions. |
| Select.FallbackPlan | pkg/icons/icns-to-png.go:68-84 | In the fallback branch:<br>- the existing images are the decoder's descriptors sorted by size;<br>- `sizeList` is `[24, 96]` followed by exactly the catalog sizes no descriptor has, ascending;<br>- the source is a decoded descriptor at least as large as every other. |
| Select.FallbackPlanOrder | pkg/icons/icns-to-png.go:74-83 | Any order of the same decoded descriptors gives the same `sizeList` and the same source size. |
| Resize.Derive | pkg/icons/icns-to-png.go:129-139 | Task creation registers one descriptor per queued size that is not larger than the source, at the path the template gives. Larger sizes are skipped. |
| Resize.MultiResizeImage | pkg/icons/icns-to-png.go:118-146 | `multiResizeImage`:<br>- an empty size list succeeds without loading the source;<br>- otherwise an unloadable source fails with that path;<br>- the call fails exactly when the source does not load or some kept size cannot be saved;<br>- on success the existing descriptors are kept and followed by the derived ones, whose sizes match the kept part of the size list one for one. |
| Resize.DeriveNone | pkg/icons/icns-to-png.go:131-133 | Sizes that are all larger than the source derive nothing. |
| Resize.NoUpsampling | pkg/icons/icns-to-png.go:129-139 | When every queued size is larger than the source and the source loads, the call succeeds and adds nothing. |
| Convert.PlanFor | pkg/icons/icns-to-png.go:45-84 | Planning fails exactly when iconutil, the listing or the decoder fails, or when the decoder yields nothing (an index error). A successful plan always queues at least the auxiliary sizes. |
| Convert.Convert | pkg/icons/icns-to-png.go:33-93 | The conversion returns a size-sorted list. It fails exactly when planning fails, the source does not load, or a kept derived size cannot be saved. |
| Convert.ConvertIcnsToPng | pkg/icons/icns-to-png.go:33-93 | On the ICNS catalog, a successful result is sorted by size. A failed extraction fails the conversion, and an empty decoder result is an index error. |
| Convert.EmptyListing | pkg/icons/icns-to-png.go:86-89 | With a listing that holds no catalog image, the conversion tries to load the empty path and fails on it. |
| Convert.MergedCounts | pkg/icons/icns-to-png.go:86-92 | After merge and sort, each size occurs as often as among the existing images plus its kept occurrences in the size list. Every entry is existing or derived at its template path. |
| Convert.ConvertSteps | pkg/icons/icns-to-png.go:33-93 | A successful conversion consists of a successful plan, a successful resize of that plan, and a sort of the merged list. |
| Convert.SizeListMultiplicity | pkg/icons/icns-to-png.go:42 | Each auxiliary size and each gap occurs once in the size list. |
| Convert.DarwinResultCount | pkg/icons/icns-to-png.go:57-67 | The iconutil branch has one existing image per present catalog size and none for any other size. |
| Convert.DarwinSizeListCount | pkg/icons/icns-to-png.go:42-67 | The iconutil branch queues each auxiliary size and each absent catalog size exactly once. |
| Convert.DarwinCount | pkg/icons/icns-to-png.go:33-93 | On success, the iconutil branch holds each auxiliary or catalog size up to the largest present one exactly once. |
| Convert.DarwinOutcome | pkg/icons/icns-to-png.go:33-93 | On success, the iconutil branch's output:<br>- is sorted;<br>- holds each auxiliary or catalog size up to the largest present catalog size exactly once, and no other size;<br>- puts every image at its iconset path. |
| Convert.FallbackSource | pkg/icons/icns-to-png.go:81-83 | The fallback branch's source size is the largest decoded size. |
| Convert.FallbackCount | pkg/icons/icns-to-png.go:68-92 | On success, the fallback branch holds each size as often as the decoder produced it. It holds one more copy of an auxiliary size up to the source size, and one copy of a catalog size up to the source size that the decoder lacked. |
| Convert.FallbackKeeps | pkg/icons/icns-to-png.go:68-92 | On success, the fallback branch keeps every decoded descriptor. |
| Convert.FallbackBounded | pkg/icons/icns-to-png.go:131-133 | On success, the fallback branch holds nothing larger than the largest decoded size. |
| Convert.FallbackOutcome | pkg/icons/icns-to-png.go:68-92 | On success, the fallback branch's output:<br>- is sorted;<br>- keeps every decoded descriptor;<br>- adds one descriptor for each auxiliary size and each missing catalog size up to the source size;<br>- holds nothing larger than the source. |
| Scenarios.IconutilOutcome | pkg/icons/icns-to-png.go:33-93 | With iconutil, each of the nine target sizes up to the largest extracted native size occurs once, and nothing else occurs. |
| Scenarios.FullIconset | pkg/icons/icns-to-png.go:33-93 | With iconutil and the 512 image extracted, a successful conversion holds each of 16, 24, 32, 48, 64, 96, 128, 256 and 512 exactly once. |
| Scenarios.AllNativePlan | pkg/icons/icns-to-png.go:42-67 | With all seven native images extracted, the size list is `[24, 96]` and the source is the 512 image. |
| Scenarios.AllNativePresent | pkg/icons/icns-to-png.go:33-93 | With all seven native images extracted, a successful conversion holds the nine target sizes once each. |
| Scenarios.Only512Plan | pkg/icons/icns-to-png.go:42-67 | With only the 512 image extracted, the size list is `[24, 96, 16, 32, 48, 64, 128, 256]` and the source is the 512 image. |
| Scenarios.Only512Present | pkg/icons/icns-to-png.go:33-93 | With only the 512 image extracted, a successful conversion again holds the nine target sizes once each. |
| Scenarios.NothingExtracted | pkg/icons/icns-to-png.go:39-84 | With nothing extracted:<br>- with iconutil the conversion fails loading the empty source path;<br>- with the fallback decoder it fails with an index error. |

## Behaviour of the code worth knowing

- **Auxiliary sizes.** `sizeList` starts as `[24, 96]` unconditionally (line 42). If the fallback decoder already produced a 24 or 96 image, the output holds two descriptors of that size. `Convert.FallbackCount` states this.
- **Order of the size list.** The auxiliary sizes come first and the missing native sizes follow in catalog order. With only the 512 image extracted, the list is `[24, 96, 16, 32, 48, 64, 128, 256]` (`Scenarios.Only512Plan`).
- **Empty extraction.** An empty extraction gets no dedicated error:
  - The iconutil branch keeps `maxIconPath == ""` and fails in `LoadImage("")` (lines 39 and 124-127).
  - The fallback branch indexes `result[len(result)-1]` on an empty slice at line 81, which panics. This is modelled as the error `IndexOutOfRange`.
- **Choice of the source.** The two branches use different rules:
  - The iconutil branch only considers catalog sizes, and the last match wins (lines 57-67).
  - The fallback branch takes the last descriptor after sorting, which is the largest decoded one, whether or not its size is in the catalog (lines 74 and 81-83).
- **Existing images are not resized.** Images that already exist are kept as they are. Only the queued sizes up to the source size are derived from the source (lines 129-139). With every native size extracted, only 24 and 96 are derived.

## Left out

- `util.TempDir`, running `iconutil`, `fs.ReadDirContent` and `ConvertIcnsToPngUsingOpenJpeg` are I/O. Their outcomes are the `Backend` input, and their errors are collapsed into `ExtractionFailed`.
- `runtime.GOOS` and the `FORCE_ICNS2PNG` environment variable choose the branch. That choice is the `Backend` constructor.
- `LoadImage`, `imaging.Resize` with the Lanczos filter, and `SaveImage` work on pixels. They are modelled only through the `ImageStore` sets of decodable and unwritable paths; pixel content is not modelled.
- `util.MapAsync` runs the resize jobs concurrently with bounded parallelism. The model creates the jobs in size-list order and treats the run as failing when any job fails; it does not model which error is reported.
- Resize.MultiResizeImage: promises only the multiset of derived sizes and their paths, not their order inside the merged list. The append happens inside the job-creation callback of `MapAsync`, whose ordering is not part of this model. The final sort makes the order irrelevant except among equal sizes.
- Icons.SortBySize: is one admissible result of the unstable `sort.Slice`. Every contract about it promises only sortedness and permutation, so the order among descriptors of equal size is left open.
- Convert.ConvertIcnsToPng: reports `SaveFailed` without the path that failed, and drops the stack wrapping done by `errors.WithStack` and the `log.Info` of iconutil's output.
- `filepath.Join` also cleans paths. The model joins with a single `/`, and the output template `dir/icon_%dx%d.png` is assumed to contain no other `%` verb.
- Sizes are unbounded naturals. Go's `int` cannot overflow for pixel sizes of this magnitude.
- The ICNS type codes `ICNS_256` and `ICNS_512` are declared in a file that is not part of this model. The model uses `ic08` and `ic09`; no behaviour depends on the codes.
