# redact-gateway: a verified model

redact-gateway is a reverse proxy that inspects uploads before they reach an origin
server. Each image part of a request is matched to a policy route and then rejected,
stripped of metadata, or decoded, searched for sensitive regions, masked, re-encoded and
audited. Its promise is to fail closed: what it could not sanitize it does not forward.

This project models the parts of the gateway that carry that promise and proves what they
compute. Code that updates its state in place is modelled that way (the disjoint-set forest,
the scan loops, the blur buffers, the pool and the counters are classes, arrays and loops);
code made of expressions is functions. Each loop is proved against a specification, and the
specification is then shown to mean what the gateway promises.

`dafny verify dfyconfig.toml` checks everything.

## How it fits together

- `UnionFind`, `Connectivity`, `MarkerDetector`: the region-marker detector. Its answer is
  characterised without reference to the disjoint-set forest: one tightest box for each
  4-connected blob of marker-coloured pixels, found through walks of adjacent pixels.
- `Pii`, `Iban`, `Luhn`: the text detector and its two checksum gates.
- `Blur`, `Mask`, `Geometry`: solid and blurred masking of rectangles, with the arithmetic of
  the two-pass blur on 32-bit words.
- `Decode`, `Machine`: sniffing, and the pixel cap on wrapping 64-bit products.
- `Jpeg`, `Png`, `ByteStrings`: the metadata strippers, each proved to be parse, filter,
  print, with an independent grammar of the inputs it accepts.
- `WorkerPool`: the pool as an object and as a transition system of any number of calls.
- `Policy`, `Multipart`, `Summary`, `Metrics`, `Sorting`: routing, part order, the merged
  summary, and the counters under interleaving.
- Beside each specification stand lemmas that say on literal bytes, characters and pixels what
  its leaf definitions mean, so that the theorems do not rest on the definitions alone.
- `Sanitize`, `EndToEnd`, `Handler`: one item, then a whole request. Decoders, detectors,
  the encoder and the audit log are arbitrary functions that may fail, and the theorems hold
  for every choice of them. `Handler.OriginSeesOnlyCleanBytes` and
  `Handler.ForwardedMarkersAreInked` put the pieces together.

## Where the code and its documentation differ

- `internal/exif/strip.go` promises to copy all other segments verbatim. Fill bytes between
  segments are not copied, and bytes after an EOI that comes before any scan are dropped.
  `Jpeg.FillBytesAreDropped` shows an input; `Jpeg.StripVerbatim` says exactly which inputs are
  copied whole, by the guards of the loop. Metadata after the first SOS marker is outside what
  the code inspects.
- `internal/metrics/metrics.go` says the per-reason counters always sum to the total. They are
  two additions: `Metrics.BreakdownCanLag` is a reachable state in which they do not, and
  `Metrics.BreakdownSumsExactly` says exactly when they do.
- `internal/policy/policy.go` says the longest path-segment prefix wins. Sorting uses the raw
  length and matching trims all trailing slashes, so `/a///` beats `/a/b` on the path `/a/b`
  (`Policy.TrailingSlashesOvertake`). `Policy.LongestExactly` says exactly which route tables
  give the longest prefix on every path, `Policy.LongestConfiguredExactly` which configurations
  do, and `Policy.LongestPrefixWins` that at most one trailing slash is enough.
- `internal/detect/iban.go` accepts check numbers 00, 01 and 99 where they are congruent to the
  one from 02 to 98 (`Iban.OneCheckNumber`); `Iban.UnassignedCheckNumbersAccepted` has an IBAN
  for each.
- `internal/intercept/body.go` reads one byte more than the cap to notice an overflow. The sum
  is a 64-bit one, so under the cap 2^63-1, which configuration accepts for a route, the limit
  is negative and every body reads as empty (`Multipart.LargestCapReadsNothing`); a masking
  route then forwards empty bodies (`Handler.LargestCapEmptiesForms`). Under every other cap
  bodies are read as promised (`Multipart.ReadsAsPromisedExactly`), and the theorems about
  requests speak of the bytes read.
- `internal/intercept/multipart.go` takes any non-empty boundary when it reads a form, but the
  writer refuses some when the form is put together again (a character outside the allowed
  set, or more than 70 characters). Such a form is blocked after all its parts have been
  sanitized (`Handler.RefusedBoundaryBlocks`).
- `internal/imageproc/mask.go` calls masking idempotent and order-independent for solid fills;
  that is proved for solid fills, and nothing of the kind is claimed for blur.

## Model

| member | source | states |
|---|---|---|
| `UnionFinds.UnionFind.constructor` | internal/detect/region.go:159-165 | a fresh forest: every element is its own root with rank 0 |
| `UnionFinds.UnionFind.Find` | internal/detect/region.go:167-173 | returns the root; no element's root changes; the links become exactly those of path halving; at most log2(n) turns |
| `UnionFinds.UnionFind.Union` | internal/detect/region.go:175-187 | new roots and ranks: the root of higher rank wins, the first argument's root on a tie, whose rank alone grows by one; the forest stays valid |
| `UnionFinds.HalvingKeepsForest` | internal/detect/region.go:168-171 | one halving step keeps ranks strictly increasing along links, every root, and the 2^rank size bound |
| `UnionFinds.LinkKeepsForest` | internal/detect/region.go:180-186 | linking a root under one of no lower rank keeps ranks increasing, sizes at least 2^rank, and relabels exactly the loser's set |
| `UnionFinds.RankIsLogarithmic` | internal/detect/region.go:153-187 | 2^rank is at most the number of elements, for every element of every forest the operations reach |
| `UnionFinds.LabelsAreRoots` | internal/detect/region.go:167-173 | only one labelling agrees with the links, the root of each element |
| `UnionFinds.UnionJoins` | internal/detect/region.go:175-187 | after a union two elements share a root if and only if they did before or the union bridged their sets |
| `UnionFinds.UnionExactly` | internal/detect/region.go:175-187 | element by element: both sets get the root of higher rank, the first argument's on a tie, and only a tie raises that root's rank, by one |
| `Connectivity.EdgesAreAdjacency` | internal/detect/region.go:71-84 | the edges scanned to the right and downwards are, both ways round, exactly the adjacencies of marked pixels |
| `Connectivity.UnionPartitions` | internal/detect/region.go:70-84 | each union keeps root equality the same relation as being linked by a chain of the edges merged so far |
| `Connectivity.LinkedIsConnected` | internal/detect/region.go:70-84 | once all edges are merged, chains of edges are walks of adjacent marked pixels |
| `Connectivity.PartitionIsConnected` | internal/detect/region.go:70-84 | after the scan two marked pixels share a root if and only if a path of adjacent marked pixels joins them |
| `MarkerDetector.ScanMarkers` | internal/detect/region.go:50-65 | marks exactly the matching pixels, and stops if and only if one of the polls every 64 rows says so |
| `MarkerDetector.MergeNeighbours` | internal/detect/region.go:70-84 | the nested union loops leave roots that name the 4-connected blobs |
| `MarkerDetector.CollectBoxes` | internal/detect/region.go:86-114 | the box map has one entry for each root of a marked pixel, spanning exactly its pixels; halving during the pass re-keys nothing |
| `MarkerDetector.TakeBoxes` | internal/detect/region.go:116-128 | whatever order the map yields, the regions are the boxes that pass the area threshold, as half-open rectangles in picture coordinates |
| `MarkerDetector.Detect` | internal/detect/region.go:35-132 | canceled exactly when a poll made before the answer says so; otherwise exactly one tight half-open box per 4-connected blob that passes the threshold, in canonical order |
| `MarkerDetector.BlobBoxIsUnique` | internal/detect/region.go:86-114 | two pixels of one blob have the same smallest rectangle |
| `MarkerDetector.BlobHasBox` | internal/detect/region.go:86-114 | every marked pixel's blob has a tight box, so no blob can be missed |
| `MarkerDetector.MarkersAreCovered` | internal/detect/region.go:35-132 | with no area threshold every marker-coloured pixel lies in a reported region |
| `MarkerDetector.AnswerIsUnique` | internal/detect/region.go:116-131 | two answers for one picture are equal: neither map order nor the sorting algorithm shows |
| `MarkerDetector.RegionsExactly` | internal/detect/region.go:35-146 | on the picture alone, with paths of pixels whose four channels are within the tolerance: a region is reported if and only if its rectangle is tight around such a pixel and all that paths join to it, has the least area if one is set, and bears the configured label or "marker" |
| `MarkerDetector.AnswerOrder` | internal/detect/pii.go:112-130 | the regions come top to bottom, then left to right, then by lower and right edge |
| `MarkerDetector.RegionOrder` | internal/detect/pii.go:112-130 | the comparator of sortRegions is a total order without ties between different regions |
| `Pii.Detect` | internal/detect/pii.go:84-109 | the loop computes the sorted regions that the next three rows describe |
| `Pii.ReportedExactly` | internal/detect/pii.go:84-107 | a region is reported if and only if it is a text box some pattern accepts, labelled by the first that does |
| `Pii.ReportedByIndex` | internal/detect/pii.go:84-107 | a region is reported if and only if it has the rectangle of some text box and the label of the pattern with the least index that matches the text and whose check takes the match |
| `Pii.ReportedOnceEach` | internal/detect/pii.go:84-107 | there are as many regions as text boxes that some pattern takes |
| `Pii.BoxOrderIrrelevant` | internal/detect/pii.go:84-130 | the regions do not depend on the order of the recognized text boxes |
| `Pii.OnlyChecksummedNumbers` | internal/detect/pii.go:43-52 | nothing is labelled card or iban unless the pattern that labels it matched a text that passes the Luhn or IBAN check |
| `Iban.Compacted` | internal/detect/iban.go:11-17 | the input without its spaces |
| `Iban.Mod97` | internal/detect/iban.go:36-45 | the fold modulo 97 is the remainder of the whole unbounded number |
| `Iban.IBANValid` | internal/detect/iban.go:10-47 | true if and only if the compacted string is well formed and its rotated decimal expansion, as an unbounded integer, is 1 modulo 97 |
| `Iban.ValidExactly` | internal/detect/iban.go:10-47 | written out: 15 to 34 characters of the right kinds, and with the first four moved to the end one more than a multiple of 97 |
| `Iban.ExpandExactly` | internal/detect/iban.go:31-46 | a digit adds one decimal place, a letter two, from 10 for A |
| `Iban.SpacesExactly` | internal/detect/iban.go:11-17 | spaces go, everything else stays in order |
| `Iban.FoldKeepsApart` | internal/detect/iban.go:37-46 | numbers that differ modulo 97 still differ after any further characters |
| `Iban.FoldDifference` | internal/detect/iban.go:37-46 | a difference grows by the place value, modulo 97, of what is appended |
| `Iban.PowerNotOne` | internal/detect/iban.go:31-46 | ten has order 96 modulo 97, so no shift of fewer places is neutral |
| `Iban.SubstitutionDetected` | internal/detect/iban.go:10-47 | every single substitution of a character by another of its class in a valid IBAN is rejected |
| `Iban.TranspositionDetected` | internal/detect/iban.go:10-47 | every exchange of two different characters of one class, at any distance, in a valid IBAN is rejected |
| `Iban.OneCheckNumber` | internal/detect/iban.go:10-47 | for each country code and BBAN exactly one check number from 02 to 98 is accepted, and of 00 to 99 exactly those congruent to it modulo 97 |
| `Iban.UnassignedCheckNumbersAccepted` | internal/detect/iban.go:10-47 | an accepted IBAN for each of the check numbers 00, 01 and 99 |
| `Luhn.LuhnValid` | internal/detect/luhn.go:12-42 | true if and only if only digits, spaces and hyphens occur, there are 13 to 19 digits, and the alternating sum from the right is a multiple of 10 |
| `Luhn.ValidExactly` | internal/detect/luhn.go:12-42 | written out: only digits, spaces and hyphens, 13 to 19 digits, and a sum that is a multiple of ten |
| `Luhn.SumExactly` | internal/detect/luhn.go:23-32 | two digits at a time from the right: the last as it is, and the digits of the double of the one before it |
| `Luhn.SeparatorsDoNotMatter` | internal/detect/luhn.go:18-22 | inserting or removing any run of spaces and hyphens anywhere does not change the answer |
| `Luhn.SumUpdate` | internal/detect/luhn.go:23-32 | replacing one digit changes the sum by the difference of what the two weigh at that place |
| `Luhn.SubstitutionDetected` | internal/detect/luhn.go:12-42 | every substitution of one digit in a valid run is rejected |
| `Luhn.ExchangeKeepsSum` | internal/detect/luhn.go:23-32 | exchanging digits an odd distance apart keeps the sum modulo 10 if and only if they are equal or 0 and 9 |
| `Luhn.EvenExchangeUnnoticed` | internal/detect/luhn.go:23-32 | exchanging digits an even distance apart is never noticed |
| `Luhn.AdjacentExchange` | internal/detect/luhn.go:12-42 | exchanging neighbouring digits, across any separators, of a valid run stays valid if and only if they are equal or 0 and 9 |
| `Luhn.OneCheckDigit` | internal/detect/luhn.go:12-42 | each payload of 12 to 18 digits is completed by exactly one check digit |
| `Blur.BlurRegion` | internal/imageproc/mask.go:68-142 | in place, each pixel of the region becomes the two-pass mean of the snapshot, computed with 32-bit sums that may wrap, and every other pixel is unchanged |
| `Blur.Snapshot` | internal/imageproc/mask.go:87-95 | the buffer holds the region's original pixels |
| `Blur.RowsInto` | internal/imageproc/mask.go:97-116 | the horizontal pass: each pixel is the wrapped sum of its clipped row window divided by its count |
| `Blur.ColsInto` | internal/imageproc/mask.go:118-141 | the vertical pass, of the same kind, written back to the region and nowhere else |
| `Blur.BlurErrorBound` | internal/imageproc/mask.go:97-141 | with nx by ny pixels in the clipped window and sum S, the written value v has nx*ny*v <= S < nx*ny*(v+2) |
| `Blur.BlurredPixel` | internal/imageproc/mask.go:71-142 | where no sum of the region can wrap, every written channel is at most the exact mean of its clipped window and less than 2 below it |
| `Blur.BlurredInPicture` | internal/imageproc/mask.go:71-142 | the same read off the picture, with the window of pixels of the region at most the radius away along each axis |
| `Blur.RadiusExactly` | internal/imageproc/mask.go:72-85 | the radius is 1 unless a positive one is asked for, and at most the shorter side |
| `Blur.BlurredPixelRange` | internal/imageproc/mask.go:71-142 | where no sum of the region can wrap, every written channel stays between the region's extremes, and premultiplied pixels stay premultiplied |
| `Blur.NoWrapIsExact` | internal/imageproc/mask.go:101-112 | the size condition holds if and only if no picture of that size can make a 32-bit window sum wrap |
| `Blur.AccurateExactly` | internal/imageproc/mask.go:97-141 | the two-pass result, wrapping included, is within the error bound for every picture of a size if and only if no 32-bit window sum of that size can wrap |
| `Blur.CapPreventsWrap` | internal/imageproc/mask.go:79-112 | for regions of up to 70,000,000,000,000 pixels the radius clamp keeps every 32-bit sum from wrapping |
| `Mask.Apply` | internal/imageproc/mask.go:34-61 | the result is the fold of the clipped regions over a copy of the source |
| `Mask.BlurLast` | internal/imageproc/mask.go:44-61 | each region is blurred in turn, where it is visible, over what the ones before it left |
| `Mask.PaintSolid` | internal/imageproc/mask.go:52-57 | paints exactly the pixels of the rectangle |
| `Mask.SolidPixel` | internal/imageproc/mask.go:39-61 | solid masking pixel by pixel: ink if and only if some region reaches it, else the source |
| `Mask.InkExactly` | internal/imageproc/mask.go:52-66 | the ink is the fill colour if it can be seen, and opaque black if not |
| `Mask.OutsideUntouched` | internal/imageproc/mask.go:39-61 | in either mode a pixel outside every region equals the source |
| `Mask.SolidOrderIndependent` | internal/imageproc/mask.go:37-38 | solid masking depends only on which pixels are covered, not on order or repetition |
| `Mask.SolidIdempotent` | internal/imageproc/mask.go:37-38 | masking a solid-masked picture again changes nothing |
| `Mask.CapIsWrapFree` | internal/imageproc/mask.go:71-142 | within a picture of up to 70,000,000,000,000 pixels, far beyond the default cap, no blur of any region can wrap |
| `Mask.CappedBlurIsAccurate` | internal/imageproc/mask.go:34-142 | so in such a picture every channel of every blurred pixel is at most the mean around it and less than 2 below |
| `Mask.MaskedIsPremultiplied` | internal/imageproc/mask.go:39-142 | any list of overlapping regions, solid with premultiplied ink or blurred in such a picture, leaves a premultiplied picture premultiplied |
| `Decode.SniffSeesWhatDecodeAccepts` | internal/imageproc/decode.go:59-105 | 512 bytes classify an item as all of it would, and decodable bytes are sniffed as their own format |
| `Decode.SniffNames` | internal/imageproc/decode.go:76-95 | on literal bytes: which of the six formats the leading bytes name, if any |
| `Decode.DetectNames` | internal/imageproc/decode.go:59-74 | on literal bytes: JPEG and PNG, and nothing else, can be decoded |
| `Decode.CapIsExact` | internal/imageproc/decode.go:128-138 | for all machine-sized dimensions and caps the division check on the wrapped product refuses exactly when the true product exceeds the cap |
| `Decode.DecodedWithinCap` | internal/imageproc/decode.go:107-169 | a decoded picture is not empty and, if its header names JPEG or PNG, has at most the cap of pixels, counted exactly |
| `Decode.DecodesExactly` | internal/imageproc/decode.go:107-169 | decoding yields a picture if and only if the magic bytes, a positive header within the cap, the codec and the comparison with the header all allow it |
| `Decode.ErrorsExactly` | internal/imageproc/decode.go:107-138 | when the error is that of a foreign format, and when that of too many pixels |
| `Decode.UncomparedOvershoots` | internal/imageproc/decode.go:155-166 | the condition is needed: with any other header inside the cap some decoder gets a larger picture through |
| `Jpeg.Strip` | internal/exif/strip.go:62-142 | the marker loop computes parse, drop, print, with the same two errors |
| `Jpeg.ReadItem` | internal/exif/strip.go:73-117 | skips fill bytes and reads one marker segment, with every malformed case |
| `Jpeg.ParsePrint` | internal/exif/strip.go:62-142 | parsing a printed stream of well-formed segments gives it back |
| `Jpeg.GrammarIsExact` | internal/exif/strip.go:62-142 | bytes are read as a given segment list if and only if they are laid out as it, with fill bytes anywhere: the accepted language, and its unambiguity |
| `Jpeg.StripExactly` | internal/exif/strip.go:56-142 | succeeds with an output if and only if the input is SOI and a laid-out stream and the output is SOI, the kept segments in order, byte for byte, and the EOI or the scan verbatim |
| `Jpeg.StripMarker` | internal/exif/strip.go:73-100 | on literal bytes: a missing or cut-off marker, fill bytes, a second SOI, and EOI |
| `Jpeg.StripAlone` | internal/exif/strip.go:102-106 | on literal bytes: TEM and the restart markers stand alone and are kept |
| `Jpeg.StripSegment` | internal/exif/strip.go:108-140 | on literal bytes: the length is big-endian and counts itself; what is too short or overruns is refused, a scan must end in EOI, and of the rest exactly 0xE1, 0xED and 0xFE are dropped |
| `Jpeg.SegmentLaw` | internal/exif/strip.go:108-140 | one segment of any marker with a length and any payload, right after SOI, is dropped or placed right after the SOI of what the rest gives |
| `Jpeg.StrippedReadsBack` | internal/exif/strip.go:56-142 | re-parsing the output yields exactly the kept segments, with no APP1, APP13 or COM before the first scan |
| `Jpeg.StripIdempotent` | internal/exif/strip.go:62-142 | stripping its own output changes nothing |
| `Jpeg.StripShortens` | internal/exif/strip.go:62-142 | the output is never longer than the input |
| `Jpeg.KeptAppend` | internal/exif/strip.go:132-140 | a segment is dropped if and only if its marker is APP1, APP13 or COM; order is kept |
| `Jpeg.StripVerbatim` | internal/exif/strip.go:56-142 | the output equals the input if and only if it is SOI and well-formed segments, one 0xFF opens every marker, no segment is APP1, APP13 or COM, and an EOI before any scan ends the input |
| `Jpeg.FillBytesAreDropped` | internal/exif/strip.go:76-89 | an input whose fill bytes are not copied |
| `Png.StripPNG` | internal/exif/png.go:64-107 | the chunk loop computes parse, keep, print, with the same two errors |
| `Png.ParsePrint` | internal/exif/png.go:74-102 | parsing printed chunks gives them back, whatever follows the IEND |
| `Png.StripExactly` | internal/exif/png.go:57-107 | succeeds if and only if the walk reaches an IEND inside the buffer, and then writes the signature and the allowlisted chunks up to and including the first IEND |
| `Png.ChunkLaw` | internal/exif/png.go:74-102 | on literal bytes: a chunk with a big-endian length right after the signature ends the output if it is IEND, and otherwise is kept if and only if its letters are on the list |
| `Png.KeptNames` | internal/exif/png.go:30-55 | the list of chunk types, by name |
| `Png.CutChunkRefused` | internal/exif/png.go:74-89 | a chunk that does not fit the input is refused |
| `Png.StrippedReadsBack` | internal/exif/png.go:57-107 | the output reads back as exactly the kept chunks, all allowlisted, and is no longer than the input |
| `Png.StripIdempotent` | internal/exif/png.go:64-107 | stripping its own output changes nothing |
| `Png.TrailingBytesDropped` | internal/exif/png.go:93-100 | bytes appended to an accepted input change nothing |
| `WorkerPool.Pool.constructor` | internal/pool/pool.go:42-51 | an open, idle pool of at least one slot |
| `WorkerPool.Pool.Register` | internal/pool/pool.go:78-91 | the locked part of Acquire: refused if closed, else one more in flight and the peak kept |
| `WorkerPool.Pool.ReleaseLocked` | internal/pool/pool.go:106-116 | the locked part of release: one fewer in flight, done signalled when closed and idle |
| `WorkerPool.Pool.DrainLocked` | internal/pool/pool.go:142-154 | the locked part of Drain: closes once, signals done at once if idle |
| `WorkerPool.StepKeepsInv` | internal/pool/pool.go:60-162 | every atomic step of every call keeps the invariant relating semaphore, inflight, peak, closed and done to the calls in progress |
| `WorkerPool.ConcurrencyBounded` | internal/pool/pool.go:75-118 | in every interleaving the semaphore counts calls between send and receive, inflight the unreleased grants, and inflight <= semaphore <= N, peak <= N |
| `WorkerPool.MaxSeenIsPeak` | internal/pool/pool.go:85-88 | the recorded peak is the maximum of inflight over the whole history |
| `WorkerPool.DrainedStaysIdle` | internal/pool/pool.go:136-162 | once a Drain has returned nil no call holds a grant then or ever after, including calls that had sent before the close |
| `WorkerPool.ClosedOnce` | internal/pool/pool.go:108-115 | done is given exactly when closed and idle, and never twice |
| `WorkerPool.NeverStuck` | internal/pool/pool.go:117-117 | giving a slot back never blocks, and a drain waiting on an idle pool can return |
| `WorkerPool.DrainCanReturn` | internal/pool/pool.go:156-162 | every run to a state in which a Drain waits and nothing is granted extends to one in which it returned nil |
| `WorkerPool.FalseMeansCanceled` | internal/pool/pool.go:156-162 | a Drain that returned an error was waiting, and only its cancellation can have been the step |
| `WorkerPool.StepTells` | internal/pool/pool.go:60-162 | which steps grant a slot, refuse one as draining, saturated or canceled, and end a Drain either way |
| `WorkerPool.ClosedGrantsNothing` | internal/pool/pool.go:78-84 | once the pool is closed nothing new is granted |
| `WorkerPool.DrainedMeansClosed` | internal/pool/pool.go:60-91 | a call is refused as draining only after the pool was closed |
| `WorkerPool.AcquireCanSucceed` | internal/pool/pool.go:60-95 | while the pool is open and a slot is free a new call can be granted one, with one more in flight |
| `WorkerPool.ReleaseCanFinish` | internal/pool/pool.go:99-118 | every grant can be released, with one fewer in flight and the slot free again |
| `WorkerPool.SlotFirstOvershoots` | internal/pool/pool.go:100-105 | with the slot given back before the decrement, every pool size has a run whose recorded peak is one more than the size |
| `Policy.New` | internal/policy/policy.go:75-102 | the table, or the first route in sorted order with an invalid action |
| `Policy.RefusedExactly` | internal/policy/policy.go:89-92 | a configuration is refused if and only if some route has an unknown action, and such a route is named |
| `Policy.FallbackExactly` | internal/policy/policy.go:93-101 | exactly the routes with the prefix "" or "/" are left out of the table, and one of them is the default |
| `Policy.Match` | internal/policy/policy.go:109-119 | the first route of the table that matches, else the default |
| `Policy.MatchesExactly` | internal/policy/policy.go:121-133 | trailing slashes aside, a prefix matches itself and what continues it after a slash |
| `Policy.AnswerIsARoute` | internal/policy/policy.go:104-119 | a non-default route answers if and only if one matches, the default only when none does, and nothing only without a default |
| `Policy.LongestPrefixWins` | internal/policy/policy.go:104-133 | with at most one trailing slash per prefix the answer has the longest trimmed prefix of all matching routes |
| `Policy.LongestExactly` | internal/policy/policy.go:71-133 | a table finds the longest prefix on every path if and only if each route that precedes one nested under it is itself preceded by an equivalent of the nested one |
| `Policy.LongestConfiguredExactly` | internal/policy/policy.go:71-133 | on the configuration itself: every path gets its longest prefix if and only if whenever a route sorts before one nested under it, some configured route with the nested prefix sorts before both |
| `Policy.TrailingSlashesOvertake` | internal/policy/policy.go:79-133 | a configuration in which a shorter prefix wins |
| `Policy.ConfigurationOrderIrrelevant` | internal/policy/policy.go:71-102 | with pairwise distinct prefixes any order of the configuration builds the same table |
| `Policy.FirstConfiguredWins` | internal/policy/policy.go:79-101 | among routes with one prefix the first configured answers; the sort is stable |
| `Multipart.ParseMultipart` | internal/intercept/multipart.go:59-95 | either every part, with the bytes read under the cap and numbered in order, and below the largest cap complete and within it, or the error of the first item that cannot be accepted |
| `Multipart.ReadsAsPromisedExactly` | internal/intercept/body.go:20-38 | for every 64-bit cap: every source is read whole, refused as too large or failed as the cap and the source demand if and only if the cap is not 2^63-1 |
| `Multipart.LargestCapReadsNothing` | internal/intercept/body.go:28-37 | under the cap 2^63-1 every source, whatever its length, reads as empty without an error |
| `Multipart.Serialize` | internal/intercept/multipart.go:103-139 | in-place ordering by index, the three index errors, and the error of a boundary the writer does not take, in that order |
| `Multipart.WriteExactly` | internal/intercept/multipart.go:127-136 | a part is written with its body and its header, in which only a Content-Length that is there changes, to digits that read back as the size of the body |
| `Multipart.SerializeExactly` | internal/intercept/multipart.go:103-126 | succeeds if and only if the indices are a permutation of 0..n-1 and the boundary is taken, then writes every part at its index; the boundary is refused only after the indices pass, and the missing-index branch is never taken |
| `Multipart.OrderInMemoryIrrelevant` | internal/intercept/multipart.go:104-116 | any rearrangement of the parts serializes to the same pieces |
| `Multipart.NumberedSerializes` | internal/intercept/multipart.go:59-139 | parts as numbered by parsing serialize, in that order, if and only if the boundary is taken; no index error is given |
| `Summary.UnionSorted` | internal/proxy/handler.go:132-158 | the union as computed, early returns included |
| `Summary.UnionMeans` | internal/proxy/handler.go:132-158 | of tidy lists: the sorted, duplicate-free list of all labels of either |
| `Summary.MergeCommutes` | internal/proxy/handler.go:125-130 | merging tidy summaries is commutative |
| `Summary.MergeAssociates` | internal/proxy/handler.go:125-130 | merging tidy summaries is associative |
| `Summary.MergeIdentity` | internal/proxy/handler.go:125-158 | the empty summary is neutral on either side |
| `Summary.MergedAllMeans` | internal/proxy/handler.go:222-225 | the merged summary counts the sum and lists exactly the labels that occur, sorted and once |
| `Summary.MergeOrderIrrelevant` | internal/proxy/handler.go:222-225 | merging in any order gives the same summary |
| `Metrics.Metrics.IncUploadsBlocked` | internal/metrics/metrics.go:124-132 | adds one to the total and, for a valid reason, one to its counter and no other |
| `Metrics.AttributedExactly` | internal/metrics/metrics.go:124-132 | every reason has a counter of its own, and attributing a block adds one to it and to no other |
| `Metrics.Metrics.AddRegionsMasked` | internal/metrics/metrics.go:142-148 | adds a positive count and nothing else |
| `Metrics.StepKeepsInv` | internal/metrics/metrics.go:67-148 | every single addition of every call keeps each counter equal to what it is meant to count over the calls |
| `Metrics.BreakdownLags` | internal/metrics/metrics.go:118-132 | in every state the total exceeds the breakdown by the calls between the two additions and the blocks without a reason |
| `Metrics.BreakdownSumsExactly` | internal/metrics/metrics.go:118-132 | the breakdown sums to the total if and only if there is no such call |
| `Metrics.BreakdownCanLag` | internal/metrics/metrics.go:76-78 | a reachable state in which the breakdown is smaller than the total |
| `Metrics.QuietBalances` | internal/metrics/metrics.go:67-148 | with no call in progress: breakdown = blocked, processed = blocked + forwarded, regions masked = the box counts of forwarded items |
| `Sanitize.RunDetectors` | internal/proxy/sanitize.go:254-285 | the union of clipped regions with the sorted distinct categories, or the first detector's failure or cancellation |
| `Sanitize.DetectedJoin` | internal/proxy/sanitize.go:258-275 | the regions of each further detector follow those before it |
| `Sanitize.ClippedExactly` | internal/proxy/sanitize.go:265-275 | each region keeps its label and the part of its rectangle inside the picture, and is left out if there is none |
| `Sanitize.HandlePass` | internal/proxy/sanitize.go:154-185 | the verdict of a pass route, strip and audit failures included |
| `Sanitize.HandleMask` | internal/proxy/sanitize.go:189-248 | the verdict of a masking route through decode, detect, mask, encode and audit, with the counters it adds |
| `Sanitize.SanitizeImage` | internal/proxy/sanitize.go:122-142 | the verdict for every action, counted as processed, and as blocked under its reason exactly when it refuses |
| `Sanitize.CategoriesMeans` | internal/proxy/sanitize.go:274-284 | the categories are the nonempty labels of the regions, sorted and once each |
| `Sanitize.EntryExactly` | internal/proxy/sanitize.go:287-301 | the audit entry names the route, the nonempty labels of the regions in order, all their rectangles, and the bytes that go on |
| `Sanitize.CountedExactly` | internal/proxy/sanitize.go:122-142 | what a call adds, counter by counter |
| `Sanitize.CallFollowsProtocol` | internal/proxy/sanitize.go:122-142 | the additions of a call are steps of the counter protocol and end it with the box count it returns |
| `EndToEnd.ItemFailsClosed` | internal/proxy/sanitize.go:112-142 | for any codecs, detectors, encoder and audit log: an item that goes on is clean, or the route fails open and it goes on untouched |
| `EndToEnd.FailClosedPassesExactly` | internal/proxy/sanitize.go:189-248 | a masking route that does not fail open lets an item through if and only if it is no image, or it was decoded, searched by every detector, masked, encoded and the entry for that redaction was written |
| `EndToEnd.ImageIsLogged` | internal/proxy/sanitize.go:154-248 | an image goes on with an audit entry for exactly the bytes that go on, or untouched on a route that fails open |
| `EndToEnd.DecodableIsRedacted` | internal/proxy/sanitize.go:189-248 | bytes a decoder would take never pass a masking route unredacted |
| `EndToEnd.UndecodableIsBlocked` | internal/proxy/sanitize.go:197-201 | an image in a format that cannot be decoded is blocked on a masking route |
| `EndToEnd.ImageExactly` | internal/imageproc/decode.go:76-105 | on literal bytes: what counts as an image |
| `EndToEnd.ForeignIsBlocked` | internal/proxy/sanitize.go:197-201 | on literal bytes: a GIF, WebP, BMP or TIFF is blocked as an unsupported format on every masking route that does not fail open |
| `EndToEnd.NonImageGoesOn` | internal/proxy/sanitize.go:189-195 | on literal bytes: what opens as none of the six formats passes a masking route verbatim |
| `EndToEnd.PassExactly` | internal/proxy/sanitize.go:154-181 | a pass route lets an image on with these bytes, logged, if and only if they are its own where no stripping is asked for, or what the stripper of its format gives, and the entry was written |
| `EndToEnd.PassRefusals` | internal/proxy/sanitize.go:154-181 | otherwise it is blocked for the step that failed, or goes on untouched on a route that fails open |
| `EndToEnd.PassNonImage` | internal/proxy/sanitize.go:183-185 | on a pass route what is no image always goes on verbatim |
| `EndToEnd.DropAndUnknown` | internal/proxy/sanitize.go:132-141 | a drop route drops everything, and an unknown action fails closed |
| `EndToEnd.BlameExactly` | internal/proxy/sanitize.go:196-218 | which reason an image is blocked for while it is decoded and searched |
| `EndToEnd.LateBlameExactly` | internal/proxy/sanitize.go:220-248 | and while it is encoded and logged |
| `EndToEnd.MaskedReports` | internal/proxy/sanitize.go:246-248 | a redacted image is reported with one box per detected region and exactly their nonempty labels, sorted and once each |
| `EndToEnd.DetectionExactly` | internal/proxy/sanitize.go:254-285 | detection yields regions if and only if every detector is configured and reports, and stops if and only if one answers canceled after all earlier ones reported |
| `EndToEnd.CancellationBlocks` | internal/proxy/sanitize.go:211-218 | on a masking route, failing open or not, the verdict is blocked for cancellation if and only if the item is an image that decodes and the first detector that does not report answers that it was canceled |
| `EndToEnd.FailOpenBlocksExactly` | internal/proxy/sanitize.go:189-248 | a fail-open masking route blocks an item if and only if its detection was canceled |
| `EndToEnd.BlocksAreAttributed` | internal/proxy/sanitize.go:303-313 | every block names a valid reason, and a fail-open route blocks only on cancellation |
| `EndToEnd.PassedImageIsStripped` | internal/proxy/sanitize.go:144-185 | an image forwarded by a stripping pass route is either a JPEG, and what goes on opens with SOI and reads as segments without APP1, APP13 or COM, or a PNG, and what goes on opens with the signature and reads as allowlisted chunks |
| `EndToEnd.DetectedCovers` | internal/proxy/sanitize.go:254-285 | the union of detections covers a pixel if and only if some configured detector reports it |
| `EndToEnd.RedactedPixel` | internal/proxy/sanitize.go:220-231 | on a redact route a pixel of the encoded picture is opaque black if and only if reported, else the source pixel |
| `EndToEnd.BlurredOutside` | internal/proxy/sanitize.go:220-231 | on a blur route unreported pixels equal the source |
| `EndToEnd.BlurRouteBlurs` | internal/proxy/sanitize.go:220-231 | a blur route blurs every detected region in turn with the configured radius |
| `EndToEnd.AskMarker` | internal/detect/region.go:35-132 | the region-marker detector answers as the end-to-end theorem asks of its registry entry |
| `EndToEnd.MarkersAreInked` | internal/proxy/sanitize.go:189-248 | end to end: every marker-coloured pixel is opaque black in the encoded picture, and nothing outside the detected regions changed |
| `Handler.IsFormatAllowed` | internal/proxy/handler.go:372-393 | the accepted-formats check, jpg read as jpeg, empty list allowing all |
| `Handler.AllowedExactly` | internal/proxy/handler.go:370-401 | which formats a list accepts, by name: case and space around a name do not matter, and jpg is jpeg |
| `Handler.SanitizeItem` | internal/proxy/handler.go:259-289 | the outcome of one item: format check, pool slot, sanitizer, in that order |
| `Handler.RefusedExactly` | internal/proxy/handler.go:259-289 | why an item is refused, in the order of the checks |
| `Handler.ForeignIsRefused` | internal/proxy/handler.go:259-289 | a GIF, WebP, BMP or TIFF never passes a masking route that does not fail open |
| `Handler.PassItemExactly` | internal/proxy/handler.go:259-289 | when a pass route lets an item through, and as what |
| `Handler.InfoExactly` | internal/proxy/handler.go:284-288 | what an item adds to the summary |
| `Handler.Gather` | internal/proxy/handler.go:197-213 | whatever the order of the goroutines' writes, each result slice ends up holding the results by index |
| `Handler.ProcessParts` | internal/proxy/handler.go:197-237 | for every schedule: all bodies in order with the merged summary, the lowest-index refusal, or a block when the boundary cannot be written; none of the three index errors is ever given |
| `Handler.ProcessMultipart` | internal/proxy/handler.go:188-237 | the same after reading the parts under the cap |
| `Handler.ProcessRaw` | internal/proxy/handler.go:239-254 | the answer for a single body |
| `Handler.ScheduleIrrelevant` | internal/proxy/handler.go:197-225 | the answer to a set of parts is unique, so no schedule can change it |
| `Handler.ForwardedExactly` | internal/proxy/handler.go:188-237 | a form reaches the origin if and only if every part is read and passes and its boundary can be written: one refusal keeps all of it back |
| `Handler.FirstRefusalDecides` | internal/proxy/handler.go:215-220 | of several refused parts the first in the form decides the answer |
| `Handler.ForeignKeepsFormBack` | internal/proxy/handler.go:188-237 | one GIF, WebP, BMP or TIFF keeps a form from the origin on a masking route that does not fail open |
| `Handler.RefusedBoundaryBlocks` | internal/proxy/handler.go:232-235 | a form whose parts all pass but whose boundary the writer does not take is blocked |
| `Handler.MultipartFailsClosed` | internal/proxy/handler.go:184-237 | a forwarded form has the parts of the request, in order, with their headers; every body is clean for the bytes read (or those bytes, on a fail-open route), every image on another route was logged, and below the cap 2^63-1 the bytes read are all of the part |
| `Handler.RawFailsClosed` | internal/proxy/handler.go:239-254 | the same for a single body, which was within the cap |
| `Handler.ForwardedMarkersAreInked` | internal/proxy/handler.go:184-237 | in a forwarded form every part read as an image has its marker-coloured pixels opaque black and is unchanged outside the detected regions; below the cap 2^63-1 that part was read whole |
| `Handler.CancellationRefuses` | internal/proxy/handler.go:188-220 | on any masking route one part whose detection was canceled keeps the whole upload from the origin |
| `Handler.FailOpenFormRefusedExactly` | internal/proxy/handler.go:188-289 | on a fail-open masking route a form is kept back if and only if a part cannot be read under the cap, is an image in an unaccepted format, got no slot or had its detection canceled, or the boundary cannot be written |
| `Handler.FailOpenRawRefusedExactly` | internal/proxy/handler.go:239-289 | the same for a single body |
| `Handler.FailClosedFormForwardedExactly` | internal/proxy/handler.go:188-289 | on a masking route that does not fail open a form is forwarded if and only if its boundary can be written and every part is read and is no image, or is in an accepted format, got a slot and was redacted and logged |
| `Handler.FailClosedRawForwardedExactly` | internal/proxy/handler.go:239-289 | the same for a single body |
| `Handler.PassFormForwardedExactly` | internal/proxy/handler.go:188-289 | on a pass route that does not fail open a form is forwarded if and only if its boundary can be written and every part is read and is no image, or is in an accepted format, stripped where that is asked for, and logged |
| `Handler.PassRawForwardedExactly` | internal/proxy/handler.go:239-289 | the same for a single body |
| `Handler.LargestCapEmptiesForms` | internal/intercept/body.go:28-37 | under the cap 2^63-1 a masking or pass route forwards a form if and only if it is framed well and its boundary can be written, and then with every body empty |
| `Handler.LargestCapEmptiesBodies` | internal/intercept/body.go:28-37 | and it forwards every single body as an empty one |
| `Handler.SummaryIsExact` | internal/proxy/handler.go:222-225 | the summary sent counts the masked regions of all parts and lists exactly their labels |
| `Handler.Serve` | internal/proxy/handler.go:96-115 | route, sanitize everything, then contact the origin or answer a status |
| `Handler.StatusExactly` | internal/proxy/handler.go:330-352 | the status a single body is answered with: 413, 415, 503, 422 or 502 |
| `Handler.UnreadFormStatus` | internal/proxy/handler.go:188-196 | the status of a form that cannot be read |
| `Handler.OriginSeesOnlyCleanBytes` | internal/proxy/handler.go:96-115 | the origin is contacted only under a route of the policy and only with bytes that are clean for every item and logged for every image, or, on a route that fails open, clean or untouched |

## Left out

- BlurRegion: the region has fewer than 2^63 pixels, as the code cannot allocate the snapshot of a larger one; then no 32-bit count of a window can wrap to zero before it divides.
- RowsInto: no window count reaches 2^32, which the same bound gives for every region and clamped radius.
- ColsInto: the same, along the columns.
- Apply: a picture without negative sides and, for a blur, with fewer than 2^63 pixels, as the code allocates a copy of it first.
- BlurredPixel: only where no 32-bit sum can wrap; `Blur.AccurateExactly` shows that the condition is exact.
- BlurredPixelRange: under the condition of BlurredPixel.
- CappedBlurIsAccurate: under the stated pixel bound, which the default cap of 40,000,000 is far below.
- SanitizeImage: decoded pictures are well formed with sides below 2^31, as the headers of PNG (31 bits) and JPEG (16 bits) allow; the theorems about it assume the same, and nothing about the pixel cap.
- HandleMask: the same assumption on decoded pictures.
- SanitizeItem: the same assumption on decoded pictures.
- ProcessParts: the same assumption on decoded pictures.
- ProcessMultipart: the same assumption on decoded pictures.
- ProcessRaw: the same assumption on decoded pictures.
- Serve: the same assumption on decoded pictures.
- DecodedWithinCap: the header's width and height are machine-sized; a header that names neither JPEG nor PNG is not compared with the picture, and `Decode.UncomparedOvershoots` shows what that lets through.
- IncUploadsBlocked: counters are unbounded; wrap-around after 2^64 additions is not modelled, and neither is the nil receiver.
- MarkerDetector.Detect: the Confidence field of a region is the constant 1 and is never read, so regions do not carry it; the conversion of a pixel to 8-bit RGBA belongs to the image library.
- Serialize: which boundaries the writer takes is an arbitrary predicate: that rule belongs to mime/multipart, as do the boundary lines and header framing. A part is written as its header (Content-Length recomputed) and body.
- New: route settings other than prefix and action are carried but not interpreted; configuration defaults and validation are in internal/config.
- ConcurrencyBounded: timeouts, context cancellation and scheduling are nondeterministic steps; no fairness or duration is claimed.
- JPEG and PNG decoding and encoding, colour conversion, OCR, regular expressions and hashing: arbitrary functions or not part of this model.
- Order-independence and idempotence of blur: not true for overlapping regions.
- Metadata behind the first SOS marker of a JPEG: copied verbatim by the code, so nothing is claimed about it.
- ServeHTTP path cleaning, header copying, forwarding and response relaying in internal/proxy/handler.go; contacting the origin is one event that carries the sanitized body.
- The OCR call of the text detector and its cancellation check: its boxes are an input.
- internal/audit, internal/config, the admin server, the command line, the Prometheus text format and the ML stubs: wiring or easy properties.
