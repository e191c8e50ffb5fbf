# PS2MapTool in Dafny

A model of the tile-stitching and no-deploy-zone core of PS2MapTool. This C#
tool set collects the map tiles of the game PlanetSide 2 and assembles them into
one square image per world and level of detail (LOD). It also draws the
no-deploy zones found in a world's `Areas.xml` file.

The model follows the source's structure, one Dafny module per source file:

- **Tile names.** Each of the four parsers of tile names:
  - `TileHelpers` (the world name, the `Tile` marker, X, Y, the LOD and the extension);
  - `TileDataSource`;
  - `TileInfo`;
  - the `Tile` records of `PS2MapTool`, `PS2MapTools` and `PS2MapTool.Cli` (`MapToolTile`, `MapToolsTile`, `CliTile`).

  Shared string machinery lives in `Text`, `FilePaths` and `TileNames`:
  - `Split`/`Join`;
  - `Array.IndexOf`;
  - `int.TryParse` over 32-bit integers;
  - `Path.GetFileName` and `Path.GetFileNameWithoutExtension`, with the Windows path convention: both `/` and `\` separate directories (on Linux .NET treats `\` as an ordinary character).

  `Enums` models `Enum.TryParse` and `Enum.ToString` over a table of member names.
- **Buckets.** Grouping tiles by world and LOD:
  - `TileBucket`, `WorldLodBucket` and `CliWorldLodBucket`;
  - the grouping loops of `StitchService`, `StitchCommand` and `MapBuilder` (PS2MapBuilder's `Program`).

  Each of them, filled from a list of tiles, is proved equal to one reference definition, `Grouping.Group`, applied to the tiles its filters admit. Its contents are `Grouping.Select`, the order-preserving filter.
- **Stitching.** The canvas layout of `TileStitchService`, `ImageStitchService` and `StitchService`, built on `Layout`:
  - the integer square root `(int)Math.Sqrt`;
  - the stable LINQ sort by two keys;
  - the cursor walk that places tile `i` at column `i mod k`, row `i div k`.
- **Loaders.**
  - The magic-number sniffers for DDS and PNG, on a buffer (`BufferSniff`) or on a seekable stream (`StreamSniff`).
  - Stride compaction of decoded DDS rows (`Stride`).
  - The loader and processor repositories.
  - The data loaders: directory based (`DirectoryDataLoader`, `CoreDirectoryDataLoader`, with the recursive file search `DirectoryTree`) and pack based (`PackDataLoader`, with the LOD tile grid and its name hashes).
- **Areas.** The XML scan of `AreasService`/`AreaService` for no-deploy zones (`NoDeployAreas`), and the overlay size.
- **Validators.** The command-line validators for parallelism and LOD numbers.

Abstractions, all given as parameters:
- File-system facts: directory existence, enumerated files, the directory tree, whether optipng is present.
- `Path.Combine` and `Path.GetDirectoryName`.
- The `PackCrc64` name hash.
- Float parsing.
- The cancellation token, given as the state seen at the `i`-th check.

Streams are sequences of bytes with a position. An XML document is the sequence of nodes its reader yields.

## Model

| member | source | states |
|---|---|---|
| TileHelpers.TryParseName | PS2MapTool/Tiles/TileHelpers.cs:8-56 | a name without exactly one dot is rejected with every out value at its default; an accepted name has a `Tile` component, 32-bit X and Y and a defined LOD, and the extension is the part after the dot |
| TileHelpers.ParseFullName | PS2MapTool/Tiles/TileHelpers.cs:25-53 | any name built from underscore-free tokens, the `Tile` marker, two integers, a LOD name and an extension parses back to exactly those parts |
| TileHelpers.ParsedNameIsFullName | PS2MapTool/Tiles/TileHelpers.cs:25-53 | conversely, every accepted name is such a composition of the returned world name, coordinates, LOD and extension |
| TileHelpers.ParseFormatted | PS2MapTool/Tiles/TileHelpers.cs:8-56 | a name printed from a world, two 32-bit coordinates, a LOD name in any ASCII case and an extension parses back to the same world, coordinates and LOD |
| TileDataSource.TryParseName | PS2MapTool/Tiles/TileDataSource.cs:38-73 | as written: on success the world name is the whole part before the dot, with no stream attached and not disposed |
| TileDataSource.WorldNameIsWholeStem | PS2MapTool/Tiles/TileDataSource.cs:69 | for every well-formed tile name the written parser's world name is the entire stem, which differs from the world prefix that the corrected parser returns |
| TileDataSource.TryParseNameCorrected | PS2MapTool/Tiles/TileDataSource.cs:38-73 | the intended parse: the same acceptance, with the world name the components before `Tile` |
| TileDataSource.CorrectedParseIsFullName | PS2MapTool/Tiles/TileDataSource.cs:41-70 | every name the corrected parser accepts is the composition of its world name, coordinates, LOD and extension |
| TileDataSource.ReparseSwapsAxes | PS2MapTool/Tiles/TileDataSource.cs:75-76 | `ToString` prints Y before X, so the corrected parser (`TryParseNameCorrected`) reads a printed source (plus an extension) back with X and Y swapped |
| TileDataSource.Dispose | PS2MapTool/Tiles/TileDataSource.cs:79-100 | the first dispose releases the data owner once, or throws a null reference when none was set; later disposes release nothing |
| TileDataSource.DisposeIdempotent | PS2MapTool/Tiles/TileDataSource.cs:89-100 | disposing twice releases nothing the second time |
| TileInfo.Construct | PS2MapTool/Tiles/TileInfo.cs:55-62 | as written: the extension argument is dropped, and the tile differs from the corrected constructor's only there |
| TileInfo.ConstructCorrected | PS2MapTool/Tiles/TileInfo.cs:55-62 | the intended constructor keeps every argument and starts undisposed |
| TileInfo.ParseWith | PS2MapTool/Tiles/TileInfo.cs:71-110 | a non-seekable stream is an argument error; an accepted tile carries the parsed world, coordinates and LOD and the stream |
| TileInfo.TryParse | PS2MapTool/Tiles/TileInfo.cs:71-110 | as written: argument error exactly on a non-seekable stream; a parsed tile never carries an extension |
| TileInfo.TryParseCorrected | PS2MapTool/Tiles/TileInfo.cs:71-110 | the corrected parse keeps the name's extension |
| TileInfo.Extension | PS2MapTool/Tiles/TileInfo.cs:77-80 | a name has an extension exactly when it has one dot, and the extension holds no dot |
| TileInfo.ParseStem | PS2MapTool/Tiles/TileInfo.cs:83-107 | a stem of world, `Tile`, X, Y and LOD, with or without an extension, parses to exactly those enum values and coordinates |
| TileInfo.ParsedIsStem | PS2MapTool/Tiles/TileInfo.cs:83-107 | every accepted name is such a stem of the parsed fields |
| TileInfo.ReparseSwapsAxes | PS2MapTool/Tiles/TileInfo.cs:112-115 | reparsing `ToString` returns X and Y swapped |
| TileInfo.Dispose | PS2MapTool/Tiles/TileInfo.cs:117-135 | the stream is released on the first dispose only |
| TileInfo.DisposeIdempotent | PS2MapTool/Tiles/TileInfo.cs:124-135 | two disposes release the stream at most once |
| MapToolTile.TryParse | PS2MapTool/Tile.cs:11-35 | an accepted path gives a tile with that path, 32-bit coordinates, and world and LOD without underscores |
| MapToolTile.ParsePath | PS2MapTool/Tile.cs:11-35 | a path whose file name is `world_Tile_x_y_lod.ext` parses to exactly those parts |
| MapToolTile.WorldWithUnderscoreRejected | PS2MapTool/Tile.cs:14-17 | a world name containing `_` makes the name split into too many parts, and the path is rejected |
| MapToolTile.ParsedIsPrintedStem | PS2MapTool/Tile.cs:11-35 | every accepted path's stem is the parsed fields joined in order |
| MapToolTile.ReparseSwapsAxes | PS2MapTool/Tile.cs:37-40 | a file named after `ToString` parses back with X and Y swapped |
| MapToolsTile.TryParse | PS2MapTools/Tile.cs:11-35 | an accepted path gives a tile with that path, 32-bit coordinates and underscore-free names |
| MapToolsTile.ParsePath | PS2MapTools/Tile.cs:11-35 | a well-formed tile path parses to exactly its parts |
| MapToolsTile.AgreesWithMapTool | PS2MapTools/Tile.cs:11-35 | this parser accepts exactly the paths the PS2MapTool one accepts, with the same fields |
| CliTile.TryParse | PS2MapTool.Cli/Tile.cs:15-45 | an accepted path has world and LOD names that are enum members (case-sensitive) and 32-bit coordinates |
| CliTile.ParsePath | PS2MapTool.Cli/Tile.cs:15-45 | a path built from enum member names and two integers parses to those members and integers |
| CliTile.ParsedIsPrintedStem | PS2MapTool.Cli/Tile.cs:15-45 | every accepted stem is the member names and coordinates joined in order |
| CliTile.ReparseSwapsAxes | PS2MapTool.Cli/Tile.cs:47-50 | reparsing `ToString` returns X and Y swapped |
| Grouping.AppendTiles | PS2MapTool/Tiles/TileBucket.cs:28-36 | adding a tile appends it to its own world and LOD list, creates the keys when missing, and changes no other list |
| Grouping.AppendWellFormed | PS2MapTool/Tiles/TileBucket.cs:26-38 | appending keeps every list non-empty and every tile under its own world and LOD |
| Grouping.GroupWellFormed | PS2MapTool/Tiles/TileBucket.cs:26-38 | the bucket built from any tile sequence has no empty entry and keeps every tile under its own world and LOD |
| Grouping.GroupSelects | PS2MapTool/Tiles/TileBucket.cs:59-68 | the list under world `w`, LOD `l` is exactly the tiles with that world and LOD, in input order |
| Grouping.GroupWorlds | PS2MapTool/Tiles/TileBucket.cs:44 | a world is a key exactly when some tile has it |
| Grouping.GroupContains | PS2MapTool/Tiles/TileBucket.cs:59-68 | every input tile is in its own group |
| Grouping.GetTiles | PS2MapTool/Tiles/TileBucket.cs:59-68 | an unknown world or LOD is an argument error; otherwise the result is the group's list |
| Grouping.GetLods | PS2MapTool/Tiles/TileBucket.cs:51 | the LODs of a known world are exactly those with a list; an unknown world has none |
| Grouping.GroupLookup | PS2MapTool/Tiles/TileBucket.cs:51-68 | looking up a grouped sequence finds exactly the selected tiles, or reports the missing key |
| TileBucket.AddLodTile | PS2MapTool/Tiles/TileBucket.cs:26-38 | always returns true, appends the tile to its world and LOD list, leaves the others alone and keeps the bucket well formed |
| TileBucket.AddAll | PS2MapTool/Tiles/TileBucket.cs:26-38 | adding tiles one by one leaves a well-formed bucket |
| TileBucket.AddAllGroups | PS2MapTool/Tiles/TileBucket.cs:26-38 | adding one by one equals the reference grouping |
| TileBucket.AddAllContents | PS2MapTool/Tiles/TileBucket.cs:44-68 | worlds and looked-up lists of a filled bucket are exactly those of the added tiles |
| WorldLodBucket.Create | PS2MapTool/Models/WorldLodBucket.cs:18-24 | a new bucket is empty and keeps both filters |
| WorldLodBucket.AddLodTile | PS2MapTool/Models/WorldLodBucket.cs:31-51 | a tile is added exactly when both filters admit it, to its own list only; a refused tile changes nothing |
| WorldLodBucket.AddAll | PS2MapTool/Models/WorldLodBucket.cs:31-51 | adding tiles never changes the filters |
| WorldLodBucket.Admitted | PS2MapTool/Models/WorldLodBucket.cs:34-41 | the admitted tiles all pass both filters |
| WorldLodBucket.AddAllGroupsAdmitted | PS2MapTool/Models/WorldLodBucket.cs:31-51 | filling a bucket groups exactly the admitted tiles |
| WorldLodBucket.AdmittedSelect | PS2MapTool/Models/WorldLodBucket.cs:72-81 | the admitted tiles of one world and LOD are all of the input's, or none if a filter refuses that pair |
| WorldLodBucket.FilledContents | PS2MapTool/Models/WorldLodBucket.cs:57-81 | a filled bucket's list for a pair is the input's tiles of that pair when both filters admit it, and empty otherwise |
| CliWorldLodBucket.Create | PS2MapTool.Cli/Models/WorldLodBucket.cs:18-24 | with no filter, every enum member is included; otherwise exactly the given values are |
| CliWorldLodBucket.AddLodTile | PS2MapTool.Cli/Models/WorldLodBucket.cs:31-51 | a tile is added exactly when its world and LOD are included, to its own list only |
| CliWorldLodBucket.AddAll | PS2MapTool.Cli/Models/WorldLodBucket.cs:31-51 | adding tiles one by one never changes the include lists |
| CliWorldLodBucket.Admitted | PS2MapTool.Cli/Models/WorldLodBucket.cs:33-39 | every admitted tile's world and LOD are in the include lists |
| CliWorldLodBucket.AddAllGroupsAdmitted | PS2MapTool.Cli/Models/WorldLodBucket.cs:18-51 | a new bucket filled one tile at a time equals `Grouping.Group` of the tiles the include lists admit |
| CliWorldLodBucket.AdmittedSelect | PS2MapTool.Cli/Models/WorldLodBucket.cs:33-49 | a pair outside the include lists receives no tiles; one inside receives all the input's tiles of that pair, in order |
| CliWorldLodBucket.FilledContents | PS2MapTool.Cli/Models/WorldLodBucket.cs:57-81 | `GetWorlds` of a filled bucket is the worlds of admitted tiles; `GetTiles` throws for an unknown world or LOD and otherwise returns that pair's tiles |
| CliWorldLodBucket.AdmittedEvery | PS2MapTool.Cli/Models/WorldLodBucket.cs:33-39 | tiles whose world and LOD are all listed are all admitted |
| CliWorldLodBucket.UnfilteredGroupsAll | PS2MapTool.Cli/Models/WorldLodBucket.cs:18-24 | without filters every enum member is included, so tiles of defined values, as the CLI parser yields them, are all grouped |
| Layout.FloorSqrt | PS2MapTool/Services/StitchService.cs:88-90 | the tile-count root `r` satisfies `r*r <= n < (r+1)*(r+1)` |
| Layout.FloorSqrtUnique | PS2MapTool/Services/StitchService.cs:88-90 | any `r` with that bracket is the computed root |
| Layout.SquareOf | PS2MapTool/Services/StitchService.cs:88-90 | the root of `k*k` is `k`, and `k*k` passes the squareness check |
| Layout.Cell | PS2MapTool/Tiles/Services/TileStitchService.cs:61-68 | tile `i` goes to column `c.0 < k` and row `c.1` with `i == c.1*k + c.0` |
| Layout.CellRoundTrip | PS2MapTool/Tiles/Services/TileStitchService.cs:61-68 | cells and indices convert into each other both ways, and an index is inside the square exactly when its row is |
| Layout.SortByIsStableSort | PS2MapTool/Services/StitchService.cs:85 | the ordering is sorted by its two keys, is a permutation, and keeps the input order among equal keys |
| Layout.SortBySorted | PS2MapTool/Services/StitchService.cs:85 | an already ordered sequence is left unchanged |
| Layout.CellStep | PS2MapTool/Tiles/Services/TileStitchService.cs:61-68 | the cursor moves one column right, or wraps to column 0 of the next row at the edge |
| Layout.Draw | PS2MapTool/Services/ImageStitchService.cs:44-61 | every tile is drawn at its cell exactly when the count is at most `k*k` and every tile loads with the token clear; otherwise the pass stops at the first tile that fails to load, at tile `k*k` whose draw misses the canvas (exactly when all earlier tiles passed and it loads), or at the first tile after which the token is set |
| Layout.OverlapsExactly | PS2MapTool/Services/ImageStitchService.cs:50-57 | the cursor's `i`-th position meets the `k*256` canvas exactly when `i < k*k`, so `DrawImage` refuses tile `k*k` |
| Layout.PositionBounds | PS2MapTool/Tiles/Services/TileStitchService.cs:61-68 | a placement lies inside the `k*256` canvas exactly when its index is below `k*k` |
| Layout.GridCovered | PS2MapTool/Tiles/Services/TileStitchService.cs:61-68 | the first `k*k` placements are pairwise distinct and cover every cell of the canvas |
| Layout.Finish | PS2MapTool/Services/ImageStitchService.cs:36-66 | a completed pass yields a canvas of side `k*256`; a failed one yields its error (no processor, draw off the canvas, cancellation) at its index |
| Layout.SquareOnCanvas | PS2MapTool/Tiles/Services/TileStitchService.cs:40-68 | with a square count every placement is on the canvas |
| TileStitchService.StitchAsync | PS2MapTool/Tiles/Services/TileStitchService.cs:36-75 | a non-square count is refused before any drawing; an empty list passes that check but fails at the 0 x 0 canvas; otherwise the result is stitched exactly when every tile, in Y-then-X order, has a loader and the token stays clear, with each tile at its cell; no tile is ever drawn off the canvas; a failure is reported at the first tile that lacks a loader or sees the token set |
| TileStitchService.StitchedFillsCanvas | PS2MapTool/Tiles/Services/TileStitchService.cs:40-68 | a stitched result covers the canvas exactly once |
| TileStitchService.OrderedRows | PS2MapTool/Tiles/Services/TileStitchService.cs:38 | the drawing order is a stable permutation sorted by Y, then X |
| ImageStitchService.StitchTilesAsync | PS2MapTool/Services/ImageStitchService.cs:34-66 | as written: no squareness check; an empty list fails at the 0 x 0 canvas; the result is stitched exactly when the count is a non-zero square and every tile has a processor with the token clear; a non-square count ends in the draw fault at tile `k*k` exactly when that tile and all before it have processors and no earlier token check fired; any other failure is at the first tile without a processor or with the token set |
| ImageStitchService.TwoTilesFault | PS2MapTool/Services/ImageStitchService.cs:39-57 | as written, two tiles with processors and a clear token end in the draw fault at the second tile |
| ImageStitchService.StitchTilesChecked | PS2MapTool/Services/ImageStitchService.cs:34-66 | corrected: a non-square count is refused, an empty list fails at the canvas, no draw ever misses the canvas, a square count is stitched exactly when every tile has a processor with the token clear, and every drawn tile lies on the canvas |
| ImageStitchService.OrderedColumns | PS2MapTool/Services/ImageStitchService.cs:36 | the drawing order is a stable permutation sorted by X, then Y |
| StitchService.NormaliseLods | PS2MapTool/Services/StitchService.cs:41-42 | each LOD number becomes `"LOD"` followed by its decimal digits |
| StitchService.ParsedPaths | PS2MapTool/Services/StitchService.cs:44-50 | every kept tile is the parse of its own path |
| StitchService.GenerateTileBuckets | PS2MapTool/Services/StitchService.cs:39-53 | the bucket keeps both filters and groups exactly the parsed tiles that pass them |
| StitchService.LodFilterSpelling | PS2MapTool/Services/StitchService.cs:41-42 | a LOD name passes the numeric filter exactly when it spells one of the numbers |
| StitchService.StitchTiles | PS2MapTool/Services/StitchService.cs:78-135 | an empty list faults; there is no squareness check, so a non-square count never completes: it faults at the draw of tile `k*k` unless an earlier load fault or token check ends it; a square count completes exactly when every tile loads and the token stays clear; the task is cancelled exactly when the token check after some tile below `k*k` fires while every earlier tile loaded with the token clear and that tile loaded, and it faults in every other case; the callback fires exactly on completion with the output file |
| StitchService.Jobs | PS2MapTool/Services/StitchService.cs:61-70 | one stitch job per world and LOD pair the bucket holds |
| StitchService.JobsNonEmpty | PS2MapTool/Services/StitchService.cs:61-70 | each job's list is non-empty and holds only tiles of its pair |
| Magic.SignaturesDistinct | PS2MapTool/Services/DdsTileLoaderService.cs:18 | neither signature has a zero byte, and no data starts with both |
| BufferSniff.Scan | PS2MapTool/Tiles/Services/DdsTileLoaderService.cs:25-31 | the byte loop accepts exactly data starting with the magic, and throws index-out-of-range exactly on a proper prefix of it |
| BufferSniff.CanLoad | PS2MapTool/Tiles/Services/DdsTileLoaderService.cs:21-32 | the same, for the whole loop |
| BufferSniff.CanLoadDds | PS2MapTool/Tiles/Services/DdsTileLoaderService.cs:21-32 | accepts exactly data beginning with `44 44 53 20`; throws on a shorter prefix of it |
| BufferSniff.CanLoadPng | PS2MapTool/Tiles/Services/PngTileLoaderService.cs:17-28 | accepts exactly data beginning with the eight PNG signature bytes; throws on a shorter prefix of them |
| BufferSniff.ShortDataThrows | PS2MapTool/Tiles/Services/DdsTileLoaderService.cs:25-29 | empty data and short signature prefixes throw |
| BufferSniff.CanLoadChecked | PS2MapTool/Tiles/Services/DdsTileLoaderService.cs:21-32 | corrected: true exactly when the loop would accept, false on short data |
| BufferSniff.OnlySignatureBytesMatter | PS2MapTool/Tiles/Services/PngTileLoaderService.cs:21-25 | data agreeing on the signature length get the same answer |
| StreamSniff.Read | PS2MapTool/Services/DdsTileLoaderService.cs:29-30 | reads into a zeroed buffer of the requested size the available bytes, advancing the position by their number |
| StreamSniff.SeekBegin | PS2MapTool/Services/DdsTileLoaderService.cs:31 | seeking keeps the data and sets the position |
| StreamSniff.CanLoad | PS2MapTool/Services/DdsTileProcessorService.cs:18-30 | true exactly on a seekable, readable stream whose remaining bytes start with the magic; the position is restored |
| StreamSniff.CanLoadDds | PS2MapTool/Services/DdsTileLoaderService.cs:21-34 | the DDS check, with the stream unchanged |
| StreamSniff.CanLoadPng | PS2MapTool/Services/PngTileLoaderService.cs:18-31 | the PNG check, with the stream unchanged |
| StreamSniff.ShortStreamRefused | PS2MapTool/Services/PngTileProcessorService.cs:17-29 | a stream with fewer bytes left than the signature is refused, since the zero padding never matches |
| StreamSniff.AtMostOneFormat | PS2MapTool/Services/PngTileProcessorService.cs:17-29 | no stream is accepted as both DDS and PNG |
| Stride.Rows | PS2MapTool/Services/DdsTileProcessorService.cs:40-47 | the compacted data has `height * tightStride` bytes |
| Stride.RowsAt | PS2MapTool/Services/DdsTileProcessorService.cs:44-47 | byte `j` of compacted row `i` is byte `i*stride + j` of the source |
| Stride.TightRowsUnchanged | PS2MapTool/Services/DdsTileProcessorService.cs:40-52 | compacting already tight rows returns the data, so the no-copy branch agrees with the copy |
| Stride.RowsPrefix | PS2MapTool/Services/DdsTileLoaderService.cs:56-63 | compaction depends only on the bytes it reads, so extra rented space does not matter |
| Stride.CopyRows | PS2MapTool/Services/DdsTileLoaderService.cs:57-63 | the row loop copies every row when the source holds them, stops at the first cancelled row, or at the first row past the source |
| Stride.BlockCopy | PS2MapTool/Services/DdsTileProcessorService.cs:46 | the copy writes exactly the target range with the source range |
| Stride.Compact | PS2MapTool/Services/DdsTileProcessorService.cs:35-55 | tight data is passed through; otherwise the result is the compacted rows, or an error exactly when the source is too short |
| Stride.CompactCancelable | PS2MapTool/Tiles/Services/DdsTileLoaderService.cs:55-70 | tight rows pass through; otherwise the rows are copied exactly when the source holds every row and no row is cancelled; a cancellation is reported at the first cancelled row, and too-short data at the first row past the source with all rows up to it uncancelled |
| Stride.CompactIntoRented | PS2MapTool/Services/DdsTileLoaderService.cs:53-68 | the compacted rows fill the front of the rented array, and the rest of it is left as it was; the copy succeeds exactly when the source holds every row and no row is cancelled, and a cancellation or too-short data is reported at the first failing row, with every earlier row uncancelled |
| Stride.DecoderInput | PS2MapTool/Tiles/Services/DdsTileLoaderService.cs:40-43 | the decoder sees exactly the tile's bytes, however large the rented array |
| TileLoaderRepository.Empty | PS2MapTool/Services/TileLoaderServiceRepository.cs:12-15 | a new repository holds no loaders |
| TileLoaderRepository.Add | PS2MapTool/Services/TileLoaderServiceRepository.cs:17-18 | adding appends, duplicates allowed |
| TileLoaderRepository.FirstAccepting | PS2MapTool/Services/TileLoaderServiceRepository.cs:30-37 | the result is the first accepting position, and none exists exactly when no loader accepts |
| TileLoaderRepository.TryGet | PS2MapTool/Services/TileLoaderServiceRepository.cs:26-40 | finds a loader exactly when one accepts, and returns the earliest added |
| TileLoaderRepository.AddKeepsEarlierMatch | PS2MapTool/Services/TileLoaderServiceRepository.cs:17-40 | adding a loader never changes an existing match, and only the new loader can fill a miss |
| TileLoaderRepository.FirstAcceptingPrefix | PS2MapTool/Services/TileLoaderServiceRepository.cs:30-37 | the first accepting position does not depend on loaders after it |
| TileProcessorRepository.Add | PS2MapTool/Services/TileProcessorServiceRepository.cs:17-23 | adding a registered format throws; otherwise the format maps to the processor and no other changes |
| TileProcessorRepository.Get | PS2MapTool/Services/TileProcessorServiceRepository.cs:25 | found exactly when registered |
| TileProcessorRepository.FirstRegistrationWins | PS2MapTool/Services/TileProcessorServiceRepository.cs:17-25 | a second registration of a format throws and keeps the first; registering another format keeps it too |
| DirectoryTree.Preorder | PS2MapTool/Services/DirectoryDataLoaderService.cs:132-150 | the visiting order starts at the searched directory |
| DirectoryTree.FirstHit | PS2MapTool/Services/DirectoryDataLoaderService.cs:139-147 | the first directory in visiting order holding the file, or none exactly when none holds it |
| DirectoryTree.SearchFindsFirst | PS2MapTool/Services/DirectoryDataLoaderService.cs:132-150 | the recursive search returns the first hit in visiting order if the token was clear when it got there, and null otherwise |
| DirectoryTree.SearchAllFindsFirst | PS2MapTool/Services/DirectoryDataLoaderService.cs:142-147 | the subdirectory loop returns the first hit of the subtrees in order |
| DirectoryTree.UncancelledSearch | PS2MapTool.Core/Services/DirectoryDataLoaderService.cs:72-90 | with a clear token, null means no directory holds the file, and a path is that of the first that does |
| DirectoryTree.FirstHitAppend | PS2MapTool/Services/DirectoryDataLoaderService.cs:142-147 | the first hit of two visiting orders one after the other |
| DirectoryDataLoader.Create | PS2MapTool/Services/DirectoryDataLoaderService.cs:27-35 | the constructor succeeds exactly on a defined search option |
| DirectoryDataLoader.TileOf | PS2MapTool/Services/DirectoryDataLoaderService.cs:65-86 | an enumerated path yields a tile exactly when its file name parses |
| DirectoryDataLoader.GetTilesAsync | PS2MapTool/Services/DirectoryDataLoaderService.cs:39-90 | a missing directory throws; a cancelled token at any path throws; otherwise the tiles of the parseable paths in order |
| DirectoryDataLoader.OpenedMembers | PS2MapTool/Services/DirectoryDataLoaderService.cs:65-86 | a tile is in the result exactly when its path was enumerated and parses to it |
| DirectoryDataLoader.OpenedLength | PS2MapTool/Services/DirectoryDataLoaderService.cs:75-86 | at most one tile per path, one for every path when all parse |
| DirectoryDataLoader.GetAreasAsync | PS2MapTool/Services/DirectoryDataLoaderService.cs:95-122 | a missing directory throws; without recursion the file is found exactly when it is in the directory |
| DirectoryDataLoader.AreasSearchFindsFirst | PS2MapTool/Services/DirectoryDataLoaderService.cs:106-119 | with recursion the areas file is the first in visiting order, or file-not-found |
| CoreDirectoryDataLoader.GetAreasInfoAsync | PS2MapTool.Core/Services/DirectoryDataLoaderService.cs:36-63 | a missing directory throws; without recursion the file is found exactly when present, at the combined path |
| CoreDirectoryDataLoader.SubtreeSearchFindsFirst | PS2MapTool.Core/Services/DirectoryDataLoaderService.cs:43-60 | with recursion the result is the first directory in visiting order holding the file |
| PackDataLoader.Axis | PS2MapTool/Services/PackDataLoaderService.cs:100-102 | the coordinate loop runs exactly when its start is below 64 |
| PackDataLoader.AxisValues | PS2MapTool/Services/PackDataLoaderService.cs:100-102 | the `i`-th coordinate is `from + i*step`, all below 64 |
| PackDataLoader.AxisMembers | PS2MapTool/Services/PackDataLoaderService.cs:98-102 | a coordinate is visited exactly when it is in [-64, 64) and a multiple of the step away from -64 |
| PackDataLoader.AxisLength | PS2MapTool/Services/PackDataLoaderService.cs:100-102 | the loop makes ceil((64 - from)/step) steps |
| PackDataLoader.FormatCoordinate | PS2MapTool/Services/PackDataLoaderService.cs:104-110 | non-negative coordinates get at least three digits; negative ones a minus sign and at least two |
| PackDataLoader.FormatCoordinateParses | PS2MapTool/Services/PackDataLoaderService.cs:104-110 | the padded text parses back to the coordinate |
| PackDataLoader.GridLength | PS2MapTool/Services/PackDataLoaderService.cs:100-115 | the nested loops produce one entry per coordinate pair |
| PackDataLoader.GridEntry | PS2MapTool/Services/PackDataLoaderService.cs:100-115 | every entry is the entry of some coordinate pair |
| PackDataLoader.GridCovers | PS2MapTool/Services/PackDataLoaderService.cs:100-115 | every coordinate pair has its entry |
| PackDataLoader.PregenPackedTileInfo | PS2MapTool/Services/PackDataLoaderService.cs:94-118 | the precomputed infos are the hashed file names of the whole grid, X outer and Y inner |
| PackDataLoader.PregenRow | PS2MapTool/Services/PackDataLoaderService.cs:102-114 | the inner loop yields the infos of one column |
| PackDataLoader.FirstWithHash | PS2MapTool/Services/PackDataLoaderService.cs:57 | found exactly when some info has the hash, and then it is the first such |
| PackDataLoader.MatchHeaders | PS2MapTool/Services/PackDataLoaderService.cs:55-72 | at most one tile per header of the pack |
| PackDataLoader.MatchHeadersMembers | PS2MapTool/Services/PackDataLoaderService.cs:55-72 | a header yields a tile exactly when it is in the pack and some info has its hash |
| PackDataLoader.MatchHeadersShape | PS2MapTool/Services/PackDataLoaderService.cs:61-70 | each tile carries the world, the info's coordinates and LOD, `.dds`, the pack path and the header |
| PackDataLoader.GetTilesAsync | PS2MapTool/Services/PackDataLoaderService.cs:36-76 | cancelled exactly when the token is set before some pack; otherwise the matched tiles of every pack in order |
| PackDataLoader.LoadedTiles | PS2MapTool/Services/PackDataLoaderService.cs:43-72 | every loaded tile lies on the LOD grid, carries the hash of its own file name and comes from a pack holding that header |
| PackDataLoader.CollectSource | PS2MapTool/Services/PackDataLoaderService.cs:47-72 | every collected tile comes from one pack's matches |
| PackDataLoader.LoadsEveryNamedHeader | PS2MapTool/Services/PackDataLoaderService.cs:43-72 | every grid tile whose name hash is in a pack is loaded |
| PackDataLoader.CollectIncludes | PS2MapTool/Services/PackDataLoaderService.cs:47-72 | every pack's matches are collected |
| PackDataLoader.GetAreasHeader | PS2MapTool/Services/PackDataLoaderService.cs:85-88 | the areas file is found exactly when the data pack holds the hash of `<world>Areas.xml` |
| NoDeployAreas.TryParseNoDeployInfo | PS2MapTool/Services/AreasService.cs:101-128 | an `AreaDefinition` parses exactly when `x1`, `z1` and `radius` are present and parse, with those values; `name` is copied when present |
| NoDeployAreas.TryParseNdzPropertyInfo | PS2MapTool/Services/AreasService.cs:136-154 | a property parses exactly when both integer attributes do, with 32-bit values |
| NoDeployAreas.LastZone | PS2MapTool/Services/AreasService.cs:38-62 | the property's zone is the last no-deploy definition read before it |
| NoDeployAreas.Selects | PS2MapTool/Services/AreasService.cs:50-59 | a property is used exactly when it follows a definition, parses and has the requested type |
| NoDeployAreas.Picks | PS2MapTool/Services/AreasService.cs:38-62 | every selected property belongs to a zone read before it |
| NoDeployAreas.Zones | PS2MapTool/Services/AreasService.cs:56-58 | the `AreaDefinition` object of every selected property is among the objects the list holds |
| NoDeployAreas.Resolve | PS2MapTool/Services/AreasService.cs:38-66 | one area per selected property |
| NoDeployAreas.PickedZoneParses | PS2MapTool/Services/AreasService.cs:46-49 | each selected zone is a parsed no-deploy definition |
| NoDeployAreas.PicksMembers | PS2MapTool/Services/AreasService.cs:38-62 | the selections are exactly the properties chosen at some node |
| NoDeployAreas.SharedZoneEntries | PS2MapTool/Services/AreasService.cs:56-66 | two selections of one zone yield the same area, since their entries share one `AreaDefinition` object |
| NoDeployAreas.FinalInfoIsLast | PS2MapTool/Services/AreasService.cs:56-58 | a zone's info is the one of its last selected property |
| NoDeployAreas.ScanAreas | PS2MapTool/Services/AreasService.cs:38-66 | cancelled exactly when the token is set at some node; otherwise the resolved areas |
| NoDeployAreas.LodScalar | PS2MapTool/Services/AreasService.cs:175 | the divisor is at least 1 |
| NoDeployAreas.ImageSide | PS2MapTool/Services/AreasService.cs:72 | the side is the floor of 8192 over the LOD scalar |
| NoDeployAreas.ImageSideShrinks | PS2MapTool/Services/AreasService.cs:72 | higher LODs give no larger overlays, and LOD 0 gives 8192 |
| AreasService.Remaining | PS2MapTool/Services/AreasService.cs:27-37 | a reader at position 0 reads the whole document |
| AreasService.GetNoDeployAreasAsync | PS2MapTool/Services/AreasService.cs:25-67 | cancelled exactly when the token is set during the scan; otherwise the resolved areas, with the stream rewound to its start |
| AreasService.OverlaySize | PS2MapTool/Services/AreasService.cs:70-74 | the overlay is square, with side the floor of 8192 over `lod + 1` |
| AreaService.GetNoDeployAreasAsync | PS2MapTool/Areas/AreaService.cs:36-77 | the loader's errors propagate; otherwise cancelled or the resolved areas of the opened file |
| AreaService.OverlaySize | PS2MapTool/Areas/AreaService.cs:80-84 | square, with side the floor of 8192 over `lod + 1` |
| MaxParallelValidator.Validate | PS2MapTool/Validators/MaxParallelValidator.cs:7-15 | valid exactly from 1 to 16; below gives the minimum error, above the maximum error |
| LodNumberValidator.FirstNegative | PS2MapTool/Validators/LODNumberValidator.cs:10-14 | the first negative value, or none exactly when all are non-negative |
| LodNumberValidator.Validate | PS2MapTool/Validators/LODNumberValidator.cs:8-17 | an error exactly when some value is negative, and the loop stops at the first |
| Grouping.ParsedBy | PS2MapTools/Commands/StitchCommand.cs:132-136 | at most one item per listed file |
| Grouping.ParsedMembers | PS2MapTools/Commands/StitchCommand.cs:132-136 | a tile is kept exactly when some file parses to it |
| StitchCommand.KeptTiles | PS2MapTools/Commands/StitchCommand.cs:138-143 | only tiles passing both filters remain |
| StitchCommand.GenerateWorldLodBuckets | PS2MapTools/Commands/StitchCommand.cs:127-161 | a missing source directory fails; otherwise the grouping of the parsed tiles that pass the filters |
| StitchCommand.BucketContents | PS2MapTools/Commands/StitchCommand.cs:127-161 | a pair's list is all parsed tiles of that pair when the filters pass it, else empty |
| StitchCommand.KeptSelect | PS2MapTools/Commands/StitchCommand.cs:138-153 | filtering then selecting a pair is selecting it when it passes, and nothing otherwise |
| StitchCommand.StitchJob | PS2MapTools/Commands/StitchCommand.cs:172-207 | the tiles are ordered by descending X then Y, stably; the output file is `<world>_<lod>.png` in the output path, else beside the reference tile |
| StitchCommand.GroupsNamedAfterKeys | PS2MapTools/Commands/StitchCommand.cs:163-207 | every group has a reference tile of its own pair, so its file is named after the pair |
| MapBuilder.Contains | PS2MapBuilder/Program.cs:27-31 | a flag is found exactly when some argument equals it |
| MapBuilder.ParseArgs | PS2MapBuilder/Program.cs:16-31 | usage with exit code 0 exactly when no argument or no directory; `-nc` and `-npc` set their options exactly when present |
| MapBuilder.GroupTiles | PS2MapBuilder/Program.cs:33-45 | the buckets are the grouping of the parseable files |
| MapBuilder.GroupContents | PS2MapBuilder/Program.cs:33-45 | each list is that pair's parsed tiles, and its first tile names the pair |
| MapBuilder.Compress | PS2MapBuilder/Program.cs:82-116 | compression starts exactly when requested, optipng is present and the process starts; it waits only without parallel compression |
| MapBuilder.BuildJob | PS2MapBuilder/Program.cs:53-83 | a stable descending-X-then-Y order, the output `<world>_<lod>.png` beside the reference tile, and compression only when requested and available |

## Left out

- Pixel work is not modelled: DDS and PNG decoding, rotation, flipping, the pixels `DrawImage` writes, the ImageMagick montage, ellipse filling and the float normalisation of zones (`NormaliseNoDeployZone`). Only the placement of tiles and the bytes handed to the decoder are modelled.
- Task runners and concurrency (`ParallelTaskRunner`, `TaskRunner`, the runner setup in `PS2MapTools/Commands/StitchCommand.cs`) are not modelled. Neither are the token checks `Task.Run` does itself: only the checks the code makes are modelled.
- A stream read may return fewer bytes than requested even though more remain; the model reads everything that is available.
- 32-bit overflow is not modelled in tile counts, canvas sizes or `Math.Pow` for very large LODs. LODs are the enum's small values.
- `Path.Combine`, `Path.GetDirectoryName`, `Directory.Exists`, `File.Exists` and `Directory.EnumerateFiles` (with its glob patterns) are parameters. The file list is taken as the enumeration yields it.
- Decoder failures and corrupt files are not modelled.
- DirectoryDataLoader.GetTilesAsync: `File.OpenHandle` (`PS2MapTool/Services/DirectoryDataLoaderService.cs:78-84`) can throw for a file that vanished or cannot be opened; the model opens every listed path, because the file system is outside the model.
- Allocating a 0 x 0 canvas is modelled as the outcome `EmptyCanvas`, and `DrawImage` of a tile that shares no pixel with the canvas as the outcome `OffCanvas` (the library's `ImageProcessingException`). The library's own code is not part of this model. Callers pass only the non-empty groups of a bucket (`StitchService.JobsNonEmpty`).
- Failure to create a missing output directory (`PS2MapTools/Commands/StitchCommand.cs:60-70`) is not modelled; the file system is outside the model.
- `Enum.TryParse` also accepts surrounding whitespace and comma-separated lists of names (flag combinations); `Enums.TryParse` does not.
- StitchService.StitchTiles: the completion callback is registered with `ContinueWith(..., ct)`, so a token set after the last check but before the continuation runs suppresses it. The model fires the callback on every completion, because the continuation's scheduling is outside the model.
- `PS2MapTool.Core`'s `GetTilesAsync` only throws `NotImplementedException`, so it is not modelled.
- `PackCrc64` is a parameter `hash`; reading pack headers and asset data is an input sequence.
- OptiPNG and external processes are reduced to booleans: present, and started.
- Console output and progress reporting are not modelled.
- The Census project is not part of this model.
- PS2MapBuilder's own `Tile.cs` is not part of this model, so its parser is the parameter `parse` of `MapBuilder.GroupTiles`.
- The per-zone cancellation inside `CreateNoDeployZoneImageAsync` is not modelled, because it only guards the drawing.
- `EnqueueCompression` in `PS2MapTools/Commands/StitchCommand.cs` is never called from the stitch task, so it is not modelled.
- Enum parsing of numeric strings (`Enum.TryParse("3")`) is not modelled; `Enums.TryParse` only matches member names.
- `int.TryParse` is modelled for an optional sign and ASCII digits; leading and trailing whitespace and culture rules are not.
- The DDS decoder's row stride is an input: `Stride` takes height, stride and bits per pixel as given.

## Findings

| source | as written | input that shows it | evidently intended | confidence | as-written member | corrected member |
|---|---|---|---|---|---|---|
| PS2MapTool/Tiles/TileDataSource.cs:69 | the world name joins the components up to the index after the LOD, i.e. the whole stem | `Amerish_Tile_000_000_LOD0.dds` gives world name `Amerish_Tile_000_000_LOD0` | the components before `Tile` (`Amerish`), as `TileHelpers.TryParseName` does | high, not executed | TileDataSource.WorldNameIsWholeStem | TileDataSource.CorrectedParseIsFullName |
| PS2MapTool/Tiles/TileInfo.cs:55-62 | the constructor ignores its `fileExtension` argument, so a parsed tile never has an extension | `Amerish_Tile_000_000_LOD0.dds` parses with extension null | the extension is stored | high, not executed | TileInfo.TryParse | TileInfo.TryParseCorrected |
| PS2MapTool/Tiles/Services/DdsTileLoaderService.cs:25-29 | the signature loop indexes the buffer without checking its length | a three-byte buffer `44 44 53` throws `IndexOutOfRangeException` instead of returning false | false for a buffer shorter than the signature | medium, not executed | BufferSniff.ShortDataThrows | BufferSniff.CanLoadChecked |
| PS2MapTool/Services/ImageStitchService.cs:39-57 | no check that the tile count is a square; the canvas side is the floor of the root, so tile `k*k` is drawn at (0, k*256), below the canvas, and `DrawImage` throws there (`StitchService.cs:88-110` has the same gap) | two tiles with processors and a clear token: a 256 by 256 canvas, the first tile drawn, the draw of the second at (0, 256) throws | refuse a non-square count up front, as `TileStitchService.StitchAsync` does | medium, not executed | ImageStitchService.TwoTilesFault | ImageStitchService.StitchTilesChecked |
