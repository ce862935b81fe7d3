# GETMe command-line driver and reporting, in Dafny

This project models the string, path and counting logic of the GETMe
command-line tool, which smooths polygonal meshes:

- `Cpp/Examples/Common/Source/reporting.cpp` prints element statistics, mesh
  quality and smoothing results. It also picks the mesh reader or writer by
  file extension and derives the path of each result mesh.
- `Cpp/drbGETMe/main.cpp` is the driver. It derives an output base name from
  the input file name, reads the initial mesh, and writes it back under the
  name "initial". It then writes the smart Laplace and GETMe results as
  "smart_laplace" and "getme".

The modules:

- `Wrappers` (wrappers.dfy): `Option` and `Result`.
- `Sequences` (sequences.dfy): small facts about concatenated sequences,
  used by the proofs about strings.
- `Strings` (strings.dfy): `std::string::find` as `Find`, and the decimal
  rendering of an unsigned count as `Decimal` (no leading zeros), with its
  inverse `DecimalValue`.
- `Meshes` (meshes.dfy): the mesh, quality and smoothing-result records the
  other two modules read.
- `Reporting` (reporting.dfy), for reporting.cpp:
  - polygon names and entries of the element statistics;
  - the histogram of polygons by node count and its traversal in ascending
    key order, like a `std::map`;
  - the quality line, the iteration line and the smoothing-result report;
  - the reader/writer dispatch and the result path.
- `Driver` (driver.dfy): the output base name and `main` as the method `Run`.

Console output is returned instead of printed. A line of text is a `string`.
A line that holds floating-point values is a sequence of `Piece`s: text, or
an unformatted `real`.

The element statistics are written in the source's own form:

- `CountPolygonsByNodeCount` fills the map in a loop.
- `PrintElementStatistics` walks the keys in ascending order in a second loop.

Both are proved equal to the specification functions `Histogram` and
`StatisticsLine`. The lemmas about those functions state what the printed
line means:

- each count is the number of polygons with that node count, and positive;
- the counts sum to the number of polygons;
- the entries are in strictly ascending order;
- only the last entry goes without ", ".

## Model

| member | source | states |
|---|---|---|
| Strings.FindFrom | Cpp/Examples/Common/Source/reporting.cpp:149 | the result is the first index at or after the start where the pattern occurs; none means no occurrence from there on |
| Strings.Find | Cpp/Examples/Common/Source/reporting.cpp:149 | a result exists exactly when the pattern occurs; the pattern occurs at the result and nowhere before it |
| Strings.FindFirst | Cpp/Examples/Common/Source/reporting.cpp:149 | an occurrence with none before it is exactly what find returns |
| Strings.FindEmpty | Cpp/Examples/Common/Source/reporting.cpp:149 | the empty pattern is found at index 0 |
| Strings.Decimal | Cpp/Examples/Common/Source/reporting.cpp:47 | a printed count is a non-empty string of decimal digits, with no leading zero for a positive count; zero prints as "0" |
| Strings.DecimalRoundTrip | Cpp/Examples/Common/Source/reporting.cpp:68 | reading the printed digits back gives the number |
| Strings.DecimalInjective | Cpp/Examples/Common/Source/reporting.cpp:47 | different counts print differently |
| Meshes.NodeCounts | Cpp/Examples/Common/Source/reporting.cpp:76-77 | one node count per polygon, in polygon order |
| Meshes.MaximalNumberOfPolygonNodes | Cpp/drbGETMe/main.cpp:56 | no polygon has more nodes than the result; some polygon has exactly that many; 0 for a mesh without polygons, an assumption of the model (see Left out) |
| Reporting.PolygonName | Cpp/Examples/Common/Source/reporting.cpp:48-69 | a count other than 3, 4, 5, 6, 8 and 12 is named by its digits followed by "-gon", and the count reads back from the name |
| Reporting.NameDashPosition | Cpp/Examples/Common/Source/reporting.cpp:48-69 | a name has '-' four characters from its end exactly when the count is not one of the six named polygons |
| Reporting.PolygonNameShape | Cpp/Examples/Common/Source/reporting.cpp:48-70 | every name has at least five characters, ends in 'e', 'l' or 'n', and has no space or comma |
| Reporting.PolygonNameInjective | Cpp/Examples/Common/Source/reporting.cpp:48-69 | different node counts get different names |
| Reporting.PolygonInformation | Cpp/Examples/Common/Source/reporting.cpp:44-71 | an entry is the count and a space, then exactly `PolygonName(numberOfNodes)`, then the plural and the separator (its length is the sum of these parts); it ends with ", " exactly when it is not the last entry; the character before the separator is 's' exactly when the count is not 1 |
| Reporting.PolygonInformationInjective | Cpp/Examples/Common/Source/reporting.cpp:44-71 | two entries have the same text exactly when they have the same node count, the same count and the same last flag |
| Reporting.HistogramCounts | Cpp/Examples/Common/Source/reporting.cpp:75-78 | the keys are exactly the node counts that occur; each key's count is its number of occurrences, which is positive |
| Reporting.AscendingOrder | Cpp/Examples/Common/Source/reporting.cpp:80 | the map traversal visits every key exactly once, in strictly ascending order |
| Reporting.AscendingLast | Cpp/Examples/Common/Source/reporting.cpp:81-82 | the last key visited is the greatest key, the one `rbegin()` points at |
| Reporting.EntriesOf | Cpp/Examples/Common/Source/reporting.cpp:80-83 | one entry per key, with that key's count, marked last exactly when its key is `lastKey` (which `Entries` sets to the greatest key) |
| Reporting.EntryAt | Cpp/Examples/Common/Source/reporting.cpp:80-84 | the i-th printed entry is the i-th key in ascending order with its count, and it is last exactly when it is the final entry |
| Reporting.EntriesAscending | Cpp/Examples/Common/Source/reporting.cpp:80-84 | printed entries are in strictly ascending node-count order; only the final entry lacks a separator |
| Reporting.EntriesCount | Cpp/Examples/Common/Source/reporting.cpp:75-84 | each printed count is the number of polygons with that node count and is positive; every node count that occurs is printed |
| Reporting.EntriesTotal | Cpp/Examples/Common/Source/reporting.cpp:75-84 | the printed counts sum to the number of polygons |
| Reporting.CountPolygonsByNodeCount | Cpp/Examples/Common/Source/reporting.cpp:74-78 | the counting loop builds exactly the histogram of the polygons' node counts |
| Reporting.PrintElementStatistics | Cpp/Examples/Common/Source/reporting.cpp:73-86 | the line written is "  elements: ", the entries in ascending key order, then a newline |
| Reporting.QualityHeader | Cpp/Examples/Common/Source/reporting.cpp:96-98 | the header is "Mesh quality: " with an empty prefix, otherwise the prefix followed by "mesh quality: " |
| Reporting.MeshQualityLine | Cpp/Examples/Common/Source/reporting.cpp:94-114 | see "Quality line" below |
| Reporting.IterationsLine | Cpp/Examples/Common/Source/reporting.cpp:134-143 | the line is "  iterations: ", the counts, then a newline; the counts are exactly the smart Laplace count, or the GETMe simultaneous count, '/' and the sequential count, in that order; they contain '/' exactly for GETMe |
| Reporting.IterationsLineInjective | Cpp/Examples/Common/Source/reporting.cpp:134-143 | the iteration counts can be read back from the line |
| Reporting.SmoothingResultReport | Cpp/Examples/Common/Source/reporting.cpp:116-121 | the report is the algorithm name, then exactly the quality line of the result's own quality with the prefix "  " (so starting "  mesh quality: "), then the smoothing time and the iteration line |
| Reporting.FormatOf | Cpp/Examples/Common/Source/reporting.cpp:154-158 | only ".mesh" and ".obj" select a format, and each selects the format whose extension it is |
| Reporting.FormatOfExtension | Cpp/Examples/Common/Source/reporting.cpp:154-158 | each format is selected by its own extension |
| Reporting.ReadInitialMesh | Cpp/Examples/Common/Source/reporting.cpp:161-171 | ".mesh" and ".obj" pick their reader; any other extension fails with "Unexpected file extension." |
| Reporting.ResultPath | Cpp/Examples/Common/Source/reporting.cpp:146-152 | see "Result path" below |
| Reporting.ResultPathEmptyExtension | Cpp/Examples/Common/Source/reporting.cpp:148-152 | with an empty extension, the result path is "_" followed by the mesh name |
| Reporting.ResultPathDropsAfterFirst | Cpp/Examples/Common/Source/reporting.cpp:149-152 | whatever follows the first occurrence of the extension is dropped |
| Reporting.ResultPathsShareStem | Cpp/Examples/Common/Source/reporting.cpp:145-152 | result paths for two mesh names share stem and extension and differ only in the name |
| Reporting.WriteResultMesh | Cpp/Examples/Common/Source/reporting.cpp:145-159 | see "Writing a result mesh" below |
| Driver.BaseName | Cpp/drbGETMe/main.cpp:39-43 | see "Base name" below |
| Driver.MarkerPlacement | Cpp/drbGETMe/main.cpp:40-42 | an occurrence of "_initial" in a base name lies in the kept prefix or in the extension, or the extension does not start with '.' |
| Driver.CutHasNoMarker | Cpp/drbGETMe/main.cpp:40-42 | a base name cut at the first "_initial" contains no "_initial", for an extension that is empty or starts with '.' and holds no "_initial" |
| Driver.BaseNameIdempotent | Cpp/drbGETMe/main.cpp:39-43 | deriving the base name twice gives the same result, for an extension that starts with '.' and holds no "_initial" |
| Driver.JoinPath | Cpp/drbGETMe/main.cpp:45-47 | the output path is the directory, then '/', then the base name |
| Driver.Run | Cpp/drbGETMe/main.cpp:28-69 | see "Driver run" below |

Details of the longer contracts:

- **Quality line** (`Reporting.MeshQualityLine`):
  - The line starts with the header.
  - It holds a number exactly when qmin >= 0.
  - When qmin < 0, the line is the invalid-element count if one is known, otherwise "invalid mesh".
  - When qmin >= 0, it starts with qmin and ends with qmean.
  - In that case ", qmin*=" appears exactly when qmin* is present.
  - Between qmin and ", qmean=" the line holds exactly ", qmin*=" and the qmin* value when qmin* is present, and nothing otherwise.
- **Result path** (`Reporting.ResultPath`):
  - There is no result path exactly when the extension does not occur in the path.
  - Otherwise it is the part of the path before the first occurrence of the extension, then "_", the mesh name and the extension.
- **Writing a result mesh** (`Reporting.WriteResultMesh`):
  - It fails with "File has an unexpected file extension." exactly when the extension does not occur.
  - Otherwise it announces the result path and writes it with the writer the extension selects.
  - Any extension other than ".mesh" and ".obj" gets no writer.
- **Base name** (`Driver.BaseName`):
  - A file name without "_initial" is kept unchanged.
  - Otherwise the base name is the text before the first "_initial", followed by the extension.
- **Driver run** (`Driver.Run`):
  - Fewer than two arguments give only the prompt.
  - An unknown input extension aborts the run with the reader's error.
  - An output path whose extension cannot be found aborts the run with the writer's error.
  - Otherwise, both smoothers get the same initial mesh, and GETMe is configured with the largest polygon size.
  - The three meshes are written next to "res/" + base name under "initial", "smart_laplace" and "getme", all in the format of the output extension, each announced as "Writing result mesh file " + its path.

## Left out

- The quality metric, smart Laplace and GETMe are not part of this model. Their implementations are not among the files modelled, and they are floating-point numerics. `Run` takes the reader and the two engines as function parameters.
- Fixed-precision formatting of qmin, qmin*, qmean and the smoothing time is not modelled: these values are unformatted `real` pieces.
- `printMeshDimension` is not modelled: the bounding box is floating point and `getBoundingBox` is not part of this model.
- `printInitialMeshInformation` is not modelled. It only prints counts and calls the statistics, dimension and quality printers.
- The rules of `std::filesystem::path::filename` and `extension` are not modelled. They are the parameters `fileNameOf` and `extensionOf` of `Run`, and the extension is a parameter of `ReadInitialMesh` and `WriteResultMesh`.
- The mesh file readers and writers are not modelled. They are represented by the chosen `FileFormat`; a read mesh is whatever the `readMesh` parameter returns.
- Driver.Run: keeps only part of the console output. It keeps the prompt for a missing argument (the `MissingInput` message) and the announcement of every write (`WriteAction.announcement`). It drops the "In File:" line, the initial mesh information and the two smoothing reports. It also does not model `create_directory("res")`.
- Driver.Run: a single `SmoothingResult` type with an `Iterations` variant stands for the two C++ result types. So the model does not promise that `smartLaplace` returns smart Laplace counters and `getme` returns GETMe counters, which the C++ overloads of `printSmoothingResult` fix by type.
- Driver.Run: a thrown exception becomes an `Aborted` outcome with the exception's message.
- Reporting.MeshQualityLine: quality values are reals, so the NaN case of the C++ test `getQMin() < 0` on a `double` is not represented. A NaN qmin takes the numeric branch there and prints "qmin=nan".
- Meshes.MaximalNumberOfPolygonNodes: defined as the largest polygon size, because the body of the C++ `getMaximalNumberOfPolygonNodes` is not part of this model. Its value 0 for a mesh without polygons is an assumption of the model.
- `SmartLaplaceConfig` and `GetmeConfig` are not modelled beyond the node count that configures GETMe.
- Strings.Decimal: counts are unbounded naturals, not 64-bit `size_t`. No count in a mesh reaches that bound.
- `readInitialMesh` computes an index with `find` and never uses it, so the model does not compute it.
- The pmp-library viewers, its smoothing header and its `flip_faces` test are not part of this model: they are outside the tool's driver and reporting code.
