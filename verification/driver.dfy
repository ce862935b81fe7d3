/** The command-line driver: read the initial mesh named by the first
    argument, write it back under the "initial" name, smooth it with smart
    Laplace and with GETMe, and write both results next to it in "res/".
    The file system, the console and the two smoothing engines are
    parameters: `fileNameOf` and `extensionOf` stand for the filename and
    extension rules of `std::filesystem::path`, `readMesh` for the mesh file
    readers, and `smartLaplace` and `getme` for the engines. */
module Driver {
  import opened Wrappers
  import opened Strings
  import opened Meshes
  import opened Reporting

  /** The output base name: a file name containing "_initial" loses
      everything from its first occurrence on and gets the extension back;
      any other file name is kept unchanged. */
  function BaseName(fileName: string, extension: string): (r: string)
    ensures !Contains(fileName, "_initial") ==> r == fileName
    ensures Contains(fileName, "_initial") ==>
      var i := |r| - |extension|;
      && 0 <= i
      && OccursAt(fileName, "_initial", i)
      && (forall j: nat :: j < i ==> !OccursAt(fileName, "_initial", j))
      && r == fileName[..i] + extension
  {
    match Find(fileName, "_initial")
    case Some(index) => fileName[..index] + extension
    case None => fileName
  }

  /** An occurrence of "_initial" in a prefix followed by an extension lies
      in the prefix, lies in the extension, or straddles the two; in the
      last case the extension starts with a marker character, so not with
      '.'. */
  lemma MarkerPlacement(prefix: string, extension: string, j: nat)
    requires OccursAt(prefix + extension, "_initial", j)
    ensures || OccursAt(prefix, "_initial", j)
            || (j >= |prefix| && OccursAt(extension, "_initial", j - |prefix|))
            || (extension != [] && extension[0] != '.')
  {
    var s := prefix + extension;
    var m := "_initial";
    if j + |m| <= |prefix| {
      assert s[j..j + |m|] == prefix[j..j + |m|];
    } else if j >= |prefix| {
      assert s[j..j + |m|] == extension[j - |prefix|..j - |prefix| + |m|];
    } else {
      assert extension[0] == s[j..j + |m|][|prefix| - j];
      assert forall k :: 0 <= k < |m| ==> m[k] != '.';
    }
  }

  /** Cutting a file name before its first "_initial" and appending an
      extension that starts with '.' and holds no "_initial" leaves no
      "_initial" at all. */
  lemma CutHasNoMarker(fileName: string, i: nat, extension: string)
    requires i <= |fileName|
    requires forall j: nat :: j < i ==> !OccursAt(fileName, "_initial", j)
    requires extension != [] ==> extension[0] == '.'
    requires !Contains(extension, "_initial")
    ensures !Contains(fileName[..i] + extension, "_initial")
  {
    var prefix := fileName[..i];
    forall j: nat | OccursAt(prefix + extension, "_initial", j)
      ensures false
    {
      MarkerPlacement(prefix, extension, j);
      if OccursAt(prefix, "_initial", j) {
        assert fileName[j..j + 8] == prefix[j..j + 8];
        assert OccursAt(fileName, "_initial", j);
      }
    }
  }

  /** Deriving the base name again from a derived base name changes nothing,
      as long as the extension starts with '.' and holds no "_initial". */
  lemma BaseNameIdempotent(fileName: string, extension: string)
    requires extension != [] ==> extension[0] == '.'
    requires !Contains(extension, "_initial")
    ensures BaseName(BaseName(fileName, extension), extension) == BaseName(fileName, extension)
  {
    if Contains(fileName, "_initial") {
      var i := |BaseName(fileName, extension)| - |extension|;
      CutHasNoMarker(fileName, i, extension);
    }
  }

  /** The names under which the initial mesh and the two results are written. */
  const ResultNames: seq<string> := ["initial", "smart_laplace", "getme"]

  /** A mesh handed to `writeResultMesh`, with what that call did. */
  datatype MeshWrite = MeshWrite(mesh: PolygonalMesh, action: WriteAction)

  /** How a run of the driver ends. */
  datatype Outcome =
    | MissingInput(message: string)
    | Aborted(reason: string)
    | Completed(
        inputFormat: FileFormat,
        initialMesh: PolygonalMesh,
        smartLaplaceResult: SmoothingResult,
        getmeResult: SmoothingResult,
        writes: seq<MeshWrite>)

  /** The output file path: the directory, '/', then the base name. */
  function JoinPath(directory: string, fileName: string): (r: string)
    ensures |r| == |directory| + 1 + |fileName|
    ensures r[..|directory|] == directory && r[|directory|] == '/'
    ensures r[|directory| + 1..] == fileName
  {
    directory + "/" + fileName
  }

  /** The mesh `w` was written under `name`, next to `outputPath`, in the
      format its extension selects. */
  predicate WrittenAs(w: MeshWrite, mesh: PolygonalMesh, outputPath: string, outputExtension: string, name: string)
  {
    && w.mesh == mesh
    && ResultPath(outputPath, outputExtension, name) == Some(w.action.path)
    && w.action.writer == FormatOf(outputExtension)
    && w.action.announcement == "Writing result mesh file " + w.action.path + "\n"
  }

  /** The driver's `main`. With fewer than two arguments it only prompts for
      an input mesh. Otherwise it derives the output path "res/" + base name,
      reads the initial mesh (an unknown extension aborts the run), writes it
      as "initial", and writes the smart Laplace and GETMe results, both
      computed from the same initial mesh, as "smart_laplace" and "getme"
      (a path without its extension aborts the run at the first write). */
  method Run(
    argv: seq<string>,
    fileNameOf: string -> string,
    extensionOf: string -> string,
    readMesh: (FileFormat, string) -> PolygonalMesh,
    smartLaplace: PolygonalMesh -> SmoothingResult,
    getme: (PolygonalMesh, nat) -> SmoothingResult)
    returns (outcome: Outcome)
    ensures |argv| < 2 <==> outcome.MissingInput?
    ensures outcome.MissingInput? ==> outcome.message == "Please specify an input mesh.\n"
    ensures |argv| >= 2 && ReadInitialMesh(extensionOf(argv[1])).Failure? ==>
      outcome == Aborted("Unexpected file extension.")
    ensures |argv| >= 2 && ReadInitialMesh(extensionOf(argv[1])).Success? ==>
      var outputPath := JoinPath("res", BaseName(fileNameOf(argv[1]), extensionOf(argv[1])));
      var outputExtension := extensionOf(outputPath);
      && (!Contains(outputPath, outputExtension) <==> outcome.Aborted?)
      && (outcome.Aborted? ==> outcome.reason == "File has an unexpected file extension.")
      && (outcome.Completed? ==>
            && outcome.inputFormat == ReadInitialMesh(extensionOf(argv[1])).value
            && outcome.initialMesh == readMesh(outcome.inputFormat, argv[1])
            && outcome.smartLaplaceResult == smartLaplace(outcome.initialMesh)
            && outcome.getmeResult == getme(outcome.initialMesh, MaximalNumberOfPolygonNodes(outcome.initialMesh))
            && |outcome.writes| == 3
            && WrittenAs(outcome.writes[0], outcome.initialMesh, outputPath, outputExtension, ResultNames[0])
            && WrittenAs(outcome.writes[1], outcome.smartLaplaceResult.mesh, outputPath, outputExtension, ResultNames[1])
            && WrittenAs(outcome.writes[2], outcome.getmeResult.mesh, outputPath, outputExtension, ResultNames[2]))
  {
    if |argv| < 2 {
      return MissingInput("Please specify an input mesh.\n");
    }
    var inputFilePath := argv[1];

    var inputBaseName := fileNameOf(inputFilePath);
    var index := Find(inputBaseName, "_initial");
    if index.Some? {
      inputBaseName := inputBaseName[..index.value] + extensionOf(inputFilePath);
    }
    assert inputBaseName == BaseName(fileNameOf(inputFilePath), extensionOf(inputFilePath));
    var outputDir := "res";
    var outputFilePath := JoinPath(outputDir, inputBaseName);

    // Read the initial mesh.
    var read := ReadInitialMesh(extensionOf(inputFilePath));
    if read.Failure? {
      return Aborted(read.error);
    }
    var initialMesh := readMesh(read.value, inputFilePath);
    var initialWrite := WriteResultMesh(outputFilePath, extensionOf(outputFilePath), ResultNames[0]);
    if initialWrite.Failure? {
      return Aborted(initialWrite.error);
    }

    // Smooth the mesh using smart Laplace.
    var smartLaplaceResult := smartLaplace(initialMesh);
    var smartLaplaceWrite := WriteResultMesh(outputFilePath, extensionOf(outputFilePath), ResultNames[1]);

    // Smooth the mesh using GETMe, configured by the largest polygon.
    var getmeResult := getme(initialMesh, MaximalNumberOfPolygonNodes(initialMesh));
    var getmeWrite := WriteResultMesh(outputFilePath, extensionOf(outputFilePath), ResultNames[2]);

    // The later writes use the same path and extension as the first one.
    assert smartLaplaceWrite.Success? && getmeWrite.Success?;
    outcome := Completed(read.value, initialMesh, smartLaplaceResult, getmeResult, [
      MeshWrite(initialMesh, initialWrite.value),
      MeshWrite(smartLaplaceResult.mesh, smartLaplaceWrite.value),
      MeshWrite(getmeResult.mesh, getmeWrite.value)]);
  }
}
