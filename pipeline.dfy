/**
 * `SaveObjectPipeline`: the list bookkeeping of the batch driver. It holds the input files and
 * the objects read from them, and `process_file` appends one processed object and one output
 * path per (object, file) pair.
 */
module Pipeline {
  import opened Wrappers
  import opened Frame
  import opened Paths

  /** `if not xs: xs = stored`: a missing or empty list argument falls back to the stored list. */
  function OrStored<T>(given: Option<seq<T>>, stored: seq<T>): seq<T> {
    if given.None? || given.value == [] then stored else given.value
  }

  function Min(a: nat, b: nat): nat {
    if a <= b then a else b
  }

  /** The stored file list, as arguments to `create_file_name_path`. */
  function AsFileRefs(files: seq<Path>): (r: seq<FileRef>)
    ensures |r| == |files|
  {
    seq(|files|, (i: int) requires 0 <= i < |files| => File(files[i]))
  }

  /** The objects `process_file` produces from the zipped pairs: `func` applied to each object. */
  function Processed(func: Table -> Table, objects: seq<Table>, n: nat): (r: seq<Table>)
    requires n <= |objects|
  {
    seq(n, (i: int) requires 0 <= i < n => func(objects[i]))
  }

  /** The paths `process_file` records from the zipped pairs: one per file, in the sub-directory. */
  function OutputPaths(subdir: Path, files: seq<FileRef>, saveSuffix: string, n: nat): (r: seq<Path>)
    requires n <= |files|
  {
    seq(n, (i: int) requires 0 <= i < n => CreateFileNamePath(subdir, files[i], saveSuffix))
  }

  /** Processing one more pair appends one more result. */
  lemma ProcessedStep(func: Table -> Table, objects: seq<Table>, n: nat)
    requires n < |objects|
    ensures Processed(func, objects, n + 1) == Processed(func, objects, n) + [func(objects[n])]
  {
    assert Processed(func, objects, n + 1)[..n] == Processed(func, objects, n);
  }

  /** Processing one more pair appends one more path. */
  lemma OutputPathsStep(subdir: Path, files: seq<FileRef>, saveSuffix: string, n: nat)
    requires n < |files|
    ensures OutputPaths(subdir, files, saveSuffix, n + 1)
      == OutputPaths(subdir, files, saveSuffix, n) + [CreateFileNamePath(subdir, files[n], saveSuffix)]
  {
    assert OutputPaths(subdir, files, saveSuffix, n + 1)[..n] == OutputPaths(subdir, files, saveSuffix, n);
  }

  /**
   * The paths recorded for the stored input files lie in the sub-directory and keep each file's
   * stem, with the save suffix in place of the old one: the output of `a.csv` saved with ".png"
   * is subdir / `a.png`.
   */
  lemma StoredOutputsKeepStems(subdir: Path, files: seq<Path>, ext: string, n: nat)
    requires n <= |files| && ext != [] && '.' !in ext
    requires forall i :: 0 <= i < n ==> Stem(Name(files[i])) != []
    ensures var out := OutputPaths(subdir, AsFileRefs(files), "." + ext, n);
      forall i :: 0 <= i < n ==>
        && out[i].parts[..|subdir.parts|] == subdir.parts
        && Stem(Name(out[i])) == Stem(Name(files[i]))
        && Suffix(Name(out[i])) == "." + ext
  {
    forall i | 0 <= i < n
      ensures var out := CreateFileNamePath(subdir, File(files[i]), "." + ext);
        && out.parts[..|subdir.parts|] == subdir.parts
        && Stem(Name(out)) == Stem(Name(files[i]))
        && Suffix(Name(out)) == "." + ext
    {
      FileNamePathKeepsStem(subdir, File(files[i]), ext);
    }
  }

  /**
   * The reading loop of `SaveObjectPipeline.__init__`: every file read in order with the reader
   * the caller supplies. The first file the reader refuses (`read_file_to_df`, for one, refuses
   * any file whose suffix is not ".csv") raises, which ends the construction.
   */
  method ReadAll(found: seq<Path>, read: Path -> Result<Table, Failure>) returns (r: Result<seq<Table>, Failure>)
    ensures r.Ok? <==> forall i :: 0 <= i < |found| ==> read(found[i]).Ok?
    ensures r.Ok? ==> |r.value| == |found| && forall i :: 0 <= i < |found| ==> read(found[i]) == Ok(r.value[i])
    ensures r.Err? ==> exists i :: 0 <= i < |found| && read(found[i]) == Err(r.error)
                        && forall j :: 0 <= j < i ==> read(found[j]).Ok?
  {
    var objects: seq<Table> := [];
    for i := 0 to |found|
      invariant |objects| == i
      invariant forall j :: 0 <= j < i ==> read(found[j]) == Ok(objects[j])
    {
      var tempDf := read(found[i]);
      if tempDf.Err? {
        return Err(tempDf.error);
      }
      objects := objects + [tempDf.value];
    }
    return Ok(objects);
  }

  class SaveObjectPipeline {
    const inputDirectory: Path
    const saveDirectory: Path
    const subdirName: string
    const searchSuffix: string
    const subdirPath: Path
    const fileList: seq<Path>
    var objectList: seq<Table>
    var processedList: seq<Table>
    var processedFileList: seq<Path>

    /** The processed objects and their output paths are recorded in step. */
    predicate Valid()
      reads this
    {
      |processedList| == |processedFileList|
    }

    /**
     * The attributes `SaveObjectPipeline.__init__` sets, once the files are read: the sorted
     * result of globbing the input directory for the search suffix is passed in as `found`.
     */
    constructor (inputDirectory: Path, saveDirectory: Path, subdirName: string, searchSuffix: string,
                 found: seq<Path>, objects: seq<Table>)
      ensures this.inputDirectory == inputDirectory && this.saveDirectory == saveDirectory
      ensures this.subdirName == subdirName && this.searchSuffix == searchSuffix
      ensures fileList == found && subdirPath == SubdirPath(saveDirectory, subdirName)
      ensures processedList == [] && processedFileList == []
      ensures objectList == objects
      ensures Valid()
    {
      this.inputDirectory := inputDirectory;
      this.saveDirectory := saveDirectory;
      this.subdirName := subdirName;
      this.searchSuffix := searchSuffix;
      processedList := [];
      processedFileList := [];
      fileList := found;
      subdirPath := SubdirPath(saveDirectory, subdirName);
      objectList := objects;
    }

    /**
     * `SaveObjectPipeline(...)`: with `readfile`, every found file is read with the reader `read`
     * that the caller supplies, and the first refusal aborts the construction with its error;
     * without it, no object is read. The declared default of `func` does not resolve to a
     * reader, so a caller that reads files must pass one.
     */
    static method Create(inputDirectory: Path, saveDirectory: Path, subdirName: string, searchSuffix: string,
                         found: seq<Path>, read: Path -> Result<Table, Failure>, readfile: bool)
      returns (r: Result<SaveObjectPipeline, Failure>)
      ensures r.Err? <==> readfile && exists i :: 0 <= i < |found| && read(found[i]).Err?
      ensures r.Err? ==> exists i :: 0 <= i < |found| && read(found[i]) == Err(r.error)
                          && forall j :: 0 <= j < i ==> read(found[j]).Ok?
      ensures r.Ok? ==> fresh(r.value) && r.value.Valid()
      ensures r.Ok? ==> r.value.fileList == found && r.value.subdirPath == SubdirPath(saveDirectory, subdirName)
      ensures r.Ok? ==> r.value.processedList == [] && r.value.processedFileList == []
      ensures r.Ok? && readfile ==>
        |r.value.objectList| == |found| && forall i :: 0 <= i < |found| ==> read(found[i]) == Ok(r.value.objectList[i])
      ensures r.Ok? && !readfile ==> r.value.objectList == []
    {
      var objects: seq<Table> := [];
      if readfile {
        var readAll := ReadAll(found, read);
        if readAll.Err? {
          return Err(readAll.error);
        }
        objects := readAll.value;
      }
      var pipeline := new SaveObjectPipeline(inputDirectory, saveDirectory, subdirName, searchSuffix, found, objects);
      return Ok(pipeline);
    }

    /**
     * `process_file`: applies `func` to each (object, file) pair of the zipped lists and appends
     * the result and its output path subdir / (name + save_suffix). Missing or empty lists fall
     * back to the stored ones; the stored objects are left as they are.
     */
    method ProcessFile(func: Table -> Table, saveSuffix: string,
                       objectList: Option<seq<Table>>, fileList: Option<seq<FileRef>>)
      requires Valid()
      modifies this
      ensures Valid()
      ensures this.objectList == old(this.objectList)
      ensures var objects := OrStored(objectList, old(this.objectList));
        var files := OrStored(fileList, AsFileRefs(this.fileList));
        var n := Min(|objects|, |files|);
        && processedList == old(processedList) + Processed(func, objects, n)
        && processedFileList == old(processedFileList) + OutputPaths(subdirPath, files, saveSuffix, n)
    {
      var objects := OrStored(objectList, this.objectList);
      var files := OrStored(fileList, AsFileRefs(this.fileList));
      var n := Min(|objects|, |files|);
      ghost var processed0, paths0 := processedList, processedFileList;
      for i := 0 to n
        invariant this.objectList == old(this.objectList)
        invariant processedList == processed0 + Processed(func, objects, i)
        invariant processedFileList == paths0 + OutputPaths(subdirPath, files, saveSuffix, i)
      {
        ProcessedStep(func, objects, i);
        OutputPathsStep(subdirPath, files, saveSuffix, i);
        var tempDf := func(objects[i]);
        processedList := processedList + [tempDf];
        var fileNamePath := CreateFileNamePath(subdirPath, files[i], saveSuffix);
        processedFileList := processedFileList + [fileNamePath];
      }
    }
  }
}
