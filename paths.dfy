/**
 * File names as the preprocessing module builds them with `pathlib`: a path is a sequence of
 * components; its name is the last one, split into stem and suffix at the last dot.
 */
module Paths {
  import opened Wrappers
  import opened Frame

  datatype Path = Path(parts: seq<string>)

  /** What `create_file_name_path` accepts as a file: a plain string or a path. */
  datatype FileRef = Str(s: string) | File(p: Path)

  /** `path.name`: the last component, or "" for an empty path. */
  function Name(p: Path): string {
    if p.parts == [] then "" else p.parts[|p.parts| - 1]
  }

  /** `path / name`: pathlib drops an empty segment, so `path / ""` is `path` itself. */
  function Join(p: Path, name: string): Path {
    if name == "" then p else Path(p.parts + [name])
  }

  /** `s.rfind('.')`: the position of the last dot, or -1. */
  function LastDot(s: string): (r: int)
    ensures -1 <= r < |s|
    ensures r >= 0 ==> s[r] == '.'
    ensures forall j :: r < j < |s| ==> s[j] != '.'
  {
    if s == [] then -1
    else if s[|s| - 1] == '.' then |s| - 1
    else LastDot(s[..|s| - 1])
  }

  /** pathlib splits a name at its last dot only when the dot is neither first nor last. */
  predicate HasSuffix(name: string) {
    0 < LastDot(name) < |name| - 1
  }

  /**
   * `path.suffix` of a name: from the last dot on, or "" when the name has none. A suffix is
   * a dot followed by at least one character, none of them a dot.
   */
  function Suffix(name: string): (r: string)
    ensures r == "" || (|r| >= 2 && r[0] == '.' && '.' !in r[1..])
  {
    if HasSuffix(name) then name[LastDot(name)..] else ""
  }

  /**
   * `path.stem` of a name: up to the last dot, or the whole name when it has no suffix. Stem
   * and suffix put back together give the name, and only an empty name has an empty stem.
   */
  function Stem(name: string): (r: string)
    ensures r + Suffix(name) == name
    ensures r == "" <==> name == ""
  {
    if HasSuffix(name) then name[..LastDot(name)] else name
  }

  /** The name `create_file_name_path` gives a file: the string itself, or the path's stem. */
  function NameOf(file: FileRef): string {
    match file
    case Str(s) => s
    case File(p) => Stem(Name(p))
  }

  /**
   * `create_file_name_path`: directory / (name + save_suffix), one component below the
   * directory, named by the file's name and the suffix; an empty name and suffix add nothing.
   */
  function CreateFileNamePath(directory: Path, file: FileRef, saveSuffix: string): (r: Path)
    ensures NameOf(file) + saveSuffix == "" ==> r == directory
    ensures NameOf(file) + saveSuffix != "" ==>
      && |r.parts| == |directory.parts| + 1 && r.parts[..|directory.parts|] == directory.parts
      && Name(r) == NameOf(file) + saveSuffix
  {
    Join(directory, NameOf(file) + saveSuffix)
  }

  /**
   * `create_subdir` without the directory creation: input_directory / subdir_name, the
   * component `subdir_name` one level below the input directory, or the input directory itself
   * for the default empty name.
   */
  function SubdirPath(inputDirectory: Path, subdirName: string): (r: Path)
    ensures subdirName == "" ==> r == inputDirectory
    ensures subdirName != "" ==>
      && |r.parts| == |inputDirectory.parts| + 1 && r.parts[..|inputDirectory.parts|] == inputDirectory.parts
      && Name(r) == subdirName
  {
    Join(inputDirectory, subdirName)
  }

  /**
   * `read_file_to_df` around the parsing, which is not modelled: a file whose suffix is not
   * ".csv" is refused; otherwise the parsed table is tagged with the file's stem.
   */
  function ReadFile(file: Path, parsed: Table): (r: Result<Table, Failure>)
    ensures r.Err? <==> Suffix(Name(file)) != ".csv"
    ensures r.Ok? ==> r.value.name == Some(Text(Stem(Name(file))))
  {
    if Suffix(Name(file)) != ".csv" then Err(NotCsvFile)
    else Ok(parsed.(name := Some(Text(Stem(Name(file))))))
  }

  // ----- properties -----

  /** A name without a dot has no suffix: its stem is the whole name. */
  lemma {:induction false} NoDotNoSuffix(s: string)
    requires '.' !in s
    ensures LastDot(s) == -1
    ensures Suffix(s) == "" && Stem(s) == s
  {
    if s != [] {
      NoDotNoSuffix(s[..|s| - 1]);
    }
  }

  /** Appending a dot-free tail after a dot puts the last dot where that dot is. */
  lemma {:induction false} LastDotOfExtension(base: string, ext: string)
    requires '.' !in ext
    ensures LastDot(base + "." + ext) == |base|
    decreases |ext|
  {
    var s := base + "." + ext;
    if ext == [] {
      assert s[|s| - 1] == '.';
    } else {
      var shorter := ext[..|ext| - 1];
      assert s[|s| - 1] == ext[|ext| - 1];
      assert s[..|s| - 1] == base + "." + shorter;
      LastDotOfExtension(base, shorter);
    }
  }

  /**
   * A non-empty base followed by "." and a non-empty dot-free extension has that base as its
   * stem and "." + extension as its suffix.
   */
  lemma StemSuffixRoundTrip(base: string, ext: string)
    requires base != [] && ext != [] && '.' !in ext
    ensures Stem(base + "." + ext) == base
    ensures Suffix(base + "." + ext) == "." + ext
  {
    LastDotOfExtension(base, ext);
    var s := base + "." + ext;
    assert s[..|base|] == base;
    assert s[|base|..] == "." + ext;
  }

  /**
   * The path built for a file lies in the given directory and, when the save suffix is a
   * dot followed by a dot-free extension, keeps the file's stem: the saved file is the input
   * file renamed to the new suffix.
   */
  lemma FileNamePathKeepsStem(directory: Path, file: FileRef, ext: string)
    requires ext != [] && '.' !in ext && NameOf(file) != []
    ensures var r := CreateFileNamePath(directory, file, "." + ext);
      && r.parts[..|directory.parts|] == directory.parts
      && Stem(Name(r)) == NameOf(file)
      && Suffix(Name(r)) == "." + ext
  {
    assert NameOf(file) + ("." + ext) == NameOf(file) + "." + ext;
    StemSuffixRoundTrip(NameOf(file), ext);
  }

  /**
   * A file saved by the pipeline lies below the save directory: in the sub-directory when it
   * has a name, directly in the save directory otherwise, under the file's stem and new suffix.
   */
  lemma SavedFileBelowSaveDirectory(saveDirectory: Path, subdirName: string, file: FileRef, ext: string)
    requires ext != [] && '.' !in ext && NameOf(file) != []
    ensures var r := CreateFileNamePath(SubdirPath(saveDirectory, subdirName), file, "." + ext);
      && |r.parts| == |saveDirectory.parts| + (if subdirName == "" then 1 else 2)
      && r.parts[..|saveDirectory.parts|] == saveDirectory.parts
      && (subdirName != "" ==> r.parts[|saveDirectory.parts|] == subdirName)
      && Stem(Name(r)) == NameOf(file)
      && Suffix(Name(r)) == "." + ext
  {
    var sub := SubdirPath(saveDirectory, subdirName);
    FileNamePathKeepsStem(sub, file, ext);
    var r := CreateFileNamePath(sub, file, "." + ext);
    assert r.parts[..|sub.parts|] == sub.parts;
    if subdirName != "" {
      assert r.parts[..|saveDirectory.parts|] == sub.parts[..|saveDirectory.parts|];
    }
  }
}
