/**
 * parse_args and the ParsedArgs constructor. Flags are found by position:
 * the value of a flag is the token right after its first occurrence, and
 * `--compress` is a switch that counts if it occurs anywhere.
 */
module ArgParsing {
  import opened Results

  const FileListFlag := "--file_list"
  const OutputFlag := "--output"
  const CompressFlag := "--compress"

  /** The exceptions parse_args and ParsedArgs raise. */
  datatype ArgError =
    | FlagNotFound(flag: string)        // list.index raises ValueError
    | FlagValueMissing(flag: string)    // argv[position + 1] raises IndexError
    | FileListUnreadable(path: string)  // open(file_list) raises OSError

  /**
   * ParsedArgs. `sourceFiles` holds the tokens of the file list as
   * shlex.split returns them.
   */
  datatype ParsedArgs = ParsedArgs(
    fileList: string,
    sourceFiles: seq<string>,
    outputFilename: string,
    compress: bool)

  /** i is the position of the first occurrence of x in s. */
  ghost predicate IsFirst(s: seq<string>, x: string, i: int)
  {
    0 <= i < |s| && s[i] == x && x !in s[..i]
  }

  /** list.index: the first position of x, or None where it raises. */
  function Index(s: seq<string>, x: string): (r: Option<nat>)
    ensures r.Some? <==> x in s
    ensures r.Some? ==> IsFirst(s, x, r.value)
    decreases |s|
  {
    if s == [] then None
    else if s[0] == x then Some(0)
    else match Index(s[1..], x)
      case None => None
      case Some(i) =>
        assert s[1..][..i] == s[1..i + 1];
        Some(i + 1)
  }

  /** list.count. */
  function Count(s: seq<string>, x: string): (n: nat)
    ensures n == multiset(s)[x]
    ensures n > 0 <==> x in s
    decreases |s|
  {
    if s == [] then 0
    else
      assert s == [s[0]] + s[1..];
      (if s[0] == x then 1 else 0) + Count(s[1..], x)
  }

  /**
   * parse_args(argv), followed by the constructor's read of the file list;
   * `fileLists` maps each readable path to the tokens of its contents.
   */
  function ParseArgs(argv: seq<string>, fileLists: map<string, seq<string>>): (r: Result<ParsedArgs, ArgError>)
    ensures r.Success? ==> r.value.compress == (CompressFlag in argv)
    ensures r.Success? ==> FileListFlag in argv && OutputFlag in argv
    ensures r.Success? ==> r.value.fileList in fileLists && r.value.sourceFiles == fileLists[r.value.fileList]
  {
    match Index(argv, FileListFlag)
    case None => Failure(FlagNotFound(FileListFlag))
    case Some(fileListPosition) =>
      match Index(argv, OutputFlag)
      case None => Failure(FlagNotFound(OutputFlag))
      case Some(outputPosition) =>
        if fileListPosition + 1 >= |argv| then Failure(FlagValueMissing(FileListFlag))
        else
          var fileList := argv[fileListPosition + 1];
          var compress := Count(argv, CompressFlag) > 0;
          if outputPosition + 1 >= |argv| then Failure(FlagValueMissing(OutputFlag))
          else if fileList !in fileLists then Failure(FileListUnreadable(fileList))
          else Success(ParsedArgs(fileList, fileLists[fileList], argv[outputPosition + 1], compress))
  }

  /** The first occurrence of each flag decides; its successor is the value. */
  lemma ParseArgsSuccess(argv: seq<string>, fileLists: map<string, seq<string>>, i: int, j: int)
    requires IsFirst(argv, FileListFlag, i) && IsFirst(argv, OutputFlag, j)
    requires i + 1 < |argv| && j + 1 < |argv| && argv[i + 1] in fileLists
    ensures ParseArgs(argv, fileLists) ==
      Success(ParsedArgs(argv[i + 1], fileLists[argv[i + 1]], argv[j + 1], CompressFlag in argv))
  {
    FirstIsUnique(argv, FileListFlag, i, Index(argv, FileListFlag).value);
    FirstIsUnique(argv, OutputFlag, j, Index(argv, OutputFlag).value);
  }

  lemma FirstIsUnique(s: seq<string>, x: string, i: int, j: int)
    requires IsFirst(s, x, i) && IsFirst(s, x, j)
    ensures i == j
  {
  }

  /** The error parse_args raises, in the order it meets them. */
  lemma ParseArgsErrors(argv: seq<string>, fileLists: map<string, seq<string>>)
    ensures FileListFlag !in argv ==>
      ParseArgs(argv, fileLists) == Failure(FlagNotFound(FileListFlag))
    ensures FileListFlag in argv && OutputFlag !in argv ==>
      ParseArgs(argv, fileLists) == Failure(FlagNotFound(OutputFlag))
  {
  }

  /**
   * A flag in last position is an error. With `--file_list` last and `--output`
   * present, the file_list value is reported missing (it is looked up first).
   */
  lemma FlagInLastPosition(argv: seq<string>, fileLists: map<string, seq<string>>, flag: string)
    requires |argv| > 0 && argv[|argv| - 1] == flag && flag !in argv[..|argv| - 1]
    requires flag == FileListFlag || flag == OutputFlag
    ensures ParseArgs(argv, fileLists).Failure?
    ensures flag == FileListFlag && OutputFlag in argv ==>
      ParseArgs(argv, fileLists) == Failure(FlagValueMissing(FileListFlag))
  {
    var last := |argv| - 1;
    assert IsFirst(argv, flag, last);
    if FileListFlag in argv && OutputFlag in argv {
      FirstIsUnique(argv, flag, last, Index(argv, flag).value);
    }
  }
}
