/**
 * main: parses the arguments, starts from the template and adds one
 * `<include>` per listed source file, in order, refusing a file name that
 * was already written.
 */
module Generator {
  import opened Results
  import opened ArgParsing
  import opened Grd

  /** What main raises. */
  datatype MainError = BadArguments(cause: ArgError) | DuplicateFile(filename: string)

  /** What main hands to the writer: the output path and the final `<includes>` children. */
  datatype Output = Output(outputFilename: string, includes: seq<Node>)

  /** No name occurs twice. */
  ghost predicate Distinct(files: seq<string>)
  {
    forall i, j :: 0 <= i < j < |files| ==> files[i] != files[j]
  }

  /** i is the first position whose name occurs earlier. */
  ghost predicate FirstDuplicateAt(files: seq<string>, i: int)
  {
    0 <= i < |files| && files[i] in files[..i] && Distinct(files[..i])
  }

  /** The includes add_file_to_grd creates for the files, in order. */
  function IncludesFor(files: seq<string>, compress: bool): seq<Node>
  {
    seq(|files|, k requires 0 <= k < |files| => IncludeFor(files[k], compress))
  }

  /** Each node preceded by the indent text node, as add_file_to_grd appends them. */
  function Indented(nodes: seq<Node>): seq<Node>
    decreases |nodes|
  {
    if nodes == [] then []
    else Indented(nodes[..|nodes| - 1]) + [Text(Indent), nodes[|nodes| - 1]]
  }

  /** The children main's loop appends for the files. */
  function Entries(files: seq<string>, compress: bool): seq<Node>
  {
    Indented(IncludesFor(files, compress))
  }

  /** argv[1:]. */
  function Tail(argv: seq<string>): seq<string>
  {
    if |argv| == 0 then [] else argv[1..]
  }

  lemma {:induction false} IndentedLength(nodes: seq<Node>)
    ensures |Indented(nodes)| == 2 * |nodes|
    decreases |nodes|
  {
    if nodes != [] {
      IndentedLength(nodes[..|nodes| - 1]);
    }
  }

  /** Node k sits at position 2k + 1, right after an indent. */
  lemma {:induction false} IndentedAt(nodes: seq<Node>, k: int)
    requires 0 <= k < |nodes|
    ensures |Indented(nodes)| == 2 * |nodes|
    ensures Indented(nodes)[2 * k] == Text(Indent)
    ensures Indented(nodes)[2 * k + 1] == nodes[k]
    decreases |nodes|
  {
    var init := nodes[..|nodes| - 1];
    IndentedLength(init);
    if k < |init| {
      IndentedAt(init, k);
    }
  }

  /** Two children per file: the indent and that file's include, at positions 2k and 2k + 1. */
  lemma EntriesAt(files: seq<string>, compress: bool, k: int)
    requires 0 <= k < |files|
    ensures |Entries(files, compress)| == 2 * |files|
    ensures Entries(files, compress)[2 * k] == Text(Indent)
    ensures Entries(files, compress)[2 * k + 1] == IncludeFor(files[k], compress)
  {
    IndentedAt(IncludesFor(files, compress), k);
  }

  /** Entries of one more file: that file's two children at the end. */
  lemma EntriesSnoc(files: seq<string>, compress: bool, i: int)
    requires 0 <= i < |files|
    ensures Entries(files[..i + 1], compress) == Entries(files[..i], compress) + [Text(Indent), IncludeFor(files[i], compress)]
  {
    var longer := IncludesFor(files[..i + 1], compress);
    assert longer[..i] == IncludesFor(files[..i], compress);
  }

  /** A name not among the distinct names before it keeps them distinct. */
  lemma DistinctSnoc(files: seq<string>, i: int)
    requires 0 <= i < |files| && Distinct(files[..i]) && files[i] !in files[..i]
    ensures Distinct(files[..i + 1])
  {
    var s := files[..i + 1];
    forall a, b | 0 <= a < b < |s| ensures s[a] != s[b] {
      if b == i { assert s[a] == files[..i][a]; } else { assert s[a] == files[..i][a] && s[b] == files[..i][b]; }
    }
  }

  /** The `resource_path` attributes of the `<include>` children, in document order. */
  function ResourcePaths(nodes: seq<Node>): seq<string>
    decreases |nodes|
  {
    if nodes == [] then []
    else
      var rest := ResourcePaths(nodes[1..]);
      if nodes[0].Include? && Lookup(nodes[0].attributes, ResourcePath).Some? then
        [Lookup(nodes[0].attributes, ResourcePath).value] + rest
      else
        rest
  }

  lemma {:induction false} ResourcePathsAppend(a: seq<Node>, b: seq<Node>)
    ensures ResourcePaths(a + b) == ResourcePaths(a) + ResourcePaths(b)
    decreases |a|
  {
    if a != [] {
      assert (a + b)[0] == a[0];
      assert (a + b)[1..] == a[1..] + b;
      ResourcePathsAppend(a[1..], b);
    } else {
      assert a + b == b;
    }
  }

  /** The template's only include is the protocol one, which has no resource path. */
  lemma TemplateHasNoResourcePaths()
    ensures ResourcePaths(TemplateIncludes) == []
  {
    ProtocolIncludeHasNoResourcePath();
    var t := TemplateIncludes;
    assert ResourcePaths(t[2..]) == ResourcePaths(t[3..]) == [];
    assert ResourcePaths(t) == ResourcePaths(t[1..]) == ResourcePaths(t[2..]);
  }

  lemma EntryResourcePath(file: string, compress: bool)
    ensures ResourcePaths([Text(Indent), IncludeFor(file, compress)]) == [file]
  {
    var added := [Text(Indent), IncludeFor(file, compress)];
    IncludeAttributes(file, compress);
    assert ResourcePaths(added[1..][1..]) == [];
    assert ResourcePaths(added[1..]) == [file];
  }

  lemma {:induction false} EntriesResourcePaths(files: seq<string>, compress: bool)
    ensures ResourcePaths(Entries(files, compress)) == files
    decreases |files|
  {
    if files != [] {
      var n := |files| - 1;
      var init, last := files[..n], files[n];
      assert files[..n + 1] == files;
      EntriesSnoc(files, compress, n);
      EntriesResourcePaths(init, compress);
      ResourcePathsAppend(Entries(init, compress), [Text(Indent), IncludeFor(last, compress)]);
      EntryResourcePath(last, compress);
      assert init + [last] == files;
    }
  }

  /**
   * The finished `<includes>` holds one include per source file, in input
   * order; the template's protocol include carries no resource path.
   */
  lemma ResourcePathsInOrder(files: seq<string>, compress: bool)
    ensures ResourcePaths(TemplateIncludes + Entries(files, compress)) == files
  {
    ResourcePathsAppend(TemplateIncludes, Entries(files, compress));
    TemplateHasNoResourcePaths();
    EntriesResourcePaths(files, compress);
  }

  /** The first duplicate, when there is one, is unique. */
  lemma FirstDuplicateUnique(files: seq<string>, i: int, j: int)
    requires FirstDuplicateAt(files, i) && FirstDuplicateAt(files, j)
    ensures i == j
  {
  }

  /** A list with a first duplicate is not distinct. */
  lemma DuplicateNotDistinct(files: seq<string>, i: int)
    requires FirstDuplicateAt(files, i)
    ensures !Distinct(files)
  {
    var k :| 0 <= k < i && files[..i][k] == files[i];
    assert files[k] == files[i];
  }

  /** A list with a repeated name has a first duplicate. */
  lemma {:induction false} FirstDuplicateExists(files: seq<string>)
    requires !Distinct(files)
    ensures exists i :: FirstDuplicateAt(files, i)
    decreases |files|
  {
    var init := files[..|files| - 1];
    if Distinct(init) {
      var a, b :| 0 <= a < b < |files| && files[a] == files[b];
      assert b == |files| - 1;
      assert files[..b] == init && init[a] == files[b];
      assert FirstDuplicateAt(files, b);
    } else {
      FirstDuplicateExists(init);
      var i :| FirstDuplicateAt(init, i);
      assert files[..i] == init[..i];
      assert FirstDuplicateAt(files, i);
    }
  }

  /** The set of names in a list. */
  ghost function Names(files: seq<string>): set<string>
    decreases |files|
  {
    if files == [] then {} else Names(files[..|files| - 1]) + {files[|files| - 1]}
  }

  lemma {:induction false} NamesIff(files: seq<string>)
    ensures forall f :: f in Names(files) <==> f in files
    decreases |files|
  {
    if files != [] {
      var init := files[..|files| - 1];
      NamesIff(init);
      assert files == init + [files[|files| - 1]];
    }
  }

  /** A name already written at position i is the first duplicate. */
  lemma WrittenIsDuplicate(files: seq<string>, i: int)
    requires 0 <= i < |files| && Distinct(files[..i])
    requires files[i] in Names(files[..i])
    ensures FirstDuplicateAt(files, i) && !Distinct(files)
  {
    NamesIff(files[..i]);
    DuplicateNotDistinct(files, i);
  }

  /** Writing a new name keeps the written set and the distinctness in step with the prefix. */
  lemma WriteNew(files: seq<string>, i: int)
    requires 0 <= i < |files| && Distinct(files[..i])
    requires files[i] !in Names(files[..i])
    ensures Distinct(files[..i + 1])
    ensures Names(files[..i + 1]) == Names(files[..i]) + {files[i]}
  {
    NamesIff(files[..i]);
    DistinctSnoc(files, i);
    assert files[..i + 1][..i] == files[..i];
  }

  /**
   * The loop of main: adds each file to `doc` unless its name was already
   * written, and stops at the first name that was, leaving the entries of
   * the files before it in `doc`.
   */
  method AddSourceFiles(doc: GrdDocument, files: seq<string>, compress: bool) returns (duplicate: Option<string>)
    modifies doc
    ensures Distinct(files) ==> duplicate == None && doc.includes == old(doc.includes) + Entries(files, compress)
    ensures !Distinct(files) ==> exists i :: (FirstDuplicateAt(files, i) && duplicate == Some(files[i]) &&
      doc.includes == old(doc.includes) + Entries(files[..i], compress))
  {
    var written: set<string> := {};
    var i := 0;
    assert files[..0] == [];
    while i < |files|
      invariant 0 <= i <= |files|
      invariant written == Names(files[..i])
      invariant Distinct(files[..i])
      invariant doc.includes == old(doc.includes) + Entries(files[..i], compress)
    {
      var filename := files[i];
      if filename in written {
        WrittenIsDuplicate(files, i);
        return Some(filename);
      }
      WriteNew(files, i);
      written := written + {filename};
      ghost var added := [Text(Indent), IncludeFor(filename, compress)];
      doc.AddFile(filename, compress);
      EntriesSnoc(files, compress, i);
      assert doc.includes == old(doc.includes) + (Entries(files[..i], compress) + added);
      i := i + 1;
    }
    assert files[..i] == files;
    return None;
  }

  /**
   * main, without the final write: the template plus one include per file
   * when all names are distinct, otherwise the first repeated name.
   */
  method GenerateGrd(argv: seq<string>, fileLists: map<string, seq<string>>) returns (r: Result<Output, MainError>)
    ensures ParseArgs(Tail(argv), fileLists).Failure? ==>
      r == Failure(BadArguments(ParseArgs(Tail(argv), fileLists).error))
    ensures ParseArgs(Tail(argv), fileLists).Success? ==>
      var args := ParseArgs(Tail(argv), fileLists).value;
      (Distinct(args.sourceFiles) ==>
        r == Success(Output(args.outputFilename, TemplateIncludes + Entries(args.sourceFiles, args.compress)))) &&
      (!Distinct(args.sourceFiles) ==>
        exists i :: FirstDuplicateAt(args.sourceFiles, i) && r == Failure(DuplicateFile(args.sourceFiles[i])))
  {
    var parsed := ParseArgs(Tail(argv), fileLists);
    if parsed.Failure? {
      return Failure(BadArguments(parsed.error));
    }
    var args := parsed.value;
    var doc := new GrdDocument();
    var duplicate := AddSourceFiles(doc, args.sourceFiles, args.compress);
    if duplicate.Some? {
      return Failure(DuplicateFile(duplicate.value));
    }
    r := Success(Output(args.outputFilename, doc.includes));
  }
}
