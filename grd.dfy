/**
 * The `<includes>` node of the GRIT resource file and add_file_to_grd, which
 * appends one `<include>` per resource file to it.
 */
module Grd {
  import opened Results
  import opened ResourceNames
  import opened PosixPath

  /** A child of `<includes>`: a whitespace text node or an `<include>` element. */
  datatype Node = Text(data: string) | Include(attributes: seq<Attribute>)

  /**
   * The attribute names that occur on an `<include>`: `name`, `file`,
   * `use_base_dir`, `compress`, `type`, `skip_in_resource_map`, `resource_path`.
   */
  datatype AttributeName = Name | File | UseBaseDir | Compress | Type | SkipInResourceMap | ResourcePath

  /** An attribute of an element; elements keep attributes in the order they were set. */
  datatype Attribute = Attribute(key: AttributeName, value: string)

  /** getAttribute: the value set for key, if any. */
  function Lookup(attributes: seq<Attribute>, key: AttributeName): Option<string>
    decreases |attributes|
  {
    if attributes == [] then None
    else if attributes[0].key == key then Some(attributes[0].value)
    else Lookup(attributes[1..], key)
  }

  /** The attribute names of an element, in order. */
  function Keys(attributes: seq<Attribute>): seq<AttributeName>
    decreases |attributes|
  {
    if attributes == [] then [] else [attributes[0].key] + Keys(attributes[1..])
  }

  /** The text node add_file_to_grd puts before each new `<include>`. */
  const Indent := "\n      "

  /** The extensions whose files are packed in compressed form. */
  const CompressibleExtensions: seq<string> := [".css", ".html", ".js", ".svg", ".json", ".md"]

  /** The protocol include the template starts with. */
  const ProtocolInclude := Include([
    Attribute(Name, "COMPRESSED_PROTOCOL_JSON"),
    Attribute(File, "${protocol_file}"),
    Attribute(UseBaseDir, "false"),
    Attribute(Compress, "brotli"),
    Attribute(Type, "BINDATA"),
    Attribute(SkipInResourceMap, "true")])

  /**
   * The children of `<includes>` in the parsed template: the whitespace
   * before and after the protocol include are text nodes of their own.
   */
  const TemplateIncludes: seq<Node> := [Text("\n      "), ProtocolInclude, Text("\n    ")]

  /** Whether add_file_to_grd points `file` at the compressed copy. */
  predicate IsCompressed(relativeFilename: string, compress: bool)
  {
    compress && Ext(relativeFilename) in CompressibleExtensions
  }

  /** The `file` attribute add_file_to_grd sets. */
  function FileAttribute(relativeFilename: string, compress: bool): string
  {
    if IsCompressed(relativeFilename, compress) then relativeFilename + ".compressed" else relativeFilename
  }

  /** An `<include>` with the attributes add_file_to_grd sets, in the order it sets them. */
  function NewInclude(file: string, name: string, resourcePath: string): Node
  {
    Include([
      Attribute(File, file),
      Attribute(Name, name),
      Attribute(ResourcePath, resourcePath),
      Attribute(Type, "BINDATA"),
      Attribute(Compress, "false")])
  }

  /** The `<include>` add_file_to_grd creates for a file. */
  function IncludeFor(relativeFilename: string, compress: bool): Node
  {
    NewInclude(FileAttribute(relativeFilename, compress), MakeName(relativeFilename), relativeFilename)
  }

  lemma NewIncludeKeys(file: string, name: string, resourcePath: string)
    ensures Keys(NewInclude(file, name, resourcePath).attributes) == [File, Name, ResourcePath, Type, Compress]
  {
    var a := NewInclude(file, name, resourcePath).attributes;
    assert a[1..][1..][1..][1..][1..] == [];
    assert Keys(a[1..][1..][1..][1..]) == [Compress];
    assert Keys(a[1..][1..][1..]) == [Type, Compress];
    assert Keys(a[1..][1..]) == [ResourcePath, Type, Compress];
    assert Keys(a[1..]) == [Name, ResourcePath, Type, Compress];
  }

  lemma NewIncludeValues(file: string, name: string, resourcePath: string)
    ensures var a := NewInclude(file, name, resourcePath).attributes;
      Lookup(a, File) == Some(file) &&
      Lookup(a, Name) == Some(name) &&
      Lookup(a, ResourcePath) == Some(resourcePath) &&
      Lookup(a, Type) == Some("BINDATA") &&
      Lookup(a, Compress) == Some("false")
  {
    var a := NewInclude(file, name, resourcePath).attributes;
    var b := a[1..];
    var c := b[1..];
    var d := c[1..];
    var e := d[1..];
    assert Lookup(a, ResourcePath) == Lookup(b, ResourcePath) == Lookup(c, ResourcePath);
    assert Lookup(a, Type) == Lookup(b, Type) == Lookup(c, Type) == Lookup(d, Type);
    assert Lookup(a, Compress) == Lookup(b, Compress) == Lookup(c, Compress) == Lookup(d, Compress) == Lookup(e, Compress);
  }

  lemma NewIncludeAbsent(file: string, name: string, resourcePath: string, key: AttributeName)
    requires key == UseBaseDir || key == SkipInResourceMap
    ensures Lookup(NewInclude(file, name, resourcePath).attributes, key) == None
  {
    var a := NewInclude(file, name, resourcePath).attributes;
    assert Lookup(a, key) == Lookup(a[1..], key) == Lookup(a[2..], key) == Lookup(a[3..], key)
      == Lookup(a[4..], key) == Lookup(a[5..], key) == None;
  }

  /** Reading back the attributes of a new include gives the values it was built from. */
  lemma NewIncludeAttributes(file: string, name: string, resourcePath: string)
    ensures var a := NewInclude(file, name, resourcePath).attributes;
      Keys(a) == [File, Name, ResourcePath, Type, Compress] &&
      Lookup(a, File) == Some(file) &&
      Lookup(a, Name) == Some(name) &&
      Lookup(a, ResourcePath) == Some(resourcePath) &&
      Lookup(a, Type) == Some("BINDATA") &&
      Lookup(a, Compress) == Some("false") &&
      Lookup(a, UseBaseDir) == None &&
      Lookup(a, SkipInResourceMap) == None
  {
    NewIncludeKeys(file, name, resourcePath);
    NewIncludeValues(file, name, resourcePath);
    NewIncludeAbsent(file, name, resourcePath, UseBaseDir);
    NewIncludeAbsent(file, name, resourcePath, SkipInResourceMap);
  }

  /** Whatever the compression choice, the other attributes are fixed. */
  lemma IncludeAttributes(relativeFilename: string, compress: bool)
    ensures IncludeFor(relativeFilename, compress).Include?
    ensures var a := IncludeFor(relativeFilename, compress).attributes;
      Keys(a) == [File, Name, ResourcePath, Type, Compress] &&
      Lookup(a, File) == Some(FileAttribute(relativeFilename, compress)) &&
      Lookup(a, Name) == Some(MakeName(relativeFilename)) &&
      Lookup(a, ResourcePath) == Some(relativeFilename) &&
      Lookup(a, Type) == Some("BINDATA") &&
      Lookup(a, Compress) == Some("false")
  {
    NewIncludeAttributes(FileAttribute(relativeFilename, compress), MakeName(relativeFilename), relativeFilename);
  }

  /** The protocol include carries no resource path. */
  lemma ProtocolIncludeHasNoResourcePath()
    ensures Lookup(ProtocolInclude.attributes, ResourcePath) == None
  {
  }

  /** `file` names the compressed copy exactly when compression applies; otherwise it is the file itself. */
  lemma FileAttributeIff(relativeFilename: string, compress: bool)
    ensures var file := FileAttribute(relativeFilename, compress);
      (file == relativeFilename + ".compressed" <==> IsCompressed(relativeFilename, compress)) &&
      (file == relativeFilename <==> !IsCompressed(relativeFilename, compress))
  {
    assert |relativeFilename + ".compressed"| != |relativeFilename|;
  }

  /** A file whose final component ends in one of the extensions is compressed when compression is on. */
  lemma CompressedByExtension(relativeFilename: string, k: int)
    requires ExtensionStartsAt(relativeFilename, k)
    requires relativeFilename[k..] in CompressibleExtensions
    ensures FileAttribute(relativeFilename, true) == relativeFilename + ".compressed"
  {
    ExtAt(relativeFilename, k);
  }

  /** Only the final extension counts: a source map "x.js.map" is never compressed. */
  lemma SourceMapsNeverCompressed(p: string, compress: bool)
    ensures FileAttribute(p + ".map", compress) == p + ".map"
  {
    assert p + ".map" == p + "." + "map";
    ExtOfAppendedSuffix(p, "map");
  }

  /** The document's `<includes>` node, which add_file_to_grd grows in place. */
  class GrdDocument {
    var includes: seq<Node>

    /** minidom.parseString(kGrdTemplate). */
    constructor ()
      ensures includes == TemplateIncludes
    {
      includes := TemplateIncludes;
    }

    /**
     * add_file_to_grd: a whitespace text node, then a new `<include>`, go to
     * the end; every earlier child stays as it was.
     */
    method AddFile(relativeFilename: string, compress: bool)
      modifies this
      ensures includes == old(includes) + [Text(Indent), IncludeFor(relativeFilename, compress)]
    {
      includes := includes + [Text(Indent)];
      var ext := SplitExt(relativeFilename).1;
      var file: string;
      if compress && ext in CompressibleExtensions {
        file := relativeFilename + ".compressed";
      } else {
        file := relativeFilename;
      }
      includes := includes + [NewInclude(file, MakeName(relativeFilename), relativeFilename)];
    }
  }
}
