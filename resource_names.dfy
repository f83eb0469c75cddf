/**
 * Resource names: the `name` attribute of a generated `<include>` is the
 * relative file name with every path separator, dash and dot replaced by an
 * underscore, then upper-cased (make_name_from_filename).
 */
module ResourceNames {

  /** The characters make_name_from_filename rewrites to '_'. */
  const Separators: set<char> := {'/', '\\', '-', '.'}

  predicate IsAsciiLower(c: char) { 'a' <= c <= 'z' }

  /** str.upper on one character, for the ASCII range. */
  function UpperChar(c: char): char
  {
    if IsAsciiLower(c) then (c as int - 32) as char else c
  }

  /** str.replace(from, to) for one-character arguments. */
  function Replace(s: string, from: char, to: char): string
  {
    seq(|s|, i requires 0 <= i < |s| => if s[i] == from then to else s[i])
  }

  /** str.upper. */
  function Upper(s: string): string
  {
    seq(|s|, i requires 0 <= i < |s| => UpperChar(s[i]))
  }

  /** make_name_from_filename. */
  function MakeName(filename: string): string
  {
    Upper(Replace(Replace(Replace(Replace(filename, '/', '_'), '\\', '_'), '-', '_'), '.', '_'))
  }

  /**
   * The name has the file name's length; separators become '_', every other
   * character its upper-case form, and no separator or lower-case letter is left.
   */
  lemma MakeNamePointwise(filename: string)
    ensures |MakeName(filename)| == |filename|
    ensures forall i :: 0 <= i < |filename| ==>
      MakeName(filename)[i] == (if filename[i] in Separators then '_' else UpperChar(filename[i]))
    ensures forall i :: 0 <= i < |filename| ==>
      MakeName(filename)[i] !in Separators && !IsAsciiLower(MakeName(filename)[i])
  {
  }

  /** Mangling a mangled name changes nothing. */
  lemma MakeNameIdempotent(filename: string)
    ensures MakeName(MakeName(filename)) == MakeName(filename)
  {
    var once := MakeName(filename);
    var twice := MakeName(once);
    MakeNamePointwise(filename);
    MakeNamePointwise(once);
    forall i | 0 <= i < |once|
      ensures twice[i] == once[i]
    {
      assert once[i] !in Separators && !IsAsciiLower(once[i]);
    }
  }

  /**
   * Distinct file names can share one resource name: a separator and an
   * underscore in the same place mangle alike (so "a-b.js" and "a_b.js" both
   * become "A_B_JS").
   */
  lemma SeparatorCollision(prefix: string, c: char, suffix: string)
    requires c in Separators
    ensures prefix + [c] + suffix != prefix + ['_'] + suffix
    ensures MakeName(prefix + [c] + suffix) == MakeName(prefix + ['_'] + suffix)
  {
    var a, b := prefix + [c] + suffix, prefix + ['_'] + suffix;
    assert c != '_';
    assert a[|prefix|] == c && b[|prefix|] == '_';
    var x, y := MakeName(a), MakeName(b);
    MakeNamePointwise(a);
    MakeNamePointwise(b);
    forall i | 0 <= i < |a|
      ensures x[i] == y[i]
    {
      if i != |prefix| { assert a[i] == b[i]; }
    }
  }
}
