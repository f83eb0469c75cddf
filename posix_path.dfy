/**
 * os.path.splitext under POSIX rules (posixpath): the extension is the part
 * from the last '.' of the final path component, unless only dots precede
 * that '.' within the component ("a/.bashrc" has no extension).
 */
module PosixPath {

  /** str.rfind for one character: the last index of c, or -1. */
  function RFind(s: string, c: char): (k: int)
    ensures -1 <= k < |s|
    decreases |s|
  {
    if s == [] then -1
    else if s[|s| - 1] == c then |s| - 1
    else RFind(s[..|s| - 1], c)
  }

  /** Whether every character is a dot (splitext's skip over leading dots). */
  function AllDots(s: string): bool
    decreases |s|
  {
    s == [] || (s[0] == '.' && AllDots(s[1..]))
  }

  /** splitext(p) as the pair (root, ext). */
  function SplitExt(p: string): (r: (string, string))
    ensures r.0 + r.1 == p
  {
    var sepIndex := RFind(p, '/');
    var dotIndex := RFind(p, '.');
    if dotIndex > sepIndex && !AllDots(p[sepIndex + 1..dotIndex]) then
      (p[..dotIndex], p[dotIndex..])
    else
      (p, "")
  }

  function Ext(p: string): string
  {
    SplitExt(p).1
  }

  /** rfind finds the last occurrence, or -1 when there is none. */
  lemma {:induction false} RFindLast(s: string, c: char)
    ensures RFind(s, c) >= 0 ==> s[RFind(s, c)] == c
    ensures forall t :: RFind(s, c) < t < |s| ==> s[t] != c
    decreases |s|
  {
    if s != [] && s[|s| - 1] != c {
      RFindLast(s[..|s| - 1], c);
    }
  }

  lemma {:induction false} AllDotsIff(s: string)
    ensures AllDots(s) <==> forall t :: 0 <= t < |s| ==> s[t] == '.'
    decreases |s|
  {
    if s != [] {
      AllDotsIff(s[1..]);
      assert forall t :: 0 < t < |s| ==> s[t] == s[1..][t - 1];
    }
  }

  /**
   * Independent description of where an extension starts: at a '.' after
   * which no '.' and no '/' occur, preceded in the same component by some
   * character that is not a dot.
   */
  ghost predicate ExtensionStartsAt(p: string, k: int)
  {
    0 <= k < |p| && p[k] == '.' &&
    (forall t :: k < t < |p| ==> p[t] != '.' && p[t] != '/') &&
    exists j :: 0 <= j < k && p[j] != '.' && p[j] != '/' &&
      forall t :: j < t < k ==> p[t] != '/'
  }

  /** rfind returns the occurrence after which c does not occur. */
  lemma {:induction false} RFindIs(s: string, c: char, k: int)
    requires 0 <= k < |s| && s[k] == c
    requires forall t :: k < t < |s| ==> s[t] != c
    ensures RFind(s, c) == k
    decreases |s|
  {
    if k < |s| - 1 {
      RFindIs(s[..|s| - 1], c, k);
    }
  }

  /** rfind returns a position before j when c does not occur from j on. */
  lemma {:induction false} RFindBefore(s: string, c: char, j: int)
    requires 0 <= j <= |s|
    requires forall t :: j <= t < |s| ==> s[t] != c
    ensures RFind(s, c) < j
    decreases |s|
  {
    if j < |s| {
      RFindBefore(s[..|s| - 1], c, j);
    }
  }

  /** Where the description places an extension, splitext finds that one. */
  lemma ExtAt(p: string, k: int)
    requires ExtensionStartsAt(p, k)
    ensures Ext(p) == p[k..]
  {
    var j :| 0 <= j < k && p[j] != '.' && p[j] != '/' && forall t :: j < t < k ==> p[t] != '/';
    RFindIs(p, '.', k);
    RFindBefore(p, '/', j);
    var sepIndex := RFind(p, '/');
    var between := p[sepIndex + 1..k];
    AllDotsIff(between);
    assert between[j - sepIndex - 1] == p[j];
  }

  /** A non-empty extension of splitext is one the description admits. */
  lemma ExtIsDescribed(p: string)
    requires Ext(p) != ""
    ensures ExtensionStartsAt(p, |p| - |Ext(p)|)
  {
    RFindLast(p, '/');
    RFindLast(p, '.');
    var sepIndex, dotIndex := RFind(p, '/'), RFind(p, '.');
    assert dotIndex > sepIndex;
    var between := p[sepIndex + 1..dotIndex];
    AllDotsIff(between);
    var u :| 0 <= u < |between| && between[u] != '.';
    var t := sepIndex + 1 + u;
    assert p[t] == between[u];
    assert forall v :: t < v < dotIndex ==> p[v] != '/';
    assert p[t] != '/';
  }

  /** Only the final extension counts: "x.js.map" has extension ".map". */
  lemma ExtOfAppendedSuffix(p: string, s: string)
    requires '.' !in s && '/' !in s
    ensures Ext(p + "." + s) == "" || Ext(p + "." + s) == "." + s
  {
    var q := p + "." + s;
    assert q[|p|] == '.';
    assert forall t :: |p| < t < |q| ==> q[t] == s[t - |p| - 1];
    RFindLast(q, '.');
    assert RFind(q, '.') == |p|;
    assert q[|p|..] == "." + s;
  }
}
