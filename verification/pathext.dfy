/** The parts of Python's `os.path.splitext` and `str.lower` that the
    command-line check in run_script.py relies on, for POSIX paths. */
module PathExt {

  /** `str.rfind(c)`: the last index of c in p, or -1. */
  function RFind(p: string, c: char): (r: int)
    ensures -1 <= r < |p|
    ensures 0 <= r ==> p[r] == c
    ensures forall j :: r < j < |p| ==> p[j] != c
    decreases |p|
  {
    if p == [] then -1
    else if p[|p| - 1] == c then |p| - 1
    else RFind(p[..|p| - 1], c)
  }

  predicate OnlyDots(s: string) {
    forall j :: 0 <= j < |s| ==> s[j] == '.'
  }

  /** Index j lies in the final path component of p: no '/' at or after it. */
  ghost predicate InFinalComponent(p: string, j: nat) {
    forall k :: j <= k < |p| ==> p[k] != '/'
  }

  /** p has an extension in the sense of `splitext`: its final component
      holds a '.' preceded, inside that component, by something other than a
      dot (so ".bashrc" and "..." have none). */
  ghost predicate HasExtension(p: string) {
    exists i, j :: 0 <= j < i < |p| && p[i] == '.' && p[j] != '.' && InFinalComponent(p, j)
  }

  /** Where `os.path.splitext(p)` (posixpath separators) cuts p: at the
      last '.' of the final component, unless everything before that dot in
      the component is dots, in which case there is no extension and the cut
      is at the end. */
  function ExtStart(p: string): (k: nat)
    ensures k <= |p|
    ensures k < |p| ==> p[k] == '.' && forall j :: k < j < |p| ==> p[j] != '.' && p[j] != '/'
  {
    var sepIndex := RFind(p, '/');
    var dotIndex := RFind(p, '.');
    if dotIndex > sepIndex && !OnlyDots(p[sepIndex + 1..dotIndex]) then dotIndex else |p|
  }

  /** `os.path.splitext(p)`: the root and the extension. */
  function SplitExt(p: string): (r: (string, string))
    ensures r.0 + r.1 == p
    ensures r.1 == [] || (r.1[0] == '.' && forall j :: 1 <= j < |r.1| ==> r.1[j] != '.' && r.1[j] != '/')
  {
    var k := ExtStart(p);
    assert p[..k] + p[k..] == p;
    (p[..k], p[k..])
  }

  /** A non-dot character between the final '/' and the last '.' is a
      witness that the name has an extension. */
  lemma StemGivesExtension(p: string)
    requires ExtStart(p) < |p|
    ensures HasExtension(p)
  {
    var sepIndex := RFind(p, '/');
    var dotIndex := RFind(p, '.');
    var stem := p[sepIndex + 1..dotIndex];
    var j :| 0 <= j < |stem| && stem[j] != '.';
    assert p[sepIndex + 1 + j] != '.';
    assert InFinalComponent(p, sepIndex + 1 + j);
  }

  /** With no dot in the final component, or only dots before its last dot,
      every candidate stem character is a dot, so there is no extension. */
  lemma DotsGiveNoExtension(p: string)
    requires ExtStart(p) == |p|
    ensures !HasExtension(p)
  {
    var sepIndex := RFind(p, '/');
    var dotIndex := RFind(p, '.');
    forall i, j | 0 <= j < i < |p| && p[i] == '.' && InFinalComponent(p, j)
      ensures p[j] == '.'
    {
      assert sepIndex < 0 || p[sepIndex] == '/';
      assert sepIndex < j;
      assert i <= dotIndex;
      assert OnlyDots(p[sepIndex + 1..dotIndex]);
      assert p[sepIndex + 1..dotIndex][j - sepIndex - 1] == p[j];
    }
  }

  /** `splitext` reports an extension exactly when the final component has
      a dot after some non-dot character. */
  lemma SplitExtFindsExtension(p: string)
    ensures SplitExt(p).1 != [] <==> HasExtension(p)
  {
    assert SplitExt(p).1 == p[ExtStart(p)..];
    if ExtStart(p) < |p| {
      StemGivesExtension(p);
    } else {
      DotsGiveNoExtension(p);
    }
  }

  /** The extension `splitext` reports. */
  function Ext(p: string): string {
    SplitExt(p).1
  }

  /** `str.lower` on ASCII letters. */
  function LowerChar(c: char): char {
    if 'A' <= c <= 'Z' then (c as int - 'A' as int + 'a' as int) as char else c
  }

  function Lower(s: string): (r: string)
    ensures |r| == |s|
    ensures forall i :: 0 <= i < |s| ==> r[i] == LowerChar(s[i])
  {
    seq(|s|, i requires 0 <= i < |s| => LowerChar(s[i]))
  }

  /** `str.lower` on ASCII: it leaves no upper-case letter, maps each
      upper-case letter to the letter 32 code points above, keeps every
      other character, and so lower-casing twice is lower-casing once. */
  lemma LowerFolds(s: string)
    ensures Lower(Lower(s)) == Lower(s)
    ensures forall i :: 0 <= i < |s| ==> !('A' <= Lower(s)[i] <= 'Z')
    ensures forall i :: 0 <= i < |s| && 'A' <= s[i] <= 'Z' ==> Lower(s)[i] as int == s[i] as int + 32
    ensures forall i :: 0 <= i < |s| && !('A' <= s[i] <= 'Z') ==> Lower(s)[i] == s[i]
  {
  }

  /** Lower-casing moves no '/' or '.'. */
  lemma {:induction false} RFindLower(p: string, c: char)
    requires c == '/' || c == '.'
    ensures RFind(Lower(p), c) == RFind(p, c)
    decreases |p|
  {
    if p != [] {
      var init := p[..|p| - 1];
      RFindLower(init, c);
      assert Lower(p)[..|p| - 1] == Lower(init);
    }
  }

  /** Lower-casing turns no character into a dot and no dot into anything else. */
  lemma OnlyDotsLower(s: string)
    ensures OnlyDots(Lower(s)) == OnlyDots(s)
  {
    assert forall j :: 0 <= j < |s| ==> (Lower(s)[j] == '.' <==> s[j] == '.');
  }

  /** Lower-casing commutes with taking the extension: `splitext` only
      looks at '/' and '.', which lower-casing leaves in place. */
  lemma ExtOfLower(p: string)
    ensures Ext(Lower(p)) == Lower(Ext(p))
  {
    ExtStartLower(p);
    var k := ExtStart(p);
    assert Lower(p)[k..] == Lower(p[k..]);
  }

  /** Lower-casing does not move where `splitext` cuts. */
  lemma ExtStartLower(p: string)
    ensures ExtStart(Lower(p)) == ExtStart(p)
  {
    var q := Lower(p);
    RFindLower(p, '/');
    RFindLower(p, '.');
    var sepIndex := RFind(p, '/');
    var dotIndex := RFind(p, '.');
    if dotIndex > sepIndex {
      var stem := p[sepIndex + 1..dotIndex];
      assert q[sepIndex + 1..dotIndex] == Lower(stem);
      OnlyDotsLower(stem);
    }
  }

  /** x can be an extension: a dot followed by no dot and no '/'. */
  predicate ExtensionShaped(x: string) {
    0 < |x| && x[0] == '.' && forall j :: 1 <= j < |x| ==> x[j] != '.' && x[j] != '/'
  }

  /** When p ends in an extension-shaped x, that x starts at p's last dot. */
  lemma LastDotStartsSuffix(p: string, x: string)
    requires ExtensionShaped(x) && |x| <= |p| && p[|p| - |x|..] == x
    ensures RFind(p, '.') == |p| - |x|
  {
    var at := |p| - |x|;
    assert p[at] == x[0];
    forall j | at < j < |p|
      ensures p[j] != '.'
    {
      assert p[j] == x[j - at];
    }
  }

  /** `splitext(p)[1] == x` for an extension-shaped x exactly when p ends in
      x and has an extension at all: the extension is a suffix of the name,
      never a dot-separated piece from its middle. */
  lemma ExtIsSuffix(p: string, x: string)
    requires ExtensionShaped(x)
    ensures Ext(p) == x <==> (|x| <= |p| && p[|p| - |x|..] == x && HasExtension(p))
  {
    SplitExtFindsExtension(p);
    var ext := Ext(p);
    assert p[|p| - |ext|..] == ext by {
      assert SplitExt(p).0 + ext == p;
    }
    if |x| <= |p| && p[|p| - |x|..] == x && HasExtension(p) {
      LastDotStartsSuffix(p, x);
      LastDotStartsSuffix(p, ext);
    }
  }
}
