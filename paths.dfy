/**
 * The few POSIX path operations the program relies on: `str.rfind`,
 * `os.path.basename` and `os.path.splitext` (with `/` as the separator and no
 * alternative separator).
 */
module PathNames {

  /** `s.rfind(c)`: the last position holding `c`, or -1 when there is none. */
  function LastIndex(s: string, c: char): (i: int)
    ensures -1 <= i < |s|
    ensures i >= 0 ==> s[i] == c
    ensures forall k :: i < k < |s| ==> s[k] != c
  {
    if |s| == 0 then -1
    else if s[|s| - 1] == c then |s| - 1
    else LastIndex(s[..|s| - 1], c)
  }

  /** `os.path.basename(p)`: everything after the last `/`. */
  function Basename(p: string): (b: string)
    ensures '/' !in b
    ensures |b| <= |p| && b == p[|p| - |b|..]
    ensures |b| < |p| ==> p[|p| - |b| - 1] == '/'
  {
    p[LastIndex(p, '/') + 1..]
  }

  /**
   * `os.path.splitext(p)`: the extension starts at the last `.`, provided it
   * lies after the last `/` and some character of the last component before
   * it is not a dot (so `.bashrc` and `..` have no extension).
   */
  function SplitExt(p: string): (parts: (string, string))
  {
    var sep := LastIndex(p, '/');
    var dot := LastIndex(p, '.');
    if dot > sep && exists k | sep < k < dot :: p[k] != '.' then (p[..dot], p[dot..])
    else (p, "")
  }

  /** Whether the last component of `p` holds a dot after some non-dot character. */
  ghost predicate HasExtension(p: string)
  {
    exists j, k :: 0 <= j < k < |p| && p[j] != '.' && p[k] == '.' && '/' !in p[j..]
  }

  /** `SplitExt` only cuts `p` in two, and cuts it exactly when it has an extension. */
  lemma SplitExtParts(p: string)
    ensures SplitExt(p).0 + SplitExt(p).1 == p
    ensures SplitExt(p).1 != "" <==> HasExtension(p)
    ensures SplitExt(p).1 != "" ==>
      SplitExt(p).1[0] == '.' && '.' !in SplitExt(p).1[1..] && '/' !in SplitExt(p).1
  {
    var sep := LastIndex(p, '/');
    var dot := LastIndex(p, '.');
    if SplitExt(p).1 != "" {
      var k :| sep < k < dot && p[k] != '.';
      assert forall i :: 0 <= i < |p[k..]| ==> p[k..][i] == p[k + i];
      assert 0 <= k < dot < |p| && p[k] != '.' && p[dot] == '.' && '/' !in p[k..];
      var ext := p[dot..];
      assert forall i :: 0 <= i < |ext| ==> ext[i] == p[dot + i];
    }
    if HasExtension(p) {
      var j, k :| 0 <= j < k < |p| && p[j] != '.' && p[k] == '.' && '/' !in p[j..];
      assert p[j..][k - j] == p[k];
      assert sep < j < dot && p[j] != '.';
    }
  }

  /**
   * The local copy path that `PDFParser.open` derives:
   * `directory/<basename without extension>/<basename>`.
   */
  function LocalCopyPath(directory: string, sourcePath: string): (r: string)
    ensures r != ""
  {
    var filename := Basename(sourcePath);
    directory + "/" + SplitExt(filename).0 + "/" + filename
  }
}
