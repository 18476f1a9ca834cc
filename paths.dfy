/** The path-string operations of Python's posixpath module that the splitter
    relies on: splitext (base name and extension), join, basename, and the
    lower-casing of an extension before it is classified. */
module Paths {

  const Sep: char := '/'
  const ExtSep: char := '.'

  /** Position of the last `c` in `s` (str.rfind), or -1 when there is none. */
  function LastIndexOf(s: string, c: char): (r: int)
    ensures -1 <= r < |s|
    ensures r >= 0 ==> s[r] == c
    decreases |s|
  {
    if |s| == 0 then -1
    else if s[|s| - 1] == c then |s| - 1
    else LastIndexOf(s[..|s| - 1], c)
  }

  /** No `c` follows the position LastIndexOf finds. */
  lemma {:induction false} LastIndexOfIsLast(s: string, c: char)
    ensures forall j :: LastIndexOf(s, c) < j < |s| ==> s[j] != c
    decreases |s|
  {
    if |s| > 0 && s[|s| - 1] != c {
      LastIndexOfIsLast(s[..|s| - 1], c);
    }
  }

  /** Some position of `s` in [lo, hi) holds a character other than a dot. */
  predicate HasNonDot(s: string, lo: int, hi: int)
  {
    exists j :: lo <= j < hi && 0 <= j < |s| && s[j] != ExtSep
  }

  /** os.path.splitext: the extension starts at the last dot of the final path
      component, provided that dot is preceded within the component by a
      character other than a dot (leading dots, as in ".bashrc", do not start
      an extension). Otherwise the extension is empty. */
  function SplitExt(p: string): (r: (string, string))
    ensures r.0 + r.1 == p
    ensures r.1 != [] ==> r.1[0] == ExtSep && forall j :: 0 < j < |r.1| ==> r.1[j] != ExtSep && r.1[j] != Sep
  {
    LastIndexOfIsLast(p, Sep);
    LastIndexOfIsLast(p, ExtSep);
    var sep := LastIndexOf(p, Sep);
    var dot := LastIndexOf(p, ExtSep);
    if dot > sep && HasNonDot(p, sep + 1, dot) then (p[..dot], p[dot..]) else (p, [])
  }

  /** The dot at position `d` lies in the final component (after position
      `sep`) and some character other than a dot precedes it there. */
  predicate ExtensionDot(p: string, sep: int, d: int)
  {
    -1 <= sep < d < |p| && p[d] == ExtSep && HasNonDot(p, sep + 1, d)
  }

  /** A name has an extension exactly when its final component holds a dot
      that some character other than a dot precedes within that component. */
  lemma SplitExtHasExtension(p: string)
    ensures SplitExt(p).1 != [] <==> exists d :: ExtensionDot(p, LastIndexOf(p, Sep), d)
  {
    var sep := LastIndexOf(p, Sep);
    var dot := LastIndexOf(p, ExtSep);
    LastIndexOfIsLast(p, ExtSep);
    if SplitExt(p).1 != [] {
      assert ExtensionDot(p, sep, dot);
      assert exists d :: ExtensionDot(p, LastIndexOf(p, Sep), d);
    }
  }

  /** posixpath.join(a, b): an absolute `b` replaces `a`; otherwise `b` is
      appended, with a separator unless `a` is empty or already ends in one. */
  function Join(a: string, b: string): string
  {
    if |b| > 0 && b[0] == Sep then b
    else if a == [] || a[|a| - 1] == Sep then a + b
    else a + [Sep] + b
  }

  /** os.path.basename: the longest suffix that holds no separator. */
  function Basename(p: string): string
  {
    p[LastIndexOf(p, Sep) + 1..]
  }

  /** The basename is a suffix of the path that holds no separator, and it is
      preceded in the path by a separator unless it is the whole path. */
  lemma BasenameIsLastComponent(p: string)
    ensures Sep !in Basename(p)
    ensures |Basename(p)| <= |p| && p[|p| - |Basename(p)|..] == Basename(p)
    ensures |Basename(p)| < |p| ==> p[|p| - |Basename(p)| - 1] == Sep
  {
    LastIndexOfIsLast(p, Sep);
  }

  /** str.lower on one character, for the ASCII letters. */
  function LowerChar(c: char): char
  {
    if 'A' <= c <= 'Z' then (c as int - 'A' as int + 'a' as int) as char else c
  }

  /** str.lower, for the ASCII letters. */
  function Lower(s: string): string
  {
    seq(|s|, i requires 0 <= i < |s| => LowerChar(s[i]))
  }

  /** Joining a directory with a plain file name and taking the basename gives
      back the file name: a copied file keeps its name. */
  lemma BasenameOfJoin(dir: string, name: string)
    requires Sep !in name
    ensures Basename(Join(dir, name)) == name
  {
    var q := Join(dir, name);
    var r := Basename(q);
    BasenameIsLastComponent(q);
    assert q == name || (|name| < |q| && q[|q| - |name| - 1] == Sep) by {
      if dir != [] {
        if dir[|dir| - 1] == Sep {
          assert q == dir + name;
          assert q[|q| - |name| - 1] == dir[|dir| - 1];
        } else {
          assert q == dir + [Sep] + name;
          assert q[|q| - |name| - 1] == Sep;
        }
      }
    }
  }

  /** Replacing a non-empty extension by another extension that has no further
      dot or separator splits back into the same base and the new extension. */
  lemma {:induction false} SplitExtOfBasePlusExt(p: string, e: string)
    requires SplitExt(p).1 != []
    requires |e| > 0 && e[0] == ExtSep
    requires forall j :: 0 < j < |e| ==> e[j] != ExtSep && e[j] != Sep
    ensures SplitExt(SplitExt(p).0 + e) == (SplitExt(p).0, e)
  {
    var b := SplitExt(p).0;
    var q := b + e;
    var sep := LastIndexOf(p, Sep);
    var dot := LastIndexOf(p, ExtSep);
    assert dot == |b|;
    assert p[..dot] == b;
    LastIndexOfIsLast(p, Sep);
    LastIndexOfIsLast(q, Sep);
    LastIndexOfIsLast(q, ExtSep);
    var qdot := LastIndexOf(q, ExtSep);
    var qsep := LastIndexOf(q, Sep);
    assert q[|b|] == ExtSep;
    assert qdot == |b|;
    assert sep < dot;
    assert sep == -1 || q[sep] == Sep;
    assert forall j :: sep < j < |b| ==> q[j] == p[j];
    assert qsep == sep;
    var j :| sep + 1 <= j < dot && 0 <= j < |p| && p[j] != ExtSep;
    assert q[j] != ExtSep;
    assert HasNonDot(q, qsep + 1, qdot);
    assert q[..qdot] == b && q[qdot..] == e;
  }
}
