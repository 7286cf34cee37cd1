/** `ensure_unique_path`: the first free name among `path`, `root (2)ext`,
    `root (3)ext`, ... where the file system is a finite set of existing paths and
    `os.path.splitext` is a parameter (a POSIX instance is given below). */
module UniquePath {

  function DigitChar(d: nat): char
    requires d < 10
  {
    "0123456789"[d]
  }

  /** The decimal numeral of n, as Python's f-string writes a non-negative int. */
  function NatToString(n: nat): (s: string)
    ensures |s| >= 1
    decreases n
  {
    if n < 10 then [DigitChar(n)] else NatToString(n / 10) + [DigitChar(n % 10)]
  }

  function Pow10(k: nat): (p: nat)
    ensures p >= 1
  {
    if k == 0 then 1 else 10 * Pow10(k - 1)
  }

  /** A number at least 10^k has more than k digits. */
  lemma {:induction false} DecimalLength(n: nat, k: nat)
    requires n >= Pow10(k)
    ensures |NatToString(n)| > k
    decreases k
  {
    if k > 0 {
      assert n >= 10;
      DecimalLength(n / 10, k - 1);
    }
  }

  /** The name `root (i)ext`. */
  function Numbered(root: string, i: nat, ext: string): string
  {
    root + " (" + NatToString(i) + ")" + ext
  }

  /** The length of the longest path in a finite set. */
  ghost function MaxLength(paths: set<string>): (m: nat)
    ensures forall p :: p in paths ==> |p| <= m
    decreases |paths|
  {
    if paths == {} then 0
    else
      var p :| p in paths;
      var rest := MaxLength(paths - {p});
      if |p| > rest then |p| else rest
  }

  /** Numbers with more digits than any existing path is long give free names: this
      is why the search ends on a finite file system. */
  lemma FarNumbersAreFree(existing: set<string>, root: string, ext: string, i: nat)
    requires i >= Pow10(MaxLength(existing))
    ensures Numbered(root, i, ext) !in existing
  {
    DecimalLength(i, MaxLength(existing));
  }

  /** Returns `path` when it does not exist, and otherwise `root (i)ext` for the
      smallest i >= 2 whose name does not exist, where (root, ext) = splitext(path). */
  method EnsureUniquePath(existing: set<string>, splitext: string -> (string, string), path: string)
    returns (r: string)
    ensures r !in existing
    ensures path !in existing ==> r == path
    ensures path in existing ==>
              exists i :: 2 <= i && r == Numbered(splitext(path).0, i, splitext(path).1)
                          && forall k :: 2 <= k < i ==> Numbered(splitext(path).0, k, splitext(path).1) in existing
  {
    if path !in existing {
      return path;
    }
    var parts := splitext(path);
    var root, ext := parts.0, parts.1;
    ghost var far := Pow10(MaxLength(existing));
    var i := 2;
    while Numbered(root, i, ext) in existing
      invariant 2 <= i <= far + 2
      invariant forall k :: 2 <= k < i ==> Numbered(root, k, ext) in existing
      decreases far + 2 - i
    {
      if i >= far {
        FarNumbersAreFree(existing, root, ext, i);
      }
      i := i + 1;
    }
    r := Numbered(root, i, ext);
  }

  /** The last index of `c` in `s`, or -1 when there is none. */
  function LastIndexOf(s: string, c: char): (r: int)
    ensures -1 <= r < |s|
    ensures r >= 0 ==> s[r] == c
    ensures forall k :: r < k < |s| ==> s[k] != c
    decreases |s|
  {
    if s == [] then -1
    else if s[|s| - 1] == c then |s| - 1
    else LastIndexOf(s[..|s| - 1], c)
  }

  /** POSIX `os.path.splitext`: the extension runs from the last dot of the last path
      component, unless everything before that dot in the component is dots. */
  function PosixSplitExt(p: string): (r: (string, string))
    ensures r.0 + r.1 == p
    ensures r.1 == [] || (r.1[0] == '.' && forall k :: 0 < k < |r.1| ==> r.1[k] != '.' && r.1[k] != '/')
    ensures r.1 != [] <==> HasExtension(p)
  {
    var sep := LastIndexOf(p, '/');
    var dot := LastIndexOf(p, '.');
    ExtensionAtLastDot(p);
    if dot > sep && exists k :: sep + 1 <= k < dot && p[k] != '.' then (p[..dot], p[dot..])
    else (p, [])
  }

  /** The last component has an extension exactly when its last dot comes after a
      character other than a dot inside that component. */
  lemma ExtensionAtLastDot(p: string)
    ensures var sep, dot := LastIndexOf(p, '/'), LastIndexOf(p, '.');
            HasExtension(p) <==> dot > sep && exists k :: sep + 1 <= k < dot && p[k] != '.'
  {
    var sep, dot := LastIndexOf(p, '/'), LastIndexOf(p, '.');
    if dot > sep && exists k :: sep + 1 <= k < dot && p[k] != '.' {
      var k :| sep + 1 <= k < dot && p[k] != '.';
      assert sep < k < dot < |p| && p[dot] == '.' && p[k] != '.';
    } else {
      forall a, b | sep < a < b < |p| && p[b] == '.' ensures p[a] == '.' {
        assert b <= dot;
        assert sep + 1 <= a < dot;
      }
    }
  }

  /** The last path component has a dot with some character other than a dot
      before it inside that component. */
  ghost predicate HasExtension(p: string)
  {
    var sep := LastIndexOf(p, '/');
    exists a, b :: sep < a < b < |p| && p[b] == '.' && p[a] != '.'
  }

  /** The last index of `c` is the position of `c` that no later `c` follows. */
  lemma LastIndexOfIs(s: string, c: char, i: int)
    requires -1 <= i < |s| && (i >= 0 ==> s[i] == c)
    requires forall k :: i < k < |s| ==> s[k] != c
    ensures LastIndexOf(s, c) == i
  {
  }

  /** Splitting a few names the way POSIX `os.path.splitext` does. */
  lemma PosixSplitExtExamples()
    ensures PosixSplitExt("a.pdf") == ("a", ".pdf")
    ensures PosixSplitExt("d/.b") == ("d/.b", "")
    ensures PosixSplitExt("x.tar.gz") == ("x.tar", ".gz")
  {
    var p1: string := "a.pdf";
    LastIndexOfIs(p1, '/', -1);
    LastIndexOfIs(p1, '.', 1);
    assert -1 + 1 <= 0 < 1 && p1[0] != '.';
    assert p1[..1] == "a" && p1[1..] == ".pdf";
    LastIndexOfIs("d/.b", '/', 1);
    LastIndexOfIs("d/.b", '.', 2);
    var p3: string := "x.tar.gz";
    LastIndexOfIs(p3, '/', -1);
    LastIndexOfIs(p3, '.', 5);
    assert -1 + 1 <= 0 < 5 && p3[0] != '.';
    assert p3[..5] == "x.tar" && p3[5..] == ".gz";
  }

}
