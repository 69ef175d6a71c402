/**
 * The poster file extension derived from a URL (`get_ext_from_url`): the text before
 * the first `?` is split as `os.path.splitext` does on POSIX, and its suffix is kept,
 * in its original case, when its lower-case form is one of four image extensions;
 * otherwise the extension is `.jpg`.
 */
module Extension {
  import opened Ascii

  const Default: string := ".jpg"
  const Allowed: seq<string> := [".jpg", ".jpeg", ".png", ".webp"]

  /** Index of the first `c` in `s`, or `|s|` when there is none. */
  function FirstIndex(s: string, c: char): (r: nat)
    ensures r <= |s|
    ensures forall k :: 0 <= k < r ==> s[k] != c
    ensures r < |s| ==> s[r] == c
  {
    if s == [] || s[0] == c then 0 else 1 + FirstIndex(s[1..], c)
  }

  /** Index of the last `c` in `s` (`str.rfind`), or -1 when there is none. */
  function LastIndex(s: string, c: char): (r: int)
    ensures -1 <= r < |s|
    ensures forall k :: r < k < |s| ==> s[k] != c
    ensures r >= 0 ==> s[r] == c
  {
    if s == [] then -1
    else if s[|s| - 1] == c then |s| - 1
    else LastIndex(s[..|s| - 1], c)
  }

  /** `url.split('?')[0]`. */
  function BeforeQuery(url: string): string {
    url[..FirstIndex(url, '?')]
  }

  /** `url.split('?')[0]` is the longest prefix of `url` without a question mark. */
  lemma BeforeQueryMeaning(url: string)
    ensures var p := BeforeQuery(url);
      && |p| <= |url| && p == url[..|p|]
      && (forall k :: 0 <= k < |p| ==> p[k] != '?')
      && (|p| < |url| ==> url[|p|] == '?')
  {
  }

  /**
   * Reference reading of a POSIX extension: `p[i..]` is the extension of `p` exactly when
   * `p[i]` is the last dot of `p`, no slash follows it, and the last path component holds
   * a character other than a dot before it (so `.bashrc` and `..` have no extension).
   */
  ghost predicate ExtensionAt(p: string, i: int) {
    && 0 <= i < |p| && p[i] == '.'
    && (forall k :: i < k < |p| ==> p[k] != '.' && p[k] != '/')
    && (exists k :: 0 <= k < i && p[k] != '.' && forall m :: k <= m < i ==> p[m] != '/')
  }

  /** Whether `p[lo..hi]` holds a character other than a dot. */
  predicate HasNonDot(p: string, lo: int, hi: int)
    requires 0 <= lo <= hi <= |p|
  {
    exists k :: lo <= k < hi && p[k] != '.'
  }

  /** `os.path.splitext(p)[1]` on POSIX (`genericpath._splitext` with separator `/`). */
  function SplitExt(p: string): string {
    var sep := LastIndex(p, '/');
    var dot := LastIndex(p, '.');
    if dot > sep && HasNonDot(p, sep + 1, dot) then p[dot..] else ""
  }

  /** The computed split agrees with the reference reading, in both directions. */
  lemma SplitExtMeaning(p: string)
    ensures SplitExt(p) != [] ==> ExtensionAt(p, |p| - |SplitExt(p)|)
    ensures forall i :: ExtensionAt(p, i) ==> SplitExt(p) == p[i..]
  {
    var sep := LastIndex(p, '/');
    var dot := LastIndex(p, '.');
    forall i | ExtensionAt(p, i) ensures SplitExt(p) == p[i..] {
      assert dot == i;
      var k :| 0 <= k < i && p[k] != '.' && forall m :: k <= m < i ==> p[m] != '/';
      assert sep < k < dot;
      assert HasNonDot(p, sep + 1, dot);
    }
    if SplitExt(p) != [] {
      var k :| sep + 1 <= k < dot && p[k] != '.';
      assert forall m :: k <= m < dot ==> p[m] != '/';
      assert |p| - |SplitExt(p)| == dot;
    }
  }

  /** `get_ext_from_url(url)`. */
  function GetExt(url: string): string {
    var p := BeforeQuery(url);
    if '.' in p then
      var ext := SplitExt(p);
      if Lower(ext) in Allowed then ext else Default
    else Default
  }

  /**
   * Only the text `p` before the first `?` matters: the extension is `.jpg` or the
   * extension of `p`, kept in its original case; its lower-case form is always allowed;
   * and the extension of `p` is returned whenever its lower-case form is allowed.
   */
  lemma GetExtMeaning(url: string)
    ensures Lower(GetExt(url)) in Allowed
    ensures var p, r := BeforeQuery(url), GetExt(url);
      r == Default || (|r| <= |p| && r == p[|p| - |r|..] && ExtensionAt(p, |p| - |r|))
    ensures var p := BeforeQuery(url);
      forall i :: ExtensionAt(p, i) && Lower(p[i..]) in Allowed ==> GetExt(url) == p[i..]
  {
    SplitExtMeaning(BeforeQuery(url));
    DefaultAllowed();
  }

  lemma DefaultAllowed()
    ensures Lower(Default) in Allowed
  {
    var l := Lower(Default);
    assert l[0] == '.' && l[1] == 'j' && l[2] == 'p' && l[3] == 'g';
    assert l == Allowed[0];
  }

  /** An allowed extension is a dot followed by ASCII letters only. */
  lemma AllowedShape(e: string)
    requires Lower(e) in Allowed
    ensures |e| >= 4 && e[0] == '.'
    ensures forall k :: 0 < k < |e| ==> 'a' <= LowerChar(e[k]) <= 'z' && ('a' <= e[k] <= 'z' || IsUpper(e[k]))
  {
    var l := Lower(e);
    assert |l| == |e| && forall k :: 0 <= k < |e| ==> l[k] == LowerChar(e[k]);
  }

  /** A query string never changes the extension. */
  lemma {:induction false} IgnoresQuery(p: string, q: string)
    requires '?' !in p
    ensures GetExt(p + "?" + q) == GetExt(p)
  {
    var u := p + "?" + q;
    assert forall k :: 0 <= k < |p| ==> u[k] != '?';
    assert u[|p|] == '?';
    assert FirstIndex(u, '?') == |p|;
    assert BeforeQuery(u) == p;
    assert FirstIndex(p, '?') == |p|;
    assert BeforeQuery(p) == p;
  }

  /**
   * A local poster path `dir/name.ext` yields its own extension again, case included,
   * provided `name` is not empty and holds no dot, slash or question mark.
   */
  lemma LocalPathExt(dir: string, name: string, ext: string)
    requires '?' !in dir
    requires name != [] && '.' !in name && '/' !in name && '?' !in name
    requires Lower(ext) in Allowed
    ensures GetExt(dir + "/" + name + ext) == ext
  {
    AllowedShape(ext);
    var p := dir + "/" + name + ext;
    var i := |dir| + 1 + |name|;
    assert forall k :: 0 <= k < |p| ==> p[k] != '?';
    assert FirstIndex(p, '?') == |p|;
    assert BeforeQuery(p) == p;
    assert p[i..] == ext;
    assert p[|dir| + 1] == name[0] && p[|dir| + 1] != '.';
    assert forall m :: |dir| + 1 <= m < i ==> p[m] == name[m - |dir| - 1];
    assert ExtensionAt(p, i);
    GetExtMeaning(p);
  }

  /**
   * A file name that is only an extension, as in `dir/.png`, has no extension for
   * `splitext`, so its path yields `.jpg`.
   */
  lemma BareExtPath(dir: string, ext: string)
    requires '?' !in dir
    requires Lower(ext) in Allowed
    ensures GetExt(dir + "/" + ext) == Default
  {
    AllowedShape(ext);
    var p := dir + "/" + ext;
    var i := |dir| + 1;
    assert forall k :: 0 <= k < |p| ==> p[k] != '?';
    assert FirstIndex(p, '?') == |p|;
    assert BeforeQuery(p) == p;
    assert p[i] == '.' && p[i - 1] == '/';
    assert forall k :: i < k < |p| ==> p[k] == ext[k - i] && p[k] != '.' && p[k] != '/';
    assert LastIndex(p, '.') == i;
    assert LastIndex(p, '/') == i - 1;
    assert SplitExt(p) == [];
    assert Lower([]) == [];
    assert [] !in Allowed;
  }

  /** The suffix keeps its case: `https://host/a.JPG?w=1` yields `.JPG`. */
  lemma KeepsCase()
    ensures GetExt("https://host" + "/" + "a" + ".JPG" + "?" + "w=1") == ".JPG"
  {
    var l := Lower(".JPG");
    assert l[0] == '.' && l[1] == 'j' && l[2] == 'p' && l[3] == 'g';
    assert l == Allowed[0];
    var p := "https://host" + "/" + "a" + ".JPG";
    LocalPathExt("https://host", "a", ".JPG");
    assert forall k :: 0 <= k < |p| ==> p[k] != '?';
    IgnoresQuery(p, "w=1");
  }
}
