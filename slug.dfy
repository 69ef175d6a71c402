/**
 * The filename stem derived from a movie title (`safe_name`): every maximal run of
 * characters outside `[A-Za-z0-9]` becomes one `-`, hyphens are stripped from both
 * ends, the result is lower-cased and then cut to its first 60 characters.
 */
module Slug {
  import opened Ascii

  const MaxLength: nat := 60

  predicate IsSlugChar(c: char) {
    'a' <= c <= 'z' || '0' <= c <= '9' || c == '-'
  }

  predicate AllSlugChars(s: string) {
    forall i :: 0 <= i < |s| ==> IsSlugChar(s[i])
  }

  predicate AlnumOrHyphen(s: string) {
    forall i :: 0 <= i < |s| ==> IsAlnum(s[i]) || s[i] == '-'
  }

  /** No two adjacent hyphens. */
  predicate NoDoubleHyphen(s: string) {
    forall i :: 0 < i < |s| ==> s[i - 1] != '-' || s[i] != '-'
  }

  /** The ASCII letters and digits of `s`, in order. */
  function AlnumOf(s: string): string {
    if s == [] then [] else (if IsAlnum(s[0]) then [s[0]] else []) + AlnumOf(s[1..])
  }

  /** `s` with every hyphen deleted. */
  function Dehyphen(s: string): string {
    if s == [] then [] else (if s[0] != '-' then [s[0]] else []) + Dehyphen(s[1..])
  }

  lemma {:induction false} DehyphenConcat(a: string, b: string)
    ensures Dehyphen(a + b) == Dehyphen(a) + Dehyphen(b)
  {
    if a == [] {
      assert a + b == b;
    } else {
      assert (a + b)[1..] == a[1..] + b;
      DehyphenConcat(a[1..], b);
    }
  }

  lemma {:induction false} DehyphenLower(s: string)
    ensures Dehyphen(Lower(s)) == Lower(Dehyphen(s))
  {
    if s != [] {
      assert Lower(s)[1..] == Lower(s[1..]);
      DehyphenLower(s[1..]);
      LowerConcat(if s[0] != '-' then [s[0]] else [], Dehyphen(s[1..]));
    }
  }

  /** Drops the run of non-alphanumeric characters at the front of `s`. */
  function SkipRun(s: string): string {
    if s != [] && !IsAlnum(s[0]) then SkipRun(s[1..]) else s
  }

  /** What is left is a suffix that starts with a letter or digit, with the same letters and digits. */
  lemma SkipRunShape(s: string)
    ensures |SkipRun(s)| <= |s| && SkipRun(s) == s[|s| - |SkipRun(s)|..]
    ensures SkipRun(s) == [] || IsAlnum(SkipRun(s)[0])
    ensures AlnumOf(SkipRun(s)) == AlnumOf(s)
  {
    SkipRunSuffix(s);
    SkipRunContent(s);
  }

  lemma {:induction false} SkipRunSuffix(s: string)
    ensures |SkipRun(s)| <= |s| && SkipRun(s) == s[|s| - |SkipRun(s)|..]
    ensures SkipRun(s) == [] || IsAlnum(SkipRun(s)[0])
  {
    if s != [] && !IsAlnum(s[0]) {
      var t := s[1..];
      SkipRunSuffix(t);
      var r := SkipRun(t);
      assert t[|t| - |r|..] == s[|s| - |r|..];
    }
  }

  lemma {:induction false} SkipRunContent(s: string)
    ensures AlnumOf(SkipRun(s)) == AlnumOf(s)
  {
    if s != [] && !IsAlnum(s[0]) {
      SkipRunContent(s[1..]);
      assert AlnumOf(s) == AlnumOf(s[1..]);
    }
  }

  /** `re.sub(r'[^A-Za-z0-9]+', '-', s)`: each maximal non-alphanumeric run becomes one hyphen. */
  function Collapse(s: string): string
    decreases |s|
  {
    if s == [] then []
    else if IsAlnum(s[0]) then [s[0]] + Collapse(s[1..])
    else
      SkipRunShape(s[1..]);
      "-" + Collapse(SkipRun(s[1..]))
  }

  /**
   * The run collapse is empty only for the empty string, starts with a hyphen exactly
   * when `s` starts outside `[A-Za-z0-9]`, holds only letters, digits and single
   * hyphens, and deleting its hyphens gives the letters and digits of `s` in order.
   */
  lemma {:induction false} CollapseShape(s: string)
    ensures Collapse(s) == [] <==> s == []
    ensures Collapse(s) != [] ==> (Collapse(s)[0] == '-' <==> !IsAlnum(s[0]))
    ensures AlnumOrHyphen(Collapse(s))
    ensures NoDoubleHyphen(Collapse(s))
    ensures Dehyphen(Collapse(s)) == AlnumOf(s)
    decreases |s|
  {
    if s != [] {
      if IsAlnum(s[0]) {
        var rest := Collapse(s[1..]);
        CollapseShape(s[1..]);
        assert Collapse(s) == [s[0]] + rest;
        assert ([s[0]] + rest)[1..] == rest;
      } else {
        var t := SkipRun(s[1..]);
        SkipRunShape(s[1..]);
        var rest := Collapse(t);
        CollapseShape(t);
        assert Collapse(s) == "-" + rest;
        assert ("-" + rest)[1..] == rest;
        assert AlnumOf(s) == AlnumOf(s[1..]);
      }
    }
  }

  /** `lstrip('-')`. */
  function TrimStart(s: string): string {
    if s != [] && s[0] == '-' then TrimStart(s[1..]) else s
  }

  /** `rstrip('-')`. */
  function TrimEnd(s: string): string {
    if s != [] && s[|s| - 1] == '-' then TrimEnd(s[..|s| - 1]) else s
  }

  /** `lstrip` removes leading hyphens only, and all of them. */
  lemma {:induction false} TrimStartShape(s: string)
    ensures |TrimStart(s)| <= |s| && TrimStart(s) == s[|s| - |TrimStart(s)|..]
    ensures TrimStart(s) == [] || TrimStart(s)[0] != '-'
    ensures Dehyphen(TrimStart(s)) == Dehyphen(s)
  {
    if s != [] && s[0] == '-' {
      TrimStartShape(s[1..]);
    }
  }

  /** `rstrip` removes trailing hyphens only, and all of them. */
  lemma {:induction false} TrimEndShape(s: string)
    ensures |TrimEnd(s)| <= |s| && TrimEnd(s) == s[..|TrimEnd(s)|]
    ensures TrimEnd(s) == [] || TrimEnd(s)[|TrimEnd(s)| - 1] != '-'
    ensures Dehyphen(TrimEnd(s)) == Dehyphen(s)
  {
    if s != [] && s[|s| - 1] == '-' {
      var init := s[..|s| - 1];
      TrimEndShape(init);
      assert s == init + [s[|s| - 1]];
      DehyphenConcat(init, [s[|s| - 1]]);
      assert Dehyphen([s[|s| - 1]]) == [];
      assert init[..|TrimEnd(init)|] == s[..|TrimEnd(init)|];
    }
  }

  /** `strip('-')`. */
  function Strip(s: string): string {
    TrimEnd(TrimStart(s))
  }

  /** The slug before the 60-character cut. */
  function Slugify(title: string): string {
    Lower(Strip(Collapse(title)))
  }

  /** A contiguous piece of a string keeps its character classes and its hyphen spacing. */
  lemma PieceInherits(s: string, lo: nat, hi: nat)
    requires lo <= hi <= |s|
    requires AlnumOrHyphen(s) && NoDoubleHyphen(s)
    ensures AlnumOrHyphen(s[lo..hi]) && NoDoubleHyphen(s[lo..hi])
  {
    var p := s[lo..hi];
    assert forall i :: 0 <= i < |p| ==> p[i] == s[lo + i];
  }

  /** Stripping a collapsed string leaves a hyphen-free border and the same letters and digits. */
  lemma StripShape(s: string)
    requires AlnumOrHyphen(s) && NoDoubleHyphen(s)
    ensures AlnumOrHyphen(Strip(s)) && NoDoubleHyphen(Strip(s))
    ensures Strip(s) == [] || (Strip(s)[0] != '-' && Strip(s)[|Strip(s)| - 1] != '-')
    ensures Dehyphen(Strip(s)) == Dehyphen(s)
  {
    var t := TrimStart(s);
    TrimStartShape(s);
    PieceInherits(s, |s| - |t|, |s|);
    var u := TrimEnd(t);
    TrimEndShape(t);
    PieceInherits(t, 0, |u|);
    if u != [] {
      assert u[0] == t[0];
    }
  }

  /** Lower-casing turns letters, digits and hyphens into slug characters and moves no hyphen. */
  lemma LowerShape(s: string)
    requires AlnumOrHyphen(s) && NoDoubleHyphen(s)
    ensures AllSlugChars(Lower(s)) && NoDoubleHyphen(Lower(s))
    ensures forall i :: 0 <= i < |s| ==> (Lower(s)[i] == '-' <==> s[i] == '-')
    ensures Dehyphen(Lower(s)) == Lower(Dehyphen(s))
  {
    var l := Lower(s);
    assert |l| == |s| && forall i :: 0 <= i < |s| ==> l[i] == LowerChar(s[i]);
    DehyphenLower(s);
  }

  /**
   * The slug before the cut is made of `a-z`, `0-9` and `-`, neither starts nor ends
   * with a hyphen and has no two adjacent hyphens.
   */
  lemma SlugifyShape(title: string)
    ensures AllSlugChars(Slugify(title)) && NoDoubleHyphen(Slugify(title))
    ensures Slugify(title) == [] || Slugify(title)[0] != '-'
    ensures Slugify(title) == [] || Slugify(title)[|Slugify(title)| - 1] != '-'
  {
    CollapseShape(title);
    StripShape(Collapse(title));
    LowerShape(Strip(Collapse(title)));
  }

  /**
   * Deleting the hyphens of the slug before the cut leaves exactly the title's letters
   * and digits, lower-cased, in their original order; so the slug is empty exactly when
   * the title has no ASCII letter or digit.
   */
  lemma SlugifyContent(title: string)
    ensures Dehyphen(Slugify(title)) == Lower(AlnumOf(title))
    ensures Slugify(title) == [] <==> AlnumOf(title) == []
  {
    var st := Strip(Collapse(title));
    CollapseShape(title);
    StripShape(Collapse(title));
    LowerShape(st);
    var s := Slugify(title);
    if s != [] {
      SlugifyShape(title);
      assert Dehyphen(s) != [] by {
        assert Dehyphen(s) == [s[0]] + Dehyphen(s[1..]);
      }
    }
  }

  /** The 60-character cut `name[:60]`. */
  function Cut(s: string): string {
    if |s| <= MaxLength then s else s[..MaxLength]
  }

  /** The cut keeps a prefix, and a prefix keeps the characters and hyphen spacing of a slug. */
  lemma CutShape(s: string)
    requires AllSlugChars(s) && NoDoubleHyphen(s)
    requires s == [] || (s[0] != '-' && s[|s| - 1] != '-')
    ensures |Cut(s)| == (if |s| <= MaxLength then |s| else MaxLength) && Cut(s) == s[..|Cut(s)|]
    ensures AllSlugChars(Cut(s)) && NoDoubleHyphen(Cut(s))
    ensures Cut(s) == [] <==> s == []
    ensures Cut(s) == [] || Cut(s)[0] != '-'
    ensures Cut(s) != [] && Cut(s)[|Cut(s)| - 1] == '-' ==> |s| > MaxLength
  {
    var p := Cut(s);
    assert forall i :: 0 <= i < |p| ==> p[i] == s[i];
  }

  /** `safe_name(title)`, the filename stem for a title. */
  function SafeName(title: string): string {
    Cut(Slugify(title))
  }

  /**
   * `safe_name` returns at most 60 characters from `a-z`, `0-9` and `-`: the first
   * `min(60, n)` characters of the uncut slug of length `n`; it never starts with a hyphen and has no two adjacent hyphens; it is empty
   * exactly when the title has no ASCII letter or digit; and it ends with a hyphen only
   * when the cut, made after the strip, fell just after one.
   */
  lemma SafeNameShape(title: string)
    ensures |SafeName(title)| <= MaxLength
    ensures AllSlugChars(SafeName(title)) && NoDoubleHyphen(SafeName(title))
    ensures |SafeName(title)| == (if |Slugify(title)| <= MaxLength then |Slugify(title)| else MaxLength)
    ensures SafeName(title) == Slugify(title)[..|SafeName(title)|]
    ensures SafeName(title) == [] || SafeName(title)[0] != '-'
    ensures SafeName(title) == [] <==> AlnumOf(title) == []
    ensures SafeName(title) != [] && SafeName(title)[|SafeName(title)| - 1] == '-' ==> |Slugify(title)| > MaxLength
  {
    SlugifyShape(title);
    SlugifyContent(title);
    CutShape(Slugify(title));
  }

  predicate AllAlnum(s: string) {
    forall i :: 0 <= i < |s| ==> IsAlnum(s[i])
  }

  /** A leading run of letters and digits passes the run collapse unchanged. */
  lemma {:induction false} CollapseAlnumPrefix(u: string, w: string)
    requires AllAlnum(u)
    ensures Collapse(u + w) == u + Collapse(w)
  {
    if u != [] {
      var s := u + w;
      assert s[0] == u[0] && IsAlnum(s[0]);
      assert s[1..] == u[1..] + w;
      CollapseAlnumPrefix(u[1..], w);
      var cw := Collapse(w);
      assert u == [u[0]] + u[1..];
      assert [u[0]] + (u[1..] + cw) == ([u[0]] + u[1..]) + cw;
    } else {
      assert u + w == w;
    }
  }

  /**
   * The cut can leave a trailing hyphen: 59 letters or digits, one separator and more
   * letters or digits give a stem of the 59 characters, lower-cased, and a hyphen.
   */
  lemma SafeNameTrailingHyphen(u: string, v: string)
    requires |u| == MaxLength - 1 && AllAlnum(u)
    requires v != [] && AllAlnum(v)
    ensures SafeName(u + " " + v) == Lower(u) + "-"
  {
    SlugifyJoin(u, " ", v);
    var l := Lower(u) + "-";
    var x := l + Slugify(v);
    assert |Lower(u)| == |u|;
    assert x[..MaxLength] == l;
  }

  /** No character of `r` is an ASCII letter or digit. */
  predicate NoAlnum(r: string) {
    forall k :: 0 <= k < |r| ==> !IsAlnum(r[k])
  }

  /** A run of non-alphanumerics before a letter or digit (or the end) is skipped whole. */
  lemma {:induction false} SkipRunAll(r: string, w: string)
    requires NoAlnum(r)
    requires w == [] || IsAlnum(w[0])
    ensures SkipRun(r + w) == w
  {
    if r == [] {
      assert r + w == w;
    } else {
      assert (r + w)[0] == r[0];
      assert (r + w)[1..] == r[1..] + w;
      SkipRunAll(r[1..], w);
    }
  }

  /**
   * The run collapse at a separator: after a run `u` of letters and digits, a maximal
   * non-empty run `r` of other characters becomes exactly one hyphen.
   */
  lemma CollapseRun(u: string, r: string, w: string)
    requires AllAlnum(u)
    requires r != [] && NoAlnum(r)
    requires w == [] || IsAlnum(w[0])
    ensures Collapse(u + r + w) == u + "-" + Collapse(w)
  {
    var t := r + w;
    assert Collapse(u + r + w) == u + Collapse(t) by {
      assert u + r + w == u + t;
      CollapseAlnumPrefix(u, t);
    }
    assert Collapse(t) == "-" + Collapse(w) by {
      assert t[0] == r[0] && !IsAlnum(t[0]);
      assert t[1..] == r[1..] + w;
      SkipRunAll(r[1..], w);
    }
  }

  /** `rstrip('-')` of a text whose tail starts with a non-hyphen only touches that tail. */
  lemma {:induction false} TrimEndAppend(a: string, c: string)
    requires c != [] && c[0] != '-'
    ensures TrimEnd(a + c) == a + TrimEnd(c)
    decreases |c|
  {
    var s := a + c;
    if s[|s| - 1] == '-' {
      assert |c| >= 2;
      var c' := c[..|c| - 1];
      assert s[..|s| - 1] == a + c';
      TrimEndAppend(a, c');
    }
  }

  /** A title made only of letters and digits is its own slug, lower-cased. */
  lemma SlugifyAlnum(u: string)
    requires AllAlnum(u)
    ensures Slugify(u) == Lower(u)
  {
    CollapseAlnumPrefix(u, []);
    assert u + [] == u;
    assert Collapse(u) == u;
    assert TrimStart(u) == u;
    assert TrimEnd(u) == u;
  }

  /** Characters outside `[A-Za-z0-9]` before the first letter or digit leave no trace. */
  lemma SlugifyDropsLeading(r: string, w: string)
    requires NoAlnum(r)
    requires w == [] || IsAlnum(w[0])
    ensures Slugify(r + w) == Slugify(w)
  {
    var c := Collapse(w);
    CollapseShape(w);
    if r == [] {
      assert r + w == w;
    } else {
      var t := r + w;
      assert t[0] == r[0] && t[1..] == r[1..] + w;
      SkipRunAll(r[1..], w);
      assert Collapse(t) == "-" + c;
      assert ("-" + c)[1..] == c;
      assert TrimStart(c) == c;
      assert TrimStart(Collapse(t)) == c;
    }
  }

  /**
   * Each separator inside a title becomes exactly one hyphen of the slug: a run of letters
   * and digits, a maximal run of other characters and the rest of the title give the run
   * lower-cased, one `-`, and the slug of the rest.
   */
  lemma SlugifyJoin(u: string, r: string, w: string)
    requires u != [] && AllAlnum(u)
    requires r != [] && NoAlnum(r)
    requires w != [] && IsAlnum(w[0])
    ensures Slugify(u + r + w) == Lower(u) + "-" + Slugify(w)
  {
    var c := Collapse(w);
    CollapseShape(w);
    CollapseRun(u, r, w);
    var x := u + "-" + c;
    assert x[0] == u[0] && x[0] != '-';
    assert TrimStart(x) == x;
    assert TrimStart(c) == c;
    TrimEndAppend(u + "-", c);
    LowerConcat(u + "-", TrimEnd(c));
    LowerConcat(u, "-");
    assert Lower("-") == "-";
  }


  /** Skipping a leading run only looks at the front: a string ending in a letter or digit shields what follows it. */
  lemma {:induction false} SkipRunAppend(a: string, b: string)
    requires a != [] && IsAlnum(a[|a| - 1])
    ensures SkipRun(a + b) == SkipRun(a) + b
    ensures SkipRun(a) != [] && SkipRun(a)[|SkipRun(a)| - 1] == a[|a| - 1]
    ensures |SkipRun(a)| <= |a|
  {
    var s := a + b;
    assert s[0] == a[0];
    if !IsAlnum(a[0]) {
      assert |a| >= 2;
      assert s[1..] == a[1..] + b;
      SkipRunAppend(a[1..], b);
    }
  }

  /**
   * The run collapse at the end of a title: after a string ending in a letter or digit,
   * a non-empty run of other characters becomes one trailing hyphen.
   */
  lemma {:induction false} CollapseTrailing(w: string, r: string)
    requires w != [] && IsAlnum(w[|w| - 1])
    requires r != [] && NoAlnum(r)
    ensures Collapse(w + r) == Collapse(w) + "-"
    ensures Collapse(w) != [] && IsAlnum(Collapse(w)[|Collapse(w)| - 1])
    decreases |w|
  {
    var s := w + r;
    assert s[0] == w[0];
    if IsAlnum(w[0]) {
      if |w| == 1 {
        assert s[1..] == r;
        assert Collapse(r) == "-" by {
          assert r[1..] + [] == r[1..];
          SkipRunAll(r[1..], []);
        }
        assert w[1..] == [];
      } else {
        assert s[1..] == w[1..] + r;
        CollapseTrailing(w[1..], r);
        assert Collapse(s) == [w[0]] + (Collapse(w[1..]) + "-");
      }
    } else {
      assert |w| >= 2;
      assert s[1..] == w[1..] + r;
      SkipRunAppend(w[1..], r);
      var t := SkipRun(w[1..]);
      CollapseTrailing(t, r);
      assert Collapse(s) == "-" + (Collapse(t) + "-");
    }
  }

  /** `lstrip('-')` of a text ending in a non-hyphen only touches its front. */
  lemma {:induction false} TrimStartAppend(x: string, c: string)
    requires x != [] && x[|x| - 1] != '-'
    ensures TrimStart(x + c) == TrimStart(x) + c
    ensures TrimStart(x) != [] && TrimStart(x)[|TrimStart(x)| - 1] == x[|x| - 1]
  {
    var s := x + c;
    assert s[0] == x[0];
    if x[0] == '-' {
      assert |x| >= 2;
      assert s[1..] == x[1..] + c;
      TrimStartAppend(x[1..], c);
    }
  }

  /** Characters outside `[A-Za-z0-9]` after the last letter or digit leave no trace. */
  lemma SlugifyDropsTrailing(w: string, r: string)
    requires NoAlnum(r)
    requires w == [] || IsAlnum(w[|w| - 1])
    ensures Slugify(w + r) == Slugify(w)
  {
    if r == [] {
      assert w + r == w;
    } else if w == [] {
      assert w + r == r;
      assert Collapse(r) == "-" by {
        assert r[1..] + [] == r[1..];
        SkipRunAll(r[1..], []);
      }
      assert TrimStart("-") == [];
    } else {
      var x := Collapse(w);
      CollapseTrailing(w, r);
      TrimStartAppend(x, "-");
      var y := TrimStart(x);
      assert (y + "-")[..|y|] == y;
      assert TrimEnd(y + "-") == TrimEnd(y);
    }
  }
}
