/**
 * The checks of `test_suite.py`: the title search, the collection of records whose
 * poster file is missing, and the substring flags read off `index.html`.
 */
module TestSuite {
  import opened Ascii

  /** A catalog record as the checks read it: `m['title']` and `m['poster']`. */
  datatype Listing = Listing(title: string, poster: string)

  /** `sub` stands in `s` at position `i`. */
  ghost predicate OccursAt(sub: string, s: string, i: int) {
    0 <= i <= |s| - |sub| && s[i..i + |sub|] == sub
  }

  /** Python's `sub in s` on strings. */
  function Occurs(sub: string, s: string): bool
    decreases |s|
  {
    if sub <= s then true
    else if s == [] then false
    else Occurs(sub, s[1..])
  }

  /** `sub in s` holds exactly when `sub` stands in `s` at some position. */
  lemma {:induction false} OccursIff(sub: string, s: string)
    ensures Occurs(sub, s) <==> exists i :: OccursAt(sub, s, i)
    decreases |s|
  {
    if sub <= s {
      assert OccursAt(sub, s, 0);
    } else if s == [] {
    } else {
      OccursIff(sub, s[1..]);
      if exists i :: OccursAt(sub, s, i) {
        var i :| OccursAt(sub, s, i);
        OccursAtShift(sub, s, i);
      }
      if Occurs(sub, s[1..]) {
        var i :| OccursAt(sub, s[1..], i);
        assert s[1..][i..i + |sub|] == s[i + 1..i + 1 + |sub|];
        assert OccursAt(sub, s, i + 1);
      }
    }
  }

  /** A match at a later position is a match in the tail, and a match at the front is a prefix. */
  lemma OccursAtShift(sub: string, s: string, i: int)
    requires OccursAt(sub, s, i)
    ensures i == 0 ==> sub <= s
    ensures i > 0 ==> OccursAt(sub, s[1..], i - 1)
  {
    if i > 0 {
      var t := s[1..];
      assert forall k :: i <= k < i + |sub| ==> s[k] == t[k - 1];
      assert t[i - 1..i - 1 + |sub|] == s[i..i + |sub|];
    }
  }

  /** A substring of a substring is a substring. */
  lemma OccursTrans(a: string, b: string, c: string)
    requires Occurs(a, b) && Occurs(b, c)
    ensures Occurs(a, c)
  {
    OccursIff(a, b);
    OccursIff(b, c);
    var i :| OccursAt(a, b, i);
    var j :| OccursAt(b, c, j);
    assert forall m :: 0 <= m < |b| ==> c[j + m] == b[m];
    assert c[j + i..j + i + |a|] == b[i..i + |a|];
    assert OccursAt(a, c, j + i);
    OccursIff(a, c);
  }

  /** A string occurs in any text that contains it. */
  lemma OccursInContext(s: string, pre: string, post: string)
    ensures Occurs(s, pre + s + post)
  {
    var t := pre + s + post;
    assert t[|pre|..|pre| + |s|] == s;
    assert OccursAt(s, t, |pre|);
    OccursIff(s, t);
  }

  /** The `title` of every record, in order. */
  function Titles(ms: seq<Listing>): seq<string> {
    seq(|ms|, i requires 0 <= i < |ms| => ms[i].title)
  }

  /** `ql in m['title'].lower()` with `ql = q.lower()`. */
  predicate Matches(title: string, q: string) {
    Occurs(Lower(q), Lower(title))
  }

  /** `[m['title'] for m in movies if ql in m['title'].lower()]`. */
  function Search(ms: seq<Listing>, q: string): seq<string> {
    if ms == [] then [] else (if Matches(ms[0].title, q) then [ms[0].title] else []) + Search(ms[1..], q)
  }

  /**
   * The search returns every matching title as often as the catalog holds it, and no
   * other title: a title comes back exactly when its lower-case form contains the
   * lower-cased query.
   */
  lemma {:induction false} SearchCounts(ms: seq<Listing>, q: string, t: string)
    ensures multiset(Search(ms, q))[t] == if Matches(t, q) then multiset(Titles(ms))[t] else 0
  {
    if ms != [] {
      SearchCounts(ms[1..], q, t);
      assert Titles(ms) == [ms[0].title] + Titles(ms[1..]);
    }
  }

  /** A title is found exactly when some record carries it and it matches. */
  lemma SearchMembers(ms: seq<Listing>, q: string, t: string)
    ensures t in Search(ms, q) <==> Matches(t, q) && exists i :: 0 <= i < |ms| && ms[i].title == t
  {
    SearchCounts(ms, q, t);
    var ts := Titles(ms);
    assert |ts| == |ms| && forall i :: 0 <= i < |ms| ==> ts[i] == ms[i].title;
    assert t in Titles(ms) <==> exists i :: 0 <= i < |ms| && ms[i].title == t;
  }

  /** The results keep catalog order: searching a catalog in two pieces gives the two results in turn. */
  lemma {:induction false} SearchConcat(a: seq<Listing>, b: seq<Listing>, q: string)
    ensures Search(a + b, q) == Search(a, q) + Search(b, q)
  {
    if a == [] {
      assert a + b == b;
    } else {
      assert (a + b)[1..] == a[1..] + b;
      SearchConcat(a[1..], b, q);
    }
  }

  /** `xs` can be obtained from `ys` by deleting elements. */
  ghost predicate IsSubsequence(xs: seq<string>, ys: seq<string>)
    decreases |ys|
  {
    xs == [] || (ys != [] && ((xs[0] == ys[0] && IsSubsequence(xs[1..], ys[1..])) || IsSubsequence(xs, ys[1..])))
  }

  /** The results are a subsequence of the catalog's titles. */
  lemma {:induction false} SearchIsSubsequence(ms: seq<Listing>, q: string)
    ensures IsSubsequence(Search(ms, q), Titles(ms))
  {
    if ms != [] {
      SearchIsSubsequence(ms[1..], q);
      var ys := Titles(ms);
      assert ys[1..] == Titles(ms[1..]);
      var xs := Search(ms, q);
      if Matches(ms[0].title, q) {
        assert xs[0] == ys[0] && xs[1..] == Search(ms[1..], q);
      } else {
        assert xs == Search(ms[1..], q);
      }
    }
  }

  /** The empty query matches every title. */
  lemma {:induction false} EmptyQueryFindsAll(ms: seq<Listing>)
    ensures Search(ms, "") == Titles(ms)
  {
    if ms != [] {
      EmptyQueryFindsAll(ms[1..]);
      assert Lower("") <= Lower(ms[0].title);
      assert Titles(ms) == [ms[0].title] + Titles(ms[1..]);
    }
  }

  /**
   * The records whose poster file `ROOT / m['poster']` is not among the existing files,
   * as `(title, path)` pairs in catalog order. `resolve` is the path join.
   */
  function Missing(ms: seq<Listing>, resolve: string -> string, existing: set<string>): seq<(string, string)>
    decreases |ms|
  {
    if ms == [] then []
    else
      var m := ms[|ms| - 1];
      Missing(ms[..|ms| - 1], resolve, existing)
        + (if resolve(m.poster) in existing then [] else [(m.title, resolve(m.poster))])
  }

  /** The loop of lines 20-24, which appends every record whose poster file does not exist. */
  method CollectMissing(ms: seq<Listing>, resolve: string -> string, existing: set<string>)
    returns (missing: seq<(string, string)>)
    ensures missing == Missing(ms, resolve, existing)
    ensures |missing| <= |ms|
    ensures forall k :: 0 <= k < |missing| ==> missing[k].1 !in existing
  {
    missing := [];
    for i := 0 to |ms|
      invariant missing == Missing(ms[..i], resolve, existing)
      invariant |missing| <= i
      invariant forall k :: 0 <= k < |missing| ==> missing[k].1 !in existing
    {
      var m := ms[i];
      var p := resolve(m.poster);
      assert ms[..i + 1][..i] == ms[..i];
      if p !in existing {
        missing := missing + [(m.title, p)];
      }
    }
    assert ms[..|ms|] == ms;
  }

  /** A pair is reported exactly when some record has that title and a poster path that does not exist. */
  lemma {:induction false} MissingMembers(ms: seq<Listing>, resolve: string -> string, existing: set<string>, t: string, p: string)
    ensures (t, p) in Missing(ms, resolve, existing)
      <==> p !in existing && exists i :: 0 <= i < |ms| && ms[i].title == t && resolve(ms[i].poster) == p
    decreases |ms|
  {
    if ms != [] {
      var n := |ms| - 1;
      var init := ms[..n];
      MissingMembers(init, resolve, existing, t, p);
      var q := resolve(ms[n].poster);
      var last := if q in existing then [] else [(ms[n].title, q)];
      assert Missing(ms, resolve, existing) == Missing(init, resolve, existing) + last;
      assert forall i :: 0 <= i < n ==> init[i] == ms[i];
    }
  }

  /** The report order is the catalog order. */
  lemma {:induction false} MissingConcat(a: seq<Listing>, b: seq<Listing>, resolve: string -> string, existing: set<string>)
    ensures Missing(a + b, resolve, existing) == Missing(a, resolve, existing) + Missing(b, resolve, existing)
    decreases |b|
  {
    if b == [] {
      assert a + b == a;
    } else {
      var n := |b| - 1;
      assert (a + b)[..|a + b| - 1] == a + b[..n];
      MissingConcat(a, b[..n], resolve, existing);
    }
  }

  /** "All poster files present." is printed exactly when every record's poster file exists. */
  lemma {:induction false} AllPresentIff(ms: seq<Listing>, resolve: string -> string, existing: set<string>)
    ensures Missing(ms, resolve, existing) == [] <==> forall i :: 0 <= i < |ms| ==> resolve(ms[i].poster) in existing
    decreases |ms|
  {
    if ms != [] {
      var n := |ms| - 1;
      var init := ms[..n];
      AllPresentIff(init, resolve, existing);
      var q := resolve(ms[n].poster);
      var last := if q in existing then [] else [(ms[n].title, q)];
      assert Missing(ms, resolve, existing) == Missing(init, resolve, existing) + last;
      assert forall i :: 0 <= i < n ==> init[i] == ms[i];
    }
  }

  /** The flags of the responsive, accessibility and modal checks. */
  datatype PageChecks = PageChecks(
    viewport: bool, grid: bool, tabIndex: bool, role: bool, aria: bool,
    backdrop: bool, dialog: bool, close: bool)

  const GridPrefix: string := "grid-template-columns:repeat(auto-f"
  const GridFit: string := GridPrefix + "it"
  const GridFill: string := GridPrefix + "ill"

  /** The flags computed from the text of `index.html`. */
  function CheckPage(index: string): PageChecks {
    PageChecks(
      viewport := Occurs("<meta name=\"viewport\"", index),
      grid := Occurs(GridFit, index) || Occurs(GridFill, index),
      tabIndex := Occurs("tabIndex", index) || Occurs("card.tabIndex", index),
      role := Occurs("setAttribute('role'", index) || Occurs("setAttribute(\"role\"", index)
              || Occurs("setAttribute(\"role\"", index),
      aria := Occurs("aria-pressed", index) && Occurs("aria-label", index),
      backdrop := Occurs("id=\"movieModalBackdrop\"", index),
      dialog := Occurs("role=\"dialog\"", index) || Occurs("id=\"movieModal\"", index),
      close := Occurs("id=\"modalClose\"", index))
  }

  /** The second tab-index pattern adds nothing: the flag is set exactly when `tabIndex` occurs. */
  lemma TabIndexFlag(index: string)
    ensures CheckPage(index).tabIndex <==> Occurs("tabIndex", index)
  {
    if Occurs("card.tabIndex", index) {
      OccursInContext("tabIndex", "card.", "");
      assert "card." + "tabIndex" + "" == "card.tabIndex";
      OccursTrans("tabIndex", "card.tabIndex", index);
    }
  }

  /** The grid flag needs the common prefix `grid-template-columns:repeat(auto-f`. */
  lemma GridFlag(index: string)
    ensures CheckPage(index).grid ==> Occurs(GridPrefix, index)
  {
    var prefix := GridPrefix;
    OccursInContext(prefix, "", "it");
    assert "" + prefix + "it" == GridFit;
    OccursInContext(prefix, "", "ill");
    assert "" + prefix + "ill" == GridFill;
    if Occurs(GridFit, index) {
      OccursTrans(prefix, GridFit, index);
    } else if Occurs(GridFill, index) {
      OccursTrans(prefix, GridFill, index);
    }
  }

  /** A pattern found in a page is found in any text built around the page. */
  lemma Widen(s: string, index: string, pre: string, post: string)
    ensures Occurs(s, index) ==> Occurs(s, pre + index + post)
  {
    if Occurs(s, index) {
      OccursInContext(index, pre, post);
      OccursTrans(s, index, pre + index + post);
    }
  }

  /** Adding text around a page never clears a flag. */
  lemma FlagsSurviveContext(index: string, pre: string, post: string)
    ensures var a, b := CheckPage(index), CheckPage(pre + index + post);
      && (a.viewport ==> b.viewport) && (a.grid ==> b.grid) && (a.tabIndex ==> b.tabIndex)
      && (a.role ==> b.role) && (a.aria ==> b.aria) && (a.backdrop ==> b.backdrop)
      && (a.dialog ==> b.dialog) && (a.close ==> b.close)
  {
    Widen("<meta name=\"viewport\"", index, pre, post);
    Widen(GridFit, index, pre, post);
    Widen(GridFill, index, pre, post);
    Widen("tabIndex", index, pre, post);
    Widen("card.tabIndex", index, pre, post);
    Widen("setAttribute('role'", index, pre, post);
    Widen("setAttribute(\"role\"", index, pre, post);
    Widen("aria-pressed", index, pre, post);
    Widen("aria-label", index, pre, post);
    Widen("id=\"movieModalBackdrop\"", index, pre, post);
    Widen("role=\"dialog\"", index, pre, post);
    Widen("id=\"movieModal\"", index, pre, post);
    Widen("id=\"modalClose\"", index, pre, post);
  }

  /** `s` stands somewhere in `index`. */
  ghost predicate Contains(index: string, s: string) {
    exists i :: OccursAt(s, index, i)
  }

  /** Each flag, read position by position: it is set exactly when its patterns stand in the page. */
  lemma FlagsMeaning(index: string)
    ensures var c := CheckPage(index);
      && (c.viewport <==> Contains(index, "<meta name=\"viewport\""))
      && (c.grid <==> Contains(index, GridFit) || Contains(index, GridFill))
      && (c.tabIndex <==> Contains(index, "tabIndex"))
      && (c.role <==> Contains(index, "setAttribute('role'") || Contains(index, "setAttribute(\"role\""))
      && (c.aria <==> Contains(index, "aria-pressed") && Contains(index, "aria-label"))
      && (c.backdrop <==> Contains(index, "id=\"movieModalBackdrop\""))
      && (c.dialog <==> Contains(index, "role=\"dialog\"") || Contains(index, "id=\"movieModal\""))
      && (c.close <==> Contains(index, "id=\"modalClose\""))
  {
    OccursIff("<meta name=\"viewport\"", index);
    OccursIff(GridFit, index);
    OccursIff(GridFill, index);
    TabIndexFlag(index);
    OccursIff("tabIndex", index);
    OccursIff("setAttribute('role'", index);
    OccursIff("setAttribute(\"role\"", index);
    OccursIff("aria-pressed", index);
    OccursIff("aria-label", index);
    OccursIff("id=\"movieModalBackdrop\"", index);
    OccursIff("role=\"dialog\"", index);
    OccursIff("id=\"movieModal\"", index);
    OccursIff("id=\"modalClose\"", index);
  }
}
