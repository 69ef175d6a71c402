/**
 * The poster-localisation pass of `download_posters.py` (`main`): every movie record gets
 * the target file `<safe_name(title)><ext>`; a file already on disk is reused, otherwise
 * the poster is downloaded, and a failed download leaves the remote placeholder URL.
 * `changed` records whether any download was attempted; the catalog is rewritten only
 * then. Afterwards `update_index_embedded` is always called: it rewrites `index.html`
 * when that file exists and holds a `movies-data` block, and `index.local.html` when
 * `index.html` exists and the local page exists and holds such a block.
 */
module DownloadPosters {
  import opened Wrappers
  import Slug
  import Extension
  import Embedded
  import Ascii

  const DefaultTitle: string := "movie"
  const PosterDir: string := "posters"
  const Placeholder: string := "https://via.placeholder.com/500x750?text=No+Image"

  /** The `poster` key of a record: absent, a JSON string, or some other JSON value (kept serialised). */
  datatype Poster = Absent | Text(s: string) | NonText(json: string)

  /** A catalog record: its title (absent when the key is missing), its poster and its other keys. */
  datatype Movie = Movie(title: Option<string>, poster: Poster, others: map<string, string>)

  /** `m.get('title', 'movie')`. */
  function TitleOf(m: Movie): string {
    match m.title
    case Some(t) => t
    case None => DefaultTitle
  }

  /** `get_ext_from_url(url) if isinstance(url, str) else '.jpg'`. */
  function ExtOf(m: Movie): string {
    match m.poster
    case Text(u) => Extension.GetExt(u)
    case _ => Extension.Default
  }

  /** The target file name `f'{name}{ext}'`. */
  function FileName(m: Movie): string {
    Slug.SafeName(TitleOf(m)) + ExtOf(m)
  }

  /** The catalog reference `f'posters/{filename}'`. */
  function LocalRef(filename: string): string {
    PosterDir + "/" + filename
  }

  /**
   * `download(url, outpath)` for the record visited at position `i`: `succeeds(i)` is what
   * the network answered; a poster that is not a string makes building the request fail,
   * which the function reports as a failed download.
   */
  function Download(m: Movie, i: nat, succeeds: nat -> bool): bool {
    m.poster.Text? && succeeds(i)
  }

  /**
   * The state of the pass: the records visited so far, the files on disk, `changed`.
   * The pass is stated for any naming of target files, `target`; `main` names them with
   * `FileName`, and only the idempotence argument below looks inside that naming.
   */
  datatype Pass = Pass(movies: seq<Movie>, onDisk: set<string>, changed: bool)

  /** One turn of the loop, for the record `m` at position `|p.movies|`. */
  function Visit(p: Pass, m: Movie, target: Movie -> string, succeeds: nat -> bool): Pass {
    var filename := target(m);
    if filename in p.onDisk then
      Pass(p.movies + [m.(poster := Text(LocalRef(filename)))], p.onDisk, p.changed)
    else if !Download(m, |p.movies|, succeeds) then
      Pass(p.movies + [m.(poster := Text(Placeholder))], p.onDisk, true)
    else
      Pass(p.movies + [m.(poster := Text(LocalRef(filename)))], p.onDisk + {filename}, true)
  }

  /** The whole loop over `ms`, starting from the files `onDisk` and `changed = False`. */
  function Run(ms: seq<Movie>, target: Movie -> string, onDisk: set<string>, succeeds: nat -> bool): Pass
    decreases |ms|
  {
    if ms == [] then Pass([], onDisk, false)
    else Visit(Run(ms[..|ms| - 1], target, onDisk, succeeds), ms[|ms| - 1], target, succeeds)
  }

  /** The files on disk when the loop reaches position `i`. */
  function DiskAt(ms: seq<Movie>, i: nat, target: Movie -> string, onDisk: set<string>, succeeds: nat -> bool): set<string>
    requires i <= |ms|
  {
    Run(ms[..i], target, onDisk, succeeds).onDisk
  }

  /** The poster the loop gives the record at position `i`. */
  function Resolved(ms: seq<Movie>, i: nat, target: Movie -> string, onDisk: set<string>, succeeds: nat -> bool): Poster
    requires i < |ms|
  {
    var filename := target(ms[i]);
    if filename in DiskAt(ms, i, target, onDisk, succeeds) then Text(LocalRef(filename))
    else if !Download(ms[i], i, succeeds) then Text(Placeholder)
    else Text(LocalRef(filename))
  }

  lemma RunSnoc(ms: seq<Movie>, m: Movie, target: Movie -> string, onDisk: set<string>, succeeds: nat -> bool)
    ensures Run(ms + [m], target, onDisk, succeeds) == Visit(Run(ms, target, onDisk, succeeds), m, target, succeeds)
  {
    assert (ms + [m])[..|ms|] == ms;
  }

  /** The pass keeps the list length and every key of every record except `poster`. */
  lemma {:induction false} RunKeepsRecords(ms: seq<Movie>, target: Movie -> string, onDisk: set<string>, succeeds: nat -> bool)
    ensures |Run(ms, target, onDisk, succeeds).movies| == |ms|
    ensures forall i :: 0 <= i < |ms| ==>
      Run(ms, target, onDisk, succeeds).movies[i] == ms[i].(poster := Run(ms, target, onDisk, succeeds).movies[i].poster)
  {
    if ms != [] {
      RunKeepsRecords(ms[..|ms| - 1], target, onDisk, succeeds);
    }
  }

  /** Stopping the loop at position `i` gives the first `i` records of the whole pass. */
  lemma {:induction false} RunPrefix(ms: seq<Movie>, i: nat, target: Movie -> string, onDisk: set<string>, succeeds: nat -> bool)
    requires i <= |ms|
    ensures |Run(ms, target, onDisk, succeeds).movies| == |ms|
    ensures Run(ms[..i], target, onDisk, succeeds).movies == Run(ms, target, onDisk, succeeds).movies[..i]
    decreases |ms|
  {
    RunKeepsRecords(ms, target, onDisk, succeeds);
    if i < |ms| {
      var init := ms[..|ms| - 1];
      RunPrefix(init, i, target, onDisk, succeeds);
      assert init[..i] == ms[..i];
      RunKeepsRecords(init, target, onDisk, succeeds);
    } else {
      assert ms[..i] == ms;
    }
  }

  /**
   * The record at position `i` ends with the poster `Resolved` gives it: the local file
   * when `<slug><ext>` is already on disk (no download is tried), else the local file
   * after a successful download and the placeholder URL after a failed one.
   */
  lemma {:induction false} RunEntry(ms: seq<Movie>, i: nat, target: Movie -> string, onDisk: set<string>, succeeds: nat -> bool)
    requires i < |ms|
    ensures |Run(ms, target, onDisk, succeeds).movies| == |ms|
    ensures Run(ms, target, onDisk, succeeds).movies[i] == ms[i].(poster := Resolved(ms, i, target, onDisk, succeeds))
    decreases |ms|
  {
    var init := ms[..|ms| - 1];
    RunKeepsRecords(ms, target, onDisk, succeeds);
    RunKeepsRecords(init, target, onDisk, succeeds);
    if i == |ms| - 1 {
      assert ms[..i] == init;
    } else {
      RunEntry(init, i, target, onDisk, succeeds);
      assert init[..i] == ms[..i];
    }
  }

  /** `changed` is set exactly when some record's target file was missing, i.e. a download was tried. */
  lemma {:induction false} RunChanged(ms: seq<Movie>, target: Movie -> string, onDisk: set<string>, succeeds: nat -> bool)
    ensures Run(ms, target, onDisk, succeeds).changed
      <==> exists i :: 0 <= i < |ms| && target(ms[i]) !in DiskAt(ms, i, target, onDisk, succeeds)
    decreases |ms|
  {
    if ms != [] {
      var n := |ms| - 1;
      var init := ms[..n];
      RunChanged(init, target, onDisk, succeeds);
      assert ms[..n] == init;
      forall i | 0 <= i < n ensures init[i] == ms[i] && DiskAt(init, i, target, onDisk, succeeds) == DiskAt(ms, i, target, onDisk, succeeds) {
        assert init[..i] == ms[..i];
      }
    }
  }

  /** The record at position `i` had its target file missing, and its download succeeded. */
  ghost predicate Downloaded(ms: seq<Movie>, i: nat, target: Movie -> string, onDisk: set<string>, succeeds: nat -> bool)
    requires i < |ms|
  {
    target(ms[i]) !in DiskAt(ms, i, target, onDisk, succeeds) && Download(ms[i], i, succeeds)
  }

  /** One turn adds the record's target file exactly when its download was tried and succeeded. */
  lemma DiskStep(ms: seq<Movie>, target: Movie -> string, onDisk: set<string>, succeeds: nat -> bool)
    requires ms != []
    ensures var n := |ms| - 1;
      Run(ms, target, onDisk, succeeds).onDisk
        == DiskAt(ms, n, target, onDisk, succeeds)
          + (if Downloaded(ms, n, target, onDisk, succeeds) then {target(ms[n])} else {})
  {
    RunKeepsRecords(ms[..|ms| - 1], target, onDisk, succeeds);
  }

  /** Whether a record was downloaded does not depend on the records after it. */
  lemma DownloadedInPrefix(ms: seq<Movie>, n: nat, i: nat, target: Movie -> string, onDisk: set<string>, succeeds: nat -> bool)
    requires i < n <= |ms|
    ensures ms[..n][i] == ms[i]
    ensures Downloaded(ms[..n], i, target, onDisk, succeeds) == Downloaded(ms, i, target, onDisk, succeeds)
  {
    assert ms[..n][..i] == ms[..i];
  }

  /**
   * The files on disk at the end are those at the start plus the target file of every
   * record whose download was tried and succeeded; files are never removed.
   */
  lemma {:induction false} RunDisk(ms: seq<Movie>, target: Movie -> string, onDisk: set<string>, succeeds: nat -> bool)
    ensures onDisk <= Run(ms, target, onDisk, succeeds).onDisk
    ensures forall f :: f in Run(ms, target, onDisk, succeeds).onDisk <==>
      f in onDisk
      || exists i :: 0 <= i < |ms| && f == target(ms[i]) && Downloaded(ms, i, target, onDisk, succeeds)
    decreases |ms|
  {
    if ms != [] {
      var n := |ms| - 1;
      var init := ms[..n];
      RunDisk(init, target, onDisk, succeeds);
      DiskStep(ms, target, onDisk, succeeds);
      var before := Run(init, target, onDisk, succeeds).onDisk;
      assert DiskAt(ms, n, target, onDisk, succeeds) == before;
      forall f
        ensures f in Run(ms, target, onDisk, succeeds).onDisk <==>
          f in onDisk
          || exists i :: 0 <= i < |ms| && f == target(ms[i]) && Downloaded(ms, i, target, onDisk, succeeds)
      {
        if exists i :: 0 <= i < n && f == target(ms[i]) && Downloaded(ms, i, target, onDisk, succeeds) {
          var i :| 0 <= i < n && f == target(ms[i]) && Downloaded(ms, i, target, onDisk, succeeds);
          DownloadedInPrefix(ms, n, i, target, onDisk, succeeds);
          assert f in before;
        }
        if exists i :: 0 <= i < n && f == target(init[i]) && Downloaded(init, i, target, onDisk, succeeds) {
          var i :| 0 <= i < n && f == target(init[i]) && Downloaded(init, i, target, onDisk, succeeds);
          DownloadedInPrefix(ms, n, i, target, onDisk, succeeds);
        }
      }
    }
  }

  /** The files on disk only grow while the loop runs. */
  lemma {:induction false} DiskGrows(ms: seq<Movie>, i: nat, j: nat, target: Movie -> string, onDisk: set<string>, succeeds: nat -> bool)
    requires i <= j <= |ms|
    ensures DiskAt(ms, i, target, onDisk, succeeds) <= DiskAt(ms, j, target, onDisk, succeeds)
    decreases j - i
  {
    if i < j {
      DiskGrows(ms, i, j - 1, target, onDisk, succeeds);
      assert ms[..j] == ms[..j - 1] + [ms[j - 1]];
      RunSnoc(ms[..j - 1], ms[j - 1], target, onDisk, succeeds);
    }
  }

  /**
   * A catalog whose every poster already names its own target file, present on disk, is
   * a fixed point: no download, no change, no new file.
   */
  lemma {:induction false} LocalCatalogIsFixed(ms: seq<Movie>, target: Movie -> string, onDisk: set<string>, succeeds: nat -> bool)
    requires forall i :: 0 <= i < |ms| ==> target(ms[i]) in onDisk
    requires forall i :: 0 <= i < |ms| ==> ms[i].poster == Text(LocalRef(target(ms[i])))
    ensures Run(ms, target, onDisk, succeeds) == Pass(ms, onDisk, false)
    decreases |ms|
  {
    if ms != [] {
      var n := |ms| - 1;
      LocalCatalogIsFixed(ms[..n], target, onDisk, succeeds);
      assert ms[..n] + [ms[n]] == ms;
    }
  }

  /** No download that was tried failed. */
  ghost predicate NoFailedDownload(ms: seq<Movie>, target: Movie -> string, onDisk: set<string>, succeeds: nat -> bool)
  {
    forall i :: 0 <= i < |ms| && target(ms[i]) !in DiskAt(ms, i, target, onDisk, succeeds) ==> Download(ms[i], i, succeeds)
  }

  /** After the pass, a record's target file is unchanged: `posters/<slug><ext>` yields `<ext>` again. */
  lemma LocalRefKeepsFileName(m: Movie)
    requires Slug.SafeName(TitleOf(m)) != []
    ensures FileName(m.(poster := Text(LocalRef(FileName(m))))) == FileName(m)
  {
    var name := Slug.SafeName(TitleOf(m));
    var ext := ExtOf(m);
    assert Ascii.Lower(ext) in Extension.Allowed by {
      if m.poster.Text? {
        Extension.GetExtMeaning(m.poster.s);
      } else {
        Extension.DefaultAllowed();
      }
    }
    assert '.' !in name && '/' !in name && '?' !in name by {
      Slug.SafeNameShape(TitleOf(m));
      assert forall k :: 0 <= k < |name| ==> Slug.IsSlugChar(name[k]);
    }
    LocalNameExt(name, ext);
  }

  /** `posters/<name><ext>` yields `<ext>` again for a stem made of slug characters. */
  lemma LocalNameExt(name: string, ext: string)
    requires name != [] && '.' !in name && '/' !in name && '?' !in name
    requires Ascii.Lower(ext) in Extension.Allowed
    ensures Extension.GetExt(LocalRef(name + ext)) == ext
  {
    var p := PosterDir + "/" + name + ext;
    assert LocalRef(name + ext) == p by {
      assert PosterDir + "/" + (name + ext) == p;
    }
    Extension.LocalPathExt(PosterDir, name, ext);
  }

  /**
   * Running the pass a second time on its own result changes nothing when the first run
   * had no failed download and every title has a non-empty slug.
   */
  lemma SecondRunIsNoOp(ms: seq<Movie>, onDisk: set<string>, first: nat -> bool, second: nat -> bool)
    requires forall i :: 0 <= i < |ms| ==> Slug.SafeName(TitleOf(ms[i])) != []
    requires NoFailedDownload(ms, FileName, onDisk, first)
    ensures var p := Run(ms, FileName, onDisk, first);
      Run(p.movies, FileName, p.onDisk, second) == Pass(p.movies, p.onDisk, false)
  {
    var p := Run(ms, FileName, onDisk, first);
    RunKeepsRecords(ms, FileName, onDisk, first);
    RunDisk(ms, FileName, onDisk, first);
    assert ms[..|ms|] == ms;
    forall i | 0 <= i < |p.movies|
      ensures FileName(p.movies[i]) in p.onDisk
      ensures p.movies[i].poster == Text(LocalRef(FileName(p.movies[i])))
    {
      RunEntry(ms, i, FileName, onDisk, first);
      LocalRefKeepsFileName(ms[i]);
      DiskGrows(ms, i, |ms|, FileName, onDisk, first);
    }
    LocalCatalogIsFixed(p.movies, FileName, p.onDisk, second);
  }

  /**
   * Idempotence for one record: when the first run stored the record's own file (its
   * target was on disk, or its download succeeded) and its slug is non-empty, a second
   * run finds that file on disk, tries no download and leaves the record as it is,
   * whatever happened to the other records.
   */
  lemma RecordSettles(ms: seq<Movie>, i: nat, onDisk: set<string>, first: nat -> bool, second: nat -> bool)
    requires i < |ms| && Slug.SafeName(TitleOf(ms[i])) != []
    requires FileName(ms[i]) !in DiskAt(ms, i, FileName, onDisk, first) ==> Download(ms[i], i, first)
    ensures |Run(ms, FileName, onDisk, first).movies| == |ms|
    ensures var p := Run(ms, FileName, onDisk, first);
      FileName(p.movies[i]) in DiskAt(p.movies, i, FileName, p.onDisk, second)
    ensures var p := Run(ms, FileName, onDisk, first);
      |Run(p.movies, FileName, p.onDisk, second).movies| == |ms|
    ensures var p := Run(ms, FileName, onDisk, first);
      Run(p.movies, FileName, p.onDisk, second).movies[i] == p.movies[i]
  {
    var p := Run(ms, FileName, onDisk, first);
    var m := ms[i].(poster := Text(LocalRef(FileName(ms[i]))));
    StoresOwnFile(ms, i, FileName, onDisk, first);
    assert p.movies[i] == m && FileName(ms[i]) in p.onDisk;
    assert FileName(m) == FileName(ms[i]) by {
      LocalRefKeepsFileName(ms[i]);
    }
    FindsOwnFile(p.movies, i, FileName, p.onDisk, second);
  }

  /** The first run points a record that was not a failed download at its own file, and leaves that file on disk. */
  lemma StoresOwnFile(ms: seq<Movie>, i: nat, target: Movie -> string, onDisk: set<string>, succeeds: nat -> bool)
    requires i < |ms|
    requires target(ms[i]) !in DiskAt(ms, i, target, onDisk, succeeds) ==> Download(ms[i], i, succeeds)
    ensures |Run(ms, target, onDisk, succeeds).movies| == |ms|
    ensures Run(ms, target, onDisk, succeeds).movies[i] == ms[i].(poster := Text(LocalRef(target(ms[i]))))
    ensures target(ms[i]) in Run(ms, target, onDisk, succeeds).onDisk
  {
    var f := target(ms[i]);
    RunEntry(ms, i, target, onDisk, succeeds);
    if f in DiskAt(ms, i, target, onDisk, succeeds) {
      DiskGrows(ms, i, |ms|, target, onDisk, succeeds);
      assert ms[..|ms|] == ms;
    } else {
      RunDisk(ms, target, onDisk, succeeds);
      assert Downloaded(ms, i, target, onDisk, succeeds);
    }
  }

  /** A record already pointing at its own file, present at the start, is left as it is. */
  lemma FindsOwnFile(ms: seq<Movie>, i: nat, target: Movie -> string, onDisk: set<string>, succeeds: nat -> bool)
    requires i < |ms| && target(ms[i]) in onDisk
    requires ms[i].poster == Text(LocalRef(target(ms[i])))
    ensures |Run(ms, target, onDisk, succeeds).movies| == |ms|
    ensures target(ms[i]) in DiskAt(ms, i, target, onDisk, succeeds)
    ensures Run(ms, target, onDisk, succeeds).movies[i] == ms[i]
  {
    DiskGrows(ms, 0, i, target, onDisk, succeeds);
    assert ms[..0] == [];
    RunEntry(ms, i, target, onDisk, succeeds);
  }

  /**
   * Why `SecondRunIsNoOp` needs non-empty slugs: a record whose title has no letter or
   * digit and whose extension is not `.jpg` is stored as `posters/<ext>`, which a later
   * run reads as a file without extension, so its target file becomes `.jpg`.
   */
  lemma EmptySlugLosesExtension(m: Movie)
    requires Slug.SafeName(TitleOf(m)) == [] && ExtOf(m) != Extension.Default
    ensures FileName(m.(poster := Text(LocalRef(FileName(m))))) == Extension.Default
    ensures FileName(m) != Extension.Default
  {
    var ext := ExtOf(m);
    assert FileName(m) == ext;
    assert Ascii.Lower(ext) in Extension.Allowed by {
      Extension.GetExtMeaning(m.poster.s);
    }
    BareRefIsDefault(ext);
  }

  /** `posters/<ext>` names a file without extension. */
  lemma BareRefIsDefault(ext: string)
    requires Ascii.Lower(ext) in Extension.Allowed
    ensures Extension.GetExt(LocalRef(ext)) == Extension.Default
  {
    Extension.BareExtPath(PosterDir, ext);
  }

  lemma PrefixSnoc<T>(s: seq<T>, i: nat, x: T)
    requires i < |s|
    ensures s[i := x][..i + 1] == s[..i] + [x]
  {
  }

  /**
   * The loop of `main`, in place on the list of records. The records, the files on disk
   * and `changed` end as `Run` says.
   */
  method LocalisePosters(movies: array<Movie>, onDisk: set<string>, succeeds: nat -> bool)
    returns (changed: bool, disk: set<string>)
    modifies movies
    ensures Run(old(movies[..]), FileName, onDisk, succeeds) == Pass(movies[..], disk, changed)
  {
    ghost var orig := movies[..];
    changed, disk := false, onDisk;
    for i := 0 to movies.Length
      invariant forall k :: i <= k < movies.Length ==> movies[k] == orig[k]
      invariant Run(orig[..i], FileName, onDisk, succeeds) == Pass(movies[..i], disk, changed)
    {
      var m := movies[i];
      ghost var before := movies[..i];
      ghost var next := Visit(Pass(before, disk, changed), m, FileName, succeeds);
      assert orig[..i + 1] == orig[..i] + [m];
      RunSnoc(orig[..i], m, FileName, onDisk, succeeds);
      var url := m.poster;
      var filename := FileName(m);
      var poster;
      if filename in disk {
        poster := Text(LocalRef(filename));
      } else {
        var ok := url.Text? && succeeds(i);
        assert ok == Download(m, |before|, succeeds);
        if !ok {
          poster := Text(Placeholder);
          changed := true;
        } else {
          poster := Text(LocalRef(filename));
          disk := disk + {filename};
          changed := true;
        }
      }
      ghost var cur := movies[..];
      movies[i] := m.(poster := poster);
      assert movies[..] == cur[i := m.(poster := poster)];
      PrefixSnoc(cur, i, m.(poster := poster));
      assert movies[..i + 1] == movies[..][..i + 1];
      assert next == Pass(movies[..i + 1], disk, changed);
    }
    assert orig[..movies.Length] == orig;
    assert movies[..movies.Length] == movies[..];
  }

  /**
   * What `main` leaves behind: the text written to `movies.json` (`None` when it is not
   * rewritten), the texts written to `index.html` and `index.local.html`, and the poster
   * files on disk.
   */
  datatype Effects = Effects(catalog: Option<string>, index: Option<string>, localIndex: Option<string>, posters: set<string>)

  /**
   * `main`: the localisation loop, then `movies.json` rewritten only if `changed`, then
   * `update_index_embedded` with the same serialisation, which writes each page only
   * under the conditions `Embedded.UpdateIndexEmbedded` states. `dumps` is
   * `json.dumps(movies, ensure_ascii=False, indent=2)`; the pages are `None` when the
   * file does not exist.
   */
  method RefreshPosters(movies: array<Movie>, onDisk: set<string>, succeeds: nat -> bool,
                        dumps: seq<Movie> -> string,
                        index: Option<Embedded.Page>, localIndex: Option<Embedded.Page>)
    returns (e: Effects)
    modifies movies
    ensures var p := Run(old(movies[..]), FileName, onDisk, succeeds);
      movies[..] == p.movies && e.posters == p.onDisk && (e.catalog.Some? <==> p.changed)
    ensures e.catalog.Some? ==> e.catalog.value == dumps(movies[..])
    ensures e.index.Some? <==> index.Some? && index.value.parts != []
    ensures e.index.Some? ==> e.index.value == Embedded.Render(Embedded.Substitute(index.value, dumps(movies[..])))
    ensures e.localIndex.Some? <==> index.Some? && localIndex.Some? && localIndex.value.parts != []
    ensures e.localIndex.Some? ==>
      e.localIndex.value == Embedded.Render(Embedded.Substitute(localIndex.value, dumps(movies[..])))
  {
    var changed, disk := LocalisePosters(movies, onDisk, succeeds);
    var catalog := None;
    if changed {
      catalog := Some(dumps(movies[..]));
    }
    var indexWrite, localWrite := Embedded.UpdateIndexEmbedded(index, localIndex, dumps(movies[..]));
    e := Effects(catalog, indexWrite, localWrite, disk);
  }
}
