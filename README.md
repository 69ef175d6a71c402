# Poster localisation and site checks, modelled in Dafny

This project models the logic of two maintenance scripts of a static movie-catalog site.

**`scripts/download_posters.py`** walks the records of `movies.json`. For each record it:
- picks a local file name `<safe_name(title)><ext>` under `posters/`;
- reuses the file when it already exists, and otherwise downloads it;
- points the record's `poster` at `posters/<file>`, or, when the download fails, at a placeholder URL.

It rewrites `movies.json` only when a download was tried. It then always calls `update_index_embedded`, which rewrites the JSON in the `movies-data` script blocks of a page:
- `index.html` is rewritten when it exists and holds such a block;
- `index.local.html` is rewritten when `index.html` exists and the local page exists and holds such a block.

**`scripts/test_suite.py`** does three things:
- searches titles case-insensitively;
- lists the records whose poster file is missing;
- reads a set of presence flags off the text of `index.html`.

Modules, one per concern:

- `Ascii`: the `[A-Za-z0-9]` class and ASCII lower-casing.
- `Slug`: `safe_name`, in these steps:
  - the run collapse `re.sub(r'[^A-Za-z0-9]+', '-', …)`;
  - `strip('-')`;
  - lower-casing;
  - the cut to 60 characters.
- `Extension`: `get_ext_from_url`, in these steps:
  - `split('?')[0]`;
  - POSIX `os.path.splitext`;
  - the whitelist `.jpg .jpeg .png .webp`, checked case-insensitively and returned in the original case.
- `Embedded`: `update_index_embedded`. A page is given already cut at its script blocks. The substitution replaces every block body with `"\n" + json + "\n"`.
- `DownloadPosters`:
  - the record type;
  - the target file name;
  - the specification function `Run` of the loop in `main`, with its properties;
  - the in-place loop `LocalisePosters` over an `array` of records;
  - `RefreshPosters`, which is the whole of `main`.
- `TestSuite`:
  - Python's `in` on strings (`Occurs`), with a position-level reading;
  - the search comprehension;
  - the missing-poster loop `CollectMissing`;
  - the presence flags `CheckPage`.

These are parameters of the model:
- The network answer for the record at position `i` is `succeeds(i)`.
- The files already on disk are a set of names.
- The path join `ROOT / poster` is `resolve`.
- `json.dumps` is `dumps`.
- A missing `index.html` or `index.local.html` is `None`.

A record whose `poster` is not a string always fails the download. Building or opening the request raises (a `ValueError` from `Request` for a value with no URL scheme, such as `None`; a `URLError` from `urlopen` for an unknown scheme, such as the `str` of a JSON object), and `download` catches either inside its `try` and reports a failure. A successful download adds its file to the set on disk, so a later record with the same target name reuses it.

Two behaviours of the code are easy to miss; the model follows the code:

- The stem `safe_name` can end with a hyphen. The cut to 60 characters comes after the strip, so it can fall just after a hyphen. `Slug.SafeNameTrailingHyphen` gives such titles.
- When `index.html` does not exist, `update_index_embedded` returns before it looks at `index.local.html`. So the local page is not updated either.

Three further facts follow from the code:

- A second run leaves a record alone when its title has an ASCII letter or digit and its first-run download did not fail. This holds per record, whatever happened to the other records (`DownloadPosters.RecordSettles`).
- A second run over the catalog changes nothing when:
  - every title has an ASCII letter or digit, and
  - no download failed in the first run.

  This is `DownloadPosters.SecondRunIsNoOp`.
- A title without letters or digits whose poster has a non-`.jpg` extension breaks that. The record is stored as `posters/.png`, which a later run reads as a file without extension, so its target becomes `.jpg` (`DownloadPosters.EmptySlugLosesExtension`).

In the presence flags, the third `role` pattern repeats the second. `card.tabIndex` adds nothing to `tabIndex` (`TestSuite.TabIndexFlag`).

## Model

| member | source | states |
|---|---|---|
| `Ascii.LowerCharMeaning` | scripts/download_posters.py:16 | lower-casing changes a character exactly when it is in `A-Z`, never leaves one in `A-Z`, keeps the class `[A-Za-z0-9]`, and maps `A-Z` onto `a-z` |
| `Ascii.LowerMeaning` | scripts/download_posters.py:16 | a lower-cased string keeps its length and has no `A-Z` left; a string without `A-Z` is unchanged; lower-casing is idempotent |
| `Ascii.LowerConcat` | scripts/test_suite.py:13-14 | lower-casing distributes over concatenation |
| `Slug.SkipRunShape` | scripts/download_posters.py:16 | dropping a leading run of non-alphanumerics leaves a suffix that starts with a letter or digit (or is empty) and keeps the same letters and digits |
| `Slug.CollapseShape` | scripts/download_posters.py:16 | the run collapse is empty only for the empty title, starts with `-` exactly when the title starts with a non-alphanumeric, holds only letters, digits and `-`, has no `--`, and deleting its hyphens gives the title's letters and digits in order |
| `Slug.CollapseAlnumPrefix` | scripts/download_posters.py:16 | a leading run of letters and digits passes the collapse unchanged |
| `Slug.SkipRunAll` | scripts/download_posters.py:16 | a whole run of non-alphanumerics before a letter or digit (or the end) is skipped at once |
| `Slug.CollapseRun` | scripts/download_posters.py:16 | after a run of letters and digits, a maximal non-empty run of other characters becomes exactly one `-` |
| `Slug.DehyphenConcat` | scripts/download_posters.py:16 | deleting hyphens distributes over concatenation |
| `Slug.DehyphenLower` | scripts/download_posters.py:16 | deleting hyphens commutes with lower-casing |
| `Slug.TrimStartShape` | scripts/download_posters.py:16 | `lstrip('-')` leaves a suffix with no leading hyphen and deletes only hyphens |
| `Slug.TrimEndShape` | scripts/download_posters.py:16 | `rstrip('-')` leaves a prefix with no trailing hyphen and deletes only hyphens |
| `Slug.TrimEndAppend` | scripts/download_posters.py:16 | `rstrip('-')` of a text whose tail starts with a non-hyphen changes only that tail |
| `Slug.PieceInherits` | scripts/download_posters.py:16-17 | a slice of a collapsed string keeps its character classes and has no `--` |
| `Slug.StripShape` | scripts/download_posters.py:16 | `strip('-')` of a collapsed string has hyphen-free ends, no `--`, and the same letters and digits |
| `Slug.LowerShape` | scripts/download_posters.py:16 | lower-casing a collapsed string gives only `a-z`, `0-9`, `-`, with the hyphens in the same places |
| `Slug.SlugifyShape` | scripts/download_posters.py:16 | before the cut the stem is made of `a-z`, `0-9`, `-`, has no `--` and neither starts nor ends with `-` |
| `Slug.SlugifyContent` | scripts/download_posters.py:16 | before the cut, deleting the stem's hyphens gives the title's ASCII letters and digits lower-cased in order; the stem is empty exactly when the title has none |
| `Slug.SlugifyAlnum` | scripts/download_posters.py:16 | a title of letters and digits only is its own stem, lower-cased |
| `Slug.SlugifyDropsLeading` | scripts/download_posters.py:16 | characters outside `[A-Za-z0-9]` before the first letter or digit leave no trace in the stem |
| `Slug.SlugifyJoin` | scripts/download_posters.py:16 | each separator inside a title is exactly one `-`: a letter-digit run, a maximal run of other characters and a rest starting with a letter or digit give the run lower-cased, `-`, and the stem of the rest |
| `Slug.SlugifyDropsTrailing` | scripts/download_posters.py:16 | characters outside `[A-Za-z0-9]` after the last letter or digit leave no trace in the stem; with `SlugifyDropsLeading`, `SlugifyJoin` and `SlugifyAlnum` this fixes the stem of every title |
| `Slug.CollapseTrailing` | scripts/download_posters.py:16 | after a text ending in a letter or digit, a trailing run of other characters becomes exactly one final `-`, and the collapse of the text itself ends in a letter or digit |
| `Slug.SkipRunAppend` | scripts/download_posters.py:16 | skipping a leading separator run of a text that ends in a letter or digit leaves whatever follows untouched |
| `Slug.TrimStartAppend` | scripts/download_posters.py:16 | `lstrip('-')` of a text ending in a non-hyphen leaves whatever follows untouched and keeps that last character |
| `Slug.CutShape` | scripts/download_posters.py:17 | `[:60]` keeps exactly the first `min(60, n)` characters of a slug of length `n`, with the slug's shape; it is empty only for the empty slug, and ends with `-` only when it cut a longer slug |
| `Slug.SafeNameShape` | scripts/download_posters.py:15-17 | `safe_name` is exactly the first `min(60, n)` characters of the uncut stem of length `n`, all from `a-z0-9-`, with no `--` and no leading `-`; it is empty exactly when the title has no ASCII letter or digit, and ends with `-` only when the cut fell inside a stem longer than 60 |
| `Slug.SafeNameTrailingHyphen` | scripts/download_posters.py:16-17 | 59 letters or digits, a separator and more letters or digits give the 59 characters lower-cased followed by `-` |
| `Extension.FirstIndex` | scripts/download_posters.py:20 | the position of the first `?`, or the length when there is none |
| `Extension.LastIndex` | scripts/download_posters.py:22 | the position of the last occurrence of a character, or -1 |
| `Extension.BeforeQueryMeaning` | scripts/download_posters.py:20 | `split('?')[0]` is the longest prefix without `?` |
| `Extension.SplitExtMeaning` | scripts/download_posters.py:22 | POSIX `splitext` returns `p[i..]` exactly when `p[i]` is the last dot, no `/` follows it, and a non-dot precedes it in the last component |
| `Extension.GetExtMeaning` | scripts/download_posters.py:19-25 | the result's lower-case form is always whitelisted; the result is `.jpg` or the extension of the text before `?` in its original case; that extension is returned whenever its lower-case form is whitelisted |
| `Extension.DefaultAllowed` | scripts/download_posters.py:23-25 | the default `.jpg` is itself on the whitelist |
| `Extension.AllowedShape` | scripts/download_posters.py:23 | every whitelisted suffix is a dot followed by at least three ASCII letters |
| `Extension.IgnoresQuery` | scripts/download_posters.py:20 | appending `?` and a query to a query-free URL does not change the extension |
| `Extension.LocalPathExt` | scripts/download_posters.py:19-25 | a path `dir/name.ext` with a non-empty dot-free name yields `.ext` again, case included |
| `Extension.BareExtPath` | scripts/download_posters.py:21-25 | a path `dir/.ext` has no `splitext` extension and yields `.jpg` |
| `Extension.KeepsCase` | scripts/download_posters.py:23-24 | `https://host/a.JPG?w=1` yields `.JPG`, not `.jpg` |
| `Embedded.Substitute` | scripts/download_posters.py:51 | every block keeps its opening tag, closing tag and following text, and its body becomes `\n` + JSON + `\n`; the text before the first block is kept |
| `Embedded.SubstituteIgnoresOldBodies` | scripts/download_posters.py:51 | two pages that agree outside the block bodies give the same text after substitution |
| `Embedded.SubstituteTwice` | scripts/download_posters.py:51 | substituting twice equals substituting once with the last JSON |
| `Embedded.SubstituteFrame` | scripts/download_posters.py:51 | substitution keeps everything outside the bodies and makes every body the new JSON |
| `Embedded.FrameAndBodies` | scripts/download_posters.py:48 | a page is determined by its text outside the block bodies together with the bodies |
| `Embedded.SubstituteUnique` | scripts/download_posters.py:51 | the substituted page is the only page with the original's text outside the bodies whose every body is `\n` + JSON + `\n` |
| `Embedded.UpdateIndexEmbedded` | scripts/download_posters.py:42-62 | `index.html` is written exactly when it exists and holds a block; `index.local.html` exactly when `index.html` exists and it exists and holds a block; each with its substituted text |
| `DownloadPosters.RunSnoc` | scripts/download_posters.py:70-90 | the loop over a list plus one record is the loop over the list followed by one turn |
| `DownloadPosters.DiskStep` | scripts/download_posters.py:77-90 | one turn of the loop adds the record's target file exactly when its download was tried and succeeded |
| `DownloadPosters.DownloadedInPrefix` | scripts/download_posters.py:70-90 | whether a record was downloaded does not depend on the records after it |
| `DownloadPosters.RunKeepsRecords` | scripts/download_posters.py:70-90 | the loop keeps the number of records, their order and every key except `poster` |
| `DownloadPosters.RunPrefix` | scripts/download_posters.py:70-90 | stopping the loop early gives a prefix of the full result |
| `DownloadPosters.RunEntry` | scripts/download_posters.py:71-90 | a record whose target file exists gets `posters/<file>` without a download; otherwise a successful download gives `posters/<file>` and a failed one the placeholder URL |
| `DownloadPosters.RunChanged` | scripts/download_posters.py:69-90 | `changed` is set exactly when some record's target file was missing when it was reached |
| `DownloadPosters.RunDisk` | scripts/download_posters.py:77-90 | the files on disk at the end are the initial ones plus the target file of each record whose download was tried and succeeded |
| `DownloadPosters.DiskGrows` | scripts/download_posters.py:77-90 | the files on disk never shrink during the loop |
| `DownloadPosters.LocalCatalogIsFixed` | scripts/download_posters.py:77-80 | a catalog already pointing at existing local files is left as it is, with `changed` false |
| `DownloadPosters.LocalRefKeepsFileName` | scripts/download_posters.py:72-79 | a record repointed at `posters/<file>` keeps the target `<file>` when its stem is non-empty |
| `DownloadPosters.LocalNameExt` | scripts/download_posters.py:19-25 | `posters/<name><ext>` yields `<ext>` again when the name is non-empty and has no dot, slash or `?` |
| `DownloadPosters.BareRefIsDefault` | scripts/download_posters.py:19-25 | `posters/<ext>` yields `.jpg` |
| `DownloadPosters.SecondRunIsNoOp` | scripts/download_posters.py:70-95 | with non-empty stems and no failed download, a second pass over the result changes no record, adds no file and leaves `changed` false |
| `DownloadPosters.RecordSettles` | scripts/download_posters.py:70-90 | per record, whatever the other records did: a record with a non-empty stem that was not a failed download in the first run finds its file on disk in the second run, so no download is tried, and keeps its record unchanged |
| `DownloadPosters.StoresOwnFile` | scripts/download_posters.py:77-90 | a record whose target file was present or whose download succeeded ends pointing at `posters/<file>`, with that file on disk after the loop |
| `DownloadPosters.FindsOwnFile` | scripts/download_posters.py:70-80 | a record already pointing at `posters/<file>` with that file on disk at the start is left unchanged, with no download tried |
| `DownloadPosters.EmptySlugLosesExtension` | scripts/download_posters.py:72-79 | a record with an empty stem and a non-`.jpg` extension gets the target `.jpg` once repointed at `posters/<ext>` |
| `DownloadPosters.LocalisePosters` | scripts/download_posters.py:69-90 | the in-place loop leaves the records, the files on disk and `changed` exactly as `Run` gives them from the original list |
| `DownloadPosters.RefreshPosters` | scripts/download_posters.py:65-96 | `main`: records and files as `Run` gives; `movies.json` written exactly when `changed`, with the serialised new records; the pages written as `update_index_embedded` does, with that same serialisation |
| `TestSuite.OccursIff` | scripts/test_suite.py:14 | `sub in s` holds exactly when `sub` stands in `s` at some position |
| `TestSuite.OccursAtShift` | scripts/test_suite.py:14 | a match at a later position is a match in the tail; a match at the front is a prefix |
| `TestSuite.OccursTrans` | scripts/test_suite.py:42 | a substring of a substring is a substring |
| `TestSuite.OccursInContext` | scripts/test_suite.py:35-53 | a string occurs in any text built around it |
| `TestSuite.SearchCounts` | scripts/test_suite.py:12-14 | each title is returned as many times as the catalog holds it when its lower-case form contains the lower-cased query, and never otherwise |
| `TestSuite.SearchMembers` | scripts/test_suite.py:14 | a title is returned exactly when some record carries it and it matches |
| `TestSuite.SearchConcat` | scripts/test_suite.py:14 | the results follow catalog order: searching two pieces gives the two results in turn |
| `TestSuite.SearchIsSubsequence` | scripts/test_suite.py:14 | the results are a subsequence of the catalog titles |
| `TestSuite.EmptyQueryFindsAll` | scripts/test_suite.py:13-14 | the empty query returns every title in order |
| `TestSuite.CollectMissing` | scripts/test_suite.py:20-24 | the loop builds `(title, path)` for the records whose poster path does not exist, in order; never more than the records, and each path missing |
| `TestSuite.MissingMembers` | scripts/test_suite.py:20-24 | a pair is reported exactly when the path does not exist and some record has that title and resolves to that path |
| `TestSuite.MissingConcat` | scripts/test_suite.py:21-24 | the report follows catalog order |
| `TestSuite.AllPresentIff` | scripts/test_suite.py:26-27 | the report is empty, so "All poster files present." is printed, exactly when every record's poster path exists |
| `TestSuite.TabIndexFlag` | scripts/test_suite.py:42 | the tab-index flag is set exactly when `tabIndex` occurs; `card.tabIndex` adds nothing |
| `TestSuite.GridFlag` | scripts/test_suite.py:36 | the grid flag implies the common prefix `grid-template-columns:repeat(auto-f` occurs |
| `TestSuite.Widen` | scripts/test_suite.py:35-53 | a pattern found in a page is found in any text built around it |
| `TestSuite.FlagsMeaning` | scripts/test_suite.py:35-53 | each flag is set exactly when its patterns stand at some position of the page |
| `TestSuite.FlagsSurviveContext` | scripts/test_suite.py:35-53 | adding text around a page never clears a flag |

## Left out

- The network download (`download`, lines 28-39) is an abstract answer per record, and a download is atomic. In the source, a read that fails after `open(outpath, 'wb')` can leave an empty file behind (line 31). The next run would then take that file as present. The model does not capture this.
- The regular expression engine of line 48. A page is given already cut into the text before the first block and a list of (opening tag, body, closing tag, following text). Finding the blocks is not part of this model.
- `re.sub` template processing of the JSON text (line 51). The model inserts the JSON literally. This agrees with the source only when the JSON holds no backslash.
- JSON parsing and serialisation (lines 49, 67, 92). The serialised catalog is the opaque function `dumps`. A record's keys other than `title` and `poster` are an opaque map, and key order is not modelled.
- Unicode case folding. `str.lower()` is ASCII-only here. After the run collapse this is exact for `safe_name`. For the search it is exact on ASCII titles and queries.
- What the source does with malformed input that crashes it. In `download_posters.py` this is a `title` that is not a string, or a record that is not an object. In `test_suite.py` the lookups `m['title']` and `m['poster']` (lines 14 and 22) raise `KeyError` on a record without that key, and `ROOT / m['poster']` raises `TypeError` on a poster that is not a string. `TestSuite.Listing` holds two strings, so these records cannot be represented.
- `os.path.splitext` on Windows. There `os.path` is `ntpath`, which also splits at `\` and at a drive colon. `Extension.SplitExt` models the POSIX function only.
- `mkdir` of the poster directory, console output, the path constants, and the fixed query list of the test script with its printing loops.
- The path join `ROOT / m['poster']` and `Path.exists` are the parameters `resolve` and `existing`. Reading `index.html` is the text given to `CheckPage`.
- The image scripts `scripts/generate_webp.py`, `scripts/optimize_posters.py` and `scripts/create_no_image.py` are not part of this model.
- `TestSuite.GridFlag`: states only that the grid flag implies the common prefix. `TestSuite.FlagsMeaning` gives the exact condition.
