/**
 * The embedded copy of the catalog (`update_index_embedded`). A page is held already cut
 * at the matches of `<script ... id="movies-data" ...>...</script>`: the text before the
 * first block, then each block (opening tag, body, closing tag) with the text after it.
 * The substitution turns every body into the new JSON between two newlines.
 */
module Embedded {
  import opened Wrappers

  datatype Block = Block(open: string, body: string, close: string)
  datatype Part = Part(block: Block, tail: string)
  datatype Page = Page(head: string, parts: seq<Part>)

  function RenderParts(ps: seq<Part>): string {
    if ps == [] then []
    else ps[0].block.open + ps[0].block.body + ps[0].block.close + ps[0].tail + RenderParts(ps[1..])
  }

  /** The text of a page. */
  function Render(pg: Page): string {
    pg.head + RenderParts(pg.parts)
  }

  /** The replacement template `\1\n<json>\n\3`, read with its literal newlines. */
  function NewBody(json: string): string {
    "\n" + json + "\n"
  }

  /** The page with every block body replaced; nothing else is touched. */
  function Substitute(pg: Page, json: string): (r: Page)
    ensures r.head == pg.head && |r.parts| == |pg.parts|
    ensures forall i :: 0 <= i < |pg.parts| ==>
      r.parts[i].tail == pg.parts[i].tail
      && r.parts[i].block.open == pg.parts[i].block.open
      && r.parts[i].block.close == pg.parts[i].block.close
      && r.parts[i].block.body == NewBody(json)
  {
    Page(pg.head, seq(|pg.parts|, i requires 0 <= i < |pg.parts| =>
      Part(pg.parts[i].block.(body := NewBody(json)), pg.parts[i].tail)))
  }

  /** The page with every block body emptied: the text the substitution leaves alone. */
  function Frame(pg: Page): Page {
    Page(pg.head, seq(|pg.parts|, i requires 0 <= i < |pg.parts| =>
      Part(pg.parts[i].block.(body := ""), pg.parts[i].tail)))
  }

  /** The bodies of the blocks, in order. */
  function Bodies(pg: Page): seq<string> {
    seq(|pg.parts|, i requires 0 <= i < |pg.parts| => pg.parts[i].block.body)
  }

  /** A page is determined by its frame and its bodies. */
  lemma FrameAndBodies(a: Page, b: Page)
    requires Frame(a) == Frame(b) && Bodies(a) == Bodies(b)
    ensures a == b
  {
    assert |a.parts| == |Frame(a).parts| == |Frame(b).parts| == |b.parts|;
    forall i | 0 <= i < |a.parts| ensures a.parts[i] == b.parts[i] {
      assert Frame(a).parts[i] == Frame(b).parts[i];
      assert Bodies(a)[i] == Bodies(b)[i];
    }
  }

  /** Two pages that agree outside their bodies give the same substituted text. */
  lemma {:induction false} SubstituteIgnoresOldBodies(a: Page, b: Page, json: string)
    requires Frame(a) == Frame(b)
    ensures Render(Substitute(a, json)) == Render(Substitute(b, json))
  {
    assert |a.parts| == |Frame(a).parts| == |Frame(b).parts| == |b.parts|;
    forall i | 0 <= i < |a.parts| ensures Substitute(a, json).parts[i] == Substitute(b, json).parts[i] {
      assert Frame(a).parts[i] == Frame(b).parts[i];
    }
    assert Substitute(a, json) == Substitute(b, json);
  }

  /** Substituting twice is substituting once, with the last JSON. */
  lemma SubstituteTwice(pg: Page, j1: string, j2: string)
    ensures Substitute(Substitute(pg, j1), j2) == Substitute(pg, j2)
  {
  }

  /** The substitution keeps the frame and makes every body the new JSON. */
  lemma SubstituteFrame(pg: Page, json: string)
    ensures Frame(Substitute(pg, json)) == Frame(pg)
    ensures Bodies(Substitute(pg, json)) == seq(|pg.parts|, _ => NewBody(json))
  {
  }

  /**
   * The substituted page is the only page with the original's frame whose every body is
   * the new JSON between two newlines.
   */
  lemma SubstituteUnique(pg: Page, json: string, q: Page)
    requires Frame(q) == Frame(pg)
    requires Bodies(q) == seq(|pg.parts|, _ => NewBody(json))
    ensures q == Substitute(pg, json)
  {
    SubstituteFrame(pg, json);
    FrameAndBodies(q, Substitute(pg, json));
  }

  /**
   * `update_index_embedded`: `index.html` and `index.local.html` are `None` when the file
   * does not exist; the results are the texts written to them, `None` for no write.
   */
  method UpdateIndexEmbedded(index: Option<Page>, local: Option<Page>, json: string)
    returns (indexWrite: Option<string>, localWrite: Option<string>)
    ensures indexWrite.Some? <==> index.Some? && index.value.parts != []
    ensures indexWrite.Some? ==> indexWrite.value == Render(Substitute(index.value, json))
    ensures localWrite.Some? <==> index.Some? && local.Some? && local.value.parts != []
    ensures localWrite.Some? ==> localWrite.value == Render(Substitute(local.value, json))
  {
    indexWrite, localWrite := None, None;
    if index.None? {
      return;
    }
    if index.value.parts != [] {
      indexWrite := Some(Render(Substitute(index.value, json)));
    }
    if local.Some? {
      if local.value.parts != [] {
        localWrite := Some(Render(Substitute(local.value, json)));
      }
    }
  }
}
