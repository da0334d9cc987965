/** One run of `scrape_and_update_index`: fetch, select the program blocks,
    build one card per block until a block raises, and splice the cards into
    the index page. */
module Scraper {
  import opened Text
  import opened Injector
  import opened Extractor

  /** The `view-content` container: the rows its class selector finds, and, for
      each Register button in it, the ancestor standing for that button's
      program (`None` when neither lookup gives one). */
  datatype ViewContent = ViewContent(rows: seq<Block>, registerParents: seq<Option<Block>>)

  /** A parsed page; `viewContent` is `None` when the container is missing. */
  datatype Page = Page(viewContent: Option<ViewContent>)

  /** The list with its missing entries removed, in the same order. */
  function Present(xs: seq<Option<Block>>): (r: seq<Block>)
    ensures |r| <= |xs|
    ensures forall x :: x in r <==> Some(x) in xs
  {
    if |xs| == 0 then []
    else if xs[0].Some? then [xs[0].value] + Present(xs[1..])
    else Present(xs[1..])
  }

  /** Removing missing entries keeps the order of what remains. */
  lemma {:induction false} PresentAppend(xs: seq<Option<Block>>, ys: seq<Option<Block>>)
    ensures Present(xs + ys) == Present(xs) + Present(ys)
  {
    if |xs| == 0 {
      assert xs + ys == ys;
    } else {
      assert (xs + ys)[1..] == xs[1..] + ys;
      PresentAppend(xs[1..], ys);
    }
  }

  /** The blocks to process: the class-selected rows, or when there are none,
      the Register buttons' ancestors that exist. */
  function ProgramBlocks(v: ViewContent): (blocks: seq<Block>)
    ensures |v.rows| > 0 ==> blocks == v.rows
    ensures |v.rows| == 0 ==> blocks == Present(v.registerParents)
    ensures |v.rows| == 0 ==> forall b :: b in blocks <==> Some(b) in v.registerParents
  {
    if |v.rows| > 0 then v.rows else Present(v.registerParents)
  }

  /** Building the card of one block, as one value. */
  function CardBuilder(o: Oracles): Block -> Option<string> {
    b => ExtractCard(b, o)
  }

  /** The cards the loop over `blocks` ends with, `build` giving one block's
      card or `None` when it raises: one card per block, in order, up to the
      first block that raises, which stops the loop. */
  function ExtractedCards(blocks: seq<Block>, build: Block -> Option<string>): (cards: seq<string>)
    ensures |cards| <= |blocks|
    ensures forall i :: 0 <= i < |cards| ==> build(blocks[i]) == Some(cards[i])
    ensures |cards| < |blocks| ==> build(blocks[|cards|]).None?
  {
    if |blocks| == 0 then []
    else match build(blocks[0])
      case None => []
      case Some(card) => [card] + ExtractedCards(blocks[1..], build)
  }

  /** The cards are pinned down by that description: any list that is one
      successful card per block, in order, up to a block that raises or the end,
      is the extracted list. */
  lemma {:induction false} ExtractedCardsUnique(blocks: seq<Block>, build: Block -> Option<string>, cards: seq<string>)
    requires |cards| <= |blocks|
    requires forall i :: 0 <= i < |cards| ==> build(blocks[i]) == Some(cards[i])
    requires |cards| < |blocks| ==> build(blocks[|cards|]).None?
    ensures cards == ExtractedCards(blocks, build)
  {
    if |blocks| > 0 && |cards| > 0 {
      assert build(blocks[0]) == Some(cards[0]);
      ExtractedCardsUnique(blocks[1..], build, cards[1..]);
      assert cards == [cards[0]] + cards[1..];
    }
  }

  /** The loop over the program blocks, appending one card per block; an
      exception ends the loop and `failed` reports it. */
  method BuildCards(blocks: seq<Block>, build: Block -> Option<string>) returns (cards: seq<string>, failed: bool)
    ensures cards == ExtractedCards(blocks, build)
    ensures failed <==> |cards| < |blocks|
  {
    cards := [];
    failed := false;
    var i := 0;
    while i < |blocks|
      invariant 0 <= i <= |blocks| && |cards| == i
      invariant forall j :: 0 <= j < i ==> build(blocks[j]) == Some(cards[j])
      invariant !failed
    {
      var card := build(blocks[i]);
      if card.None? {
        failed := true;
        break;
      }
      cards := cards + [card.value];
      i := i + 1;
    }
    ExtractedCardsUnique(blocks, build, cards);
  }

  /** A whole run. `response` is `None` when the fetch fails; `content` is the
      index page as read. The result is the content written back, or `None`
      when the run returns without writing. */
  method ScrapeAndUpdateIndex(response: Option<Page>, content: string, startMarker: string, endMarker: string, o: Oracles)
    returns (written: Option<string>)
    ensures response.None? ==> written.None?
    ensures response.Some? && response.value.viewContent.None? ==> written.None?
    ensures response.Some? && response.value.viewContent.Some? ==>
      written == Splice(content, startMarker, endMarker, ExtractedCards(ProgramBlocks(response.value.viewContent.value), CardBuilder(o)))
  {
    if response.None? {
      return None;
    }
    var container := response.value.viewContent;
    if container.None? {
      return None;
    }
    var blocks := ProgramBlocks(container.value);
    var cards, _ := BuildCards(blocks, CardBuilder(o));
    written := Splice(content, startMarker, endMarker, cards);
  }
}
