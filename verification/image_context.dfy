/** `extract_text_around_image`: the text blocks of a page that lie near an
    image, joined and trimmed to a context budget. The function is the same
    in backend/document_processor.py and document_processor_llava.py. Page
    coordinates are PDF points; they are exact reals here, where the source
    has floating point. */
module ImageContext {
  import opened Text

  /** A rectangle `(x0, y0, x1, y1)`. */
  datatype Rect = Rect(x0: real, y0: real, x1: real, y1: real)

  /** One entry of `page.get_text("blocks")`: its rectangle and its text
      (element 4 of the block tuple). */
  datatype Block = Block(rect: Rect, text: string)

  /** How far the image rectangle is widened on every side. */
  const Margin: real := 20.0

  /** The image rectangle widened by `Margin` on all four sides. */
  function Expand(r: Rect): (e: Rect)
    ensures e.x0 == r.x0 - 20.0 && e.y0 == r.y0 - 20.0
    ensures e.x1 == r.x1 + 20.0 && e.y1 == r.y1 + 20.0
  {
    Rect(r.x0 - Margin, r.y0 - Margin, r.x1 + Margin, r.y1 + Margin)
  }

  /** Strict overlap of two rectangles: touching edges do not count. */
  predicate Overlaps(a: Rect, b: Rect) {
    a.x0 < b.x1 && a.x1 > b.x0 && a.y0 < b.y1 && a.y1 > b.y0
  }

  /** A block counts as near the image when it strictly overlaps the
      widened image rectangle. */
  predicate Near(b: Block, image: Rect) {
    Overlaps(b.rect, Expand(image))
  }

  /** The blocks near the image, in page order. */
  function NearbyBlocks(blocks: seq<Block>, image: Rect): (r: seq<Block>)
    ensures |r| <= |blocks|
    decreases |blocks|
  {
    if blocks == [] then []
    else
      var rest := NearbyBlocks(blocks[1..], image);
      if Near(blocks[0], image) then [blocks[0]] + rest else rest
  }

  /** A block is kept exactly when it is on the page and near the image. */
  lemma {:induction false} NearbyBlocksSpec(blocks: seq<Block>, image: Rect)
    ensures forall b :: b in NearbyBlocks(blocks, image) <==> b in blocks && Near(b, image)
    decreases |blocks|
  {
    if blocks != [] {
      NearbyBlocksSpec(blocks[1..], image);
      assert forall b :: b in blocks <==> b == blocks[0] || b in blocks[1..];
    }
  }

  /** Filtering keeps page order: the blocks near the image in `a + b` are
      those near it in `a` followed by those near it in `b`. */
  lemma {:induction false} NearbyBlocksAppend(a: seq<Block>, b: seq<Block>, image: Rect)
    ensures NearbyBlocks(a + b, image) == NearbyBlocks(a, image) + NearbyBlocks(b, image)
    decreases |a|
  {
    if a != [] {
      assert (a + b)[1..] == a[1..] + b;
      NearbyBlocksAppend(a[1..], b, image);
    } else {
      assert a + b == b;
    }
  }

  /** The texts of the given blocks, in order. */
  function BlockTexts(blocks: seq<Block>): (r: seq<string>)
    ensures |r| == |blocks|
    ensures forall i :: 0 <= i < |blocks| ==> r[i] == blocks[i].text
  {
    seq(|blocks|, i requires 0 <= i < |blocks| => blocks[i].text)
  }

  /** The trim step: text longer than `limit` is cut to its first `limit`
      characters and `"..."` is appended; shorter text is left alone. */
  function Truncate(s: string, limit: nat): (r: string)
    ensures |s| <= limit ==> r == s
    ensures |s| > limit ==> |r| == limit + 3 && r[..limit] == s[..limit] && r[limit..] == "..."
    ensures |r| <= limit + 3
  {
    if |s| > limit then s[..limit] + "..." else s
  }

  /** `extract_text_around_image(page, bbox, context_size)`. */
  function TextAroundImage(blocks: seq<Block>, image: Rect, contextSize: nat): string
  {
    Truncate(Join(" ", BlockTexts(NearbyBlocks(blocks, image))), contextSize)
  }

  /** The surrounding text is unchanged when it fits the budget, and is
      otherwise its first `contextSize` characters plus `"..."`; it never
      exceeds `contextSize + 3` characters; with no block near the image it
      is empty. */
  lemma TextAroundImageSpec(blocks: seq<Block>, image: Rect, contextSize: nat)
    ensures var joined := Join(" ", BlockTexts(NearbyBlocks(blocks, image)));
            var r := TextAroundImage(blocks, image, contextSize);
            && (|joined| <= contextSize ==> r == joined)
            && (|joined| > contextSize ==> r == joined[..contextSize] + "...")
            && |r| <= contextSize + 3
            && ((forall b :: b in blocks ==> !Near(b, image)) ==> r == "")
  {
    NearbyBlocksSpec(blocks, image);
    var near := NearbyBlocks(blocks, image);
    if near != [] {
      assert near[0] in near;
    }
  }

  /** The loop of `extract_text_around_image`: walk the blocks and keep
      the text of each one near the image. */
  method CollectNearby(blocks: seq<Block>, image: Rect) returns (nearby: seq<string>)
    ensures nearby == BlockTexts(NearbyBlocks(blocks, image))
  {
    nearby := [];
    ghost var near: seq<Block> := [];
    var expanded := Expand(image);
    var i := 0;
    while i < |blocks|
      invariant 0 <= i <= |blocks|
      invariant near + NearbyBlocks(blocks[i..], image) == NearbyBlocks(blocks, image)
      invariant nearby == BlockTexts(near)
    {
      var box := blocks[i].rect;
      assert blocks[i..][0] == blocks[i] && blocks[i..][1..] == blocks[i + 1..];
      if box.x0 < expanded.x1 && box.x1 > expanded.x0 && box.y0 < expanded.y1 && box.y1 > expanded.y0 {
        assert NearbyBlocks(blocks[i..], image) == [blocks[i]] + NearbyBlocks(blocks[i + 1..], image);
        near := near + [blocks[i]];
        nearby := nearby + [blocks[i].text];
      }
      i := i + 1;
    }
    assert NearbyBlocks(blocks[i..], image) == [];
    assert near == NearbyBlocks(blocks, image);
  }

  /** `extract_text_around_image`: the nearby texts joined with single
      spaces, then trimmed to the budget. */
  method CollectTextAroundImage(blocks: seq<Block>, image: Rect, contextSize: nat) returns (context: string)
    ensures context == TextAroundImage(blocks, image, contextSize)
    ensures |context| <= contextSize + 3
  {
    var nearby := CollectNearby(blocks, image);
    context := Join(" ", nearby);
    if |context| > contextSize {
      context := context[..contextSize] + "...";
    }
  }
}
