/** The lines the scripts write into a page's image section. The LLaVA
    scripts number every image of the page and skip the ones whose
    extraction raised; the OCR scripts number the images they got back and
    keep only those whose OCR text is not blank, cut to 50 characters. */
module ImageDescriptions {
  import opened Wrappers
  import opened Text

  const LlavaSectionTitle: string := "\n\nIMAGE DESCRIPTIONS:\n"
  const LlavaSeparator: string := "\n\n"
  const OcrSectionTitle: string := "\n\nIMAGES ON THIS PAGE:\n"
  const OcrSeparator: string := "\n"
  const OcrExcerptLength: nat := 50

  /** What every image label opens with. */
  const ImageLead: string := "[Image "

  /** `"[Image {page}.{number}]"`: the page number, a `.` and the image
      number, in decimal, between `[Image ` and `]`. */
  function Label(page: nat, number: nat): (r: string)
    ensures StartsWith(r, ImageLead) && EndsWith(r, "]")
    ensures OccursAt(r, |ImageLead|, NatToString(page))
    ensures OccursAt(r, |ImageLead| + |NatToString(page)|, ".")
    ensures OccursAt(r, |ImageLead| + |NatToString(page)| + 1, NatToString(number))
    ensures |r| == |ImageLead| + |NatToString(page)| + 1 + |NatToString(number)| + 1
  {
    FiveParts(ImageLead, NatToString(page), ".", NatToString(number), "]");
    ImageLead + NatToString(page) + "." + NatToString(number) + "]"
  }

  /** A label names its image: the page and image numbers can be read
      back from it. */
  lemma LabelInjective(p1: nat, k1: nat, p2: nat, k2: nat)
    requires Label(p1, k1) == Label(p2, k2)
    ensures p1 == p2 && k1 == k2
  {
    NumberPairInjective(ImageLead, p1, k1, p2, k2, "]");
  }

  /** `f"[Image {i+1}.{img_index+1}]: {description}"`: the label, `: `,
      and the reply, nothing else. */
  function LlavaEntry(page: nat, number: nat, reply: string): (r: string)
    ensures StartsWith(r, Label(page, number) + ": ") && EndsWith(r, reply)
    ensures OccursAt(r, |Label(page, number)|, ": " + reply)
    ensures |r| == |Label(page, number)| + 2 + |reply|
  {
    var r := Label(page, number) + ": " + reply;
    ThreeParts(Label(page, number), ": ", reply);
    assert r[..|Label(page, number) + ": "|] == Label(page, number) + ": ";
    r
  }

  /** The label an OCR entry opens with: `[Image <page>.<number>: `. */
  function OcrLabel(page: nat, number: nat): (r: string)
    ensures StartsWith(r, ImageLead) && EndsWith(r, ": ")
    ensures OccursAt(r, |ImageLead|, NatToString(page))
    ensures OccursAt(r, |ImageLead| + |NatToString(page)|, ".")
    ensures OccursAt(r, |ImageLead| + |NatToString(page)| + 1, NatToString(number))
    ensures |r| == |ImageLead| + |NatToString(page)| + 1 + |NatToString(number)| + 2
  {
    FiveParts(ImageLead, NatToString(page), ".", NatToString(number), ": ");
    ImageLead + NatToString(page) + "." + NatToString(number) + ": "
  }

  /** An OCR label names its image, as `Label` does. */
  lemma OcrLabelInjective(p1: nat, k1: nat, p2: nat, k2: nat)
    requires OcrLabel(p1, k1) == OcrLabel(p2, k2)
    ensures p1 == p2 && k1 == k2
  {
    NumberPairInjective(ImageLead, p1, k1, p2, k2, ": ");
  }

  /** `f"[Image {i+1}.{img_index+1}: {img_text[:50]}...]"`: the label, the
      first 50 characters of the text, and `...]`, nothing else. */
  function OcrEntry(page: nat, number: nat, text: string): (r: string)
    ensures StartsWith(r, OcrLabel(page, number)) && EndsWith(r, "...]")
    ensures OccursAt(r, |OcrLabel(page, number)|, Prefix(text, OcrExcerptLength) + "...]")
    ensures |r| == |OcrLabel(page, number)| + |Prefix(text, OcrExcerptLength)| + 4
  {
    ThreeParts(OcrLabel(page, number), Prefix(text, OcrExcerptLength), "...]");
    OcrLabel(page, number) + Prefix(text, OcrExcerptLength) + "...]"
  }

  /** Number of images that produced a text at all. */
  function CountSome(xs: seq<Option<string>>): nat
  {
    if xs == [] then 0 else (if xs[0].Some? then 1 else 0) + CountSome(xs[1..])
  }

  /** An OCR text is kept when it is not blank after stripping. */
  predicate Kept(x: Option<string>) {
    x.Some? && Strip(x.value) != []
  }

  function CountKept(xs: seq<Option<string>>): nat
  {
    if xs == [] then 0 else (if Kept(xs[0]) then 1 else 0) + CountKept(xs[1..])
  }

  /** The LLaVA descriptions of the images `replies`, the first of which
      has index `first` on the page: one entry per reply, numbered by its
      position among all the page's images. */
  function LlavaEntries(page: nat, replies: seq<Option<string>>, first: nat): (r: seq<string>)
    ensures |r| == CountSome(replies)
    ensures forall e :: e in r <==>
              exists k :: 0 <= k < |replies| && replies[k].Some? && e == LlavaEntry(page, first + k + 1, replies[k].value)
    decreases |replies|
  {
    if replies == [] then []
    else
      var rest := LlavaEntries(page, replies[1..], first + 1);
      assert forall k :: 1 <= k < |replies| ==> replies[k] == replies[1..][k - 1];
      assert forall k :: 0 <= k < |replies| - 1 ==> replies[1..][k] == replies[k + 1];
      match replies[0]
      case None => rest
      case Some(reply) => [LlavaEntry(page, first + 1, reply)] + rest
  }

  /** The OCR descriptions of the images `texts`, the first of which has
      index `first` among the images returned for the page: one entry per
      non-blank text, numbered by its position. */
  function OcrEntries(page: nat, texts: seq<Option<string>>, first: nat): (r: seq<string>)
    ensures |r| == CountKept(texts)
    ensures forall e :: e in r <==>
              exists k :: 0 <= k < |texts| && Kept(texts[k]) && e == OcrEntry(page, first + k + 1, texts[k].value)
    decreases |texts|
  {
    if texts == [] then []
    else
      var rest := OcrEntries(page, texts[1..], first + 1);
      assert forall k :: 1 <= k < |texts| ==> texts[k] == texts[1..][k - 1];
      assert forall k :: 0 <= k < |texts| - 1 ==> texts[1..][k] == texts[k + 1];
      if Kept(texts[0]) then [OcrEntry(page, first + 1, texts[0].value)] + rest else rest
  }

  /** Entries come out in image order: the entries of a concatenation are
      the entries of each part, the second part numbered after the first. */
  lemma {:induction false} LlavaEntriesAppend(page: nat, xs: seq<Option<string>>, ys: seq<Option<string>>, first: nat)
    ensures LlavaEntries(page, xs + ys, first) == LlavaEntries(page, xs, first) + LlavaEntries(page, ys, first + |xs|)
    decreases |xs|
  {
    if xs != [] {
      assert (xs + ys)[1..] == xs[1..] + ys;
      LlavaEntriesAppend(page, xs[1..], ys, first + 1);
    } else {
      assert xs + ys == ys;
    }
  }

  lemma {:induction false} OcrEntriesAppend(page: nat, xs: seq<Option<string>>, ys: seq<Option<string>>, first: nat)
    ensures OcrEntries(page, xs + ys, first) == OcrEntries(page, xs, first) + OcrEntries(page, ys, first + |xs|)
    decreases |xs|
  {
    if xs != [] {
      assert (xs + ys)[1..] == xs[1..] + ys;
      OcrEntriesAppend(page, xs[1..], ys, first + 1);
    } else {
      assert xs + ys == ys;
    }
  }

  /** The loop of the LLaVA scripts, image by image, with the running
      image index. */
  method CollectLlavaEntries(page: nat, replies: seq<Option<string>>) returns (entries: seq<string>)
    ensures entries == LlavaEntries(page, replies, 0)
  {
    entries := [];
    var i := 0;
    while i < |replies|
      invariant 0 <= i <= |replies|
      invariant entries == LlavaEntries(page, replies[..i], 0)
    {
      LlavaEntriesAppend(page, replies[..i], [replies[i]], 0);
      assert replies[..i + 1] == replies[..i] + [replies[i]];
      match replies[i] {
        case Some(reply) => entries := entries + [LlavaEntry(page, i + 1, reply)];
        case None =>
      }
      i := i + 1;
    }
    assert replies[..i] == replies;
  }

  /** The loop of the OCR scripts, image by image. */
  method CollectOcrEntries(page: nat, texts: seq<Option<string>>) returns (entries: seq<string>)
    ensures entries == OcrEntries(page, texts, 0)
  {
    entries := [];
    var i := 0;
    while i < |texts|
      invariant 0 <= i <= |texts|
      invariant entries == OcrEntries(page, texts[..i], 0)
    {
      OcrEntriesAppend(page, texts[..i], [texts[i]], 0);
      assert texts[..i + 1] == texts[..i] + [texts[i]];
      if texts[i].Some? && Strip(texts[i].value) != [] {
        entries := entries + [OcrEntry(page, i + 1, texts[i].value)];
      }
      i := i + 1;
    }
    assert texts[..i] == texts;
  }
}
