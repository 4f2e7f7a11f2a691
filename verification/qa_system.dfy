/** The answering side: turning a vector-store query result into context
    entries, the retrieval-only answer, and the prompt sent to the local
    model together with the mapping of its reply to an answer. */
module QaSystem {
  import opened Wrappers
  import opened Text
  import opened Records

  /** One context entry: `{"content", "source", "page"}`. */
  datatype Chunk = Chunk(content: string, source: string, page: nat)

  /** `zip(results["documents"][0], results["metadatas"][0])`, each pair
      reshaped into a context entry. */
  function ReshapeResults(documents: seq<string>, metadatas: seq<Metadata>): (r: seq<Chunk>)
    ensures |r| == if |documents| <= |metadatas| then |documents| else |metadatas|
    ensures forall i :: 0 <= i < |r| ==>
              r[i] == Chunk(documents[i], metadatas[i].source, metadatas[i].page)
  {
    if documents == [] || metadatas == [] then []
    else [Chunk(documents[0], metadatas[0].source, metadatas[0].page)]
           + ReshapeResults(documents[1..], metadatas[1..])
  }

  // ----- retrieval-only answer -----

  const ExcerptLength: nat := 300

  const HeaderLead: string := "Here's what I found in the documentation for '"
  const HeaderTail: string := "':\n\n"

  /** `f"Here's what I found in the documentation for '{query}':\n\n"`:
      the query, quoted, between the fixed lead and tail. */
  function AnswerHeader(query: string): (r: string)
    ensures StartsWith(r, HeaderLead) && EndsWith(r, HeaderTail)
    ensures OccursAt(r, |HeaderLead|, query)
    ensures |r| == |HeaderLead| + |query| + |HeaderTail|
  {
    ThreeParts(HeaderLead, query, HeaderTail);
    HeaderLead + query + HeaderTail
  }

  const SourceLead: string := "Source: "
  const AnswerPageLead: string := ", Page "
  const ExcerptLead: string := "\nExcerpt: "

  /** The label line and excerpt lead written for a context entry:
      `Source: <source>, Page <page>` and a line break, then `Excerpt: `. */
  function AnswerLabel(c: Chunk): (r: string)
    ensures StartsWith(r, SourceLead) && EndsWith(r, ExcerptLead)
    ensures OccursAt(r, |SourceLead|, c.source)
    ensures OccursAt(r, |SourceLead| + |c.source|, AnswerPageLead)
    ensures OccursAt(r, |SourceLead| + |c.source| + |AnswerPageLead|, NatToString(c.page))
    ensures |r| == |SourceLead| + |c.source| + |AnswerPageLead| + |NatToString(c.page)| + |ExcerptLead|
  {
    FiveParts(SourceLead, c.source, AnswerPageLead, NatToString(c.page), ExcerptLead);
    SourceLead + c.source + AnswerPageLead + NatToString(c.page) + ExcerptLead
  }

  /** The two lines written per context entry: source and page, then the
      first 300 characters of the content followed by "...", and a blank
      line. */
  function AnswerEntry(c: Chunk): (r: string)
    ensures StartsWith(r, AnswerLabel(c)) && EndsWith(r, "...\n\n")
    ensures OccursAt(r, |AnswerLabel(c)|, Prefix(c.content, ExcerptLength) + "...\n\n")
    ensures |r| == |AnswerLabel(c)| + |Prefix(c.content, ExcerptLength)| + 5
  {
    ThreeParts(AnswerLabel(c), Prefix(c.content, ExcerptLength), "...\n\n");
    AnswerLabel(c) + Prefix(c.content, ExcerptLength) + "...\n\n"
  }

  /** The entries of `context`, one after another, in order. */
  function AnswerBody(context: seq<Chunk>): (r: string)
    ensures r == [] <==> context == []
  {
    if context == [] then [] else AnswerBody(context[..|context| - 1]) + AnswerEntry(context[|context| - 1])
  }

  /** `simple_answer`: the answer text and the context it was built from. */
  function SimpleAnswer(query: string, context: seq<Chunk>): (r: (string, seq<Chunk>))
    ensures r.1 == context
    ensures StartsWith(r.0, AnswerHeader(query))
    ensures StartsWith(r.0, HeaderLead) && OccursAt(r.0, |HeaderLead|, query)
    ensures r.0 == AnswerHeader(query) <==> context == []
  {
    var header := AnswerHeader(query);
    var answer := header + AnswerBody(context);
    assert answer[..|header|] == header;
    assert context != [] ==> |AnswerEntry(context[|context| - 1])| > 0;
    (answer, context)
  }

  /** Entries are appended in context order: the answer for a context
      with one more entry is the previous answer followed by that entry. */
  lemma SimpleAnswerSnoc(query: string, context: seq<Chunk>, c: Chunk)
    ensures SimpleAnswer(query, context + [c]).0 == SimpleAnswer(query, context).0 + AnswerEntry(c)
  {
    assert (context + [c])[..|context|] == context;
  }

  /** Every entry of the context shows up in the body, at the position
      where the entries before it end. */
  lemma {:induction false} AnswerBodyShowsEntry(context: seq<Chunk>, i: nat)
    requires i < |context|
    ensures OccursAt(AnswerBody(context), |AnswerBody(context[..i])|, AnswerEntry(context[i]))
    decreases |context|
  {
    var n := |context| - 1;
    var shorter := AnswerBody(context[..n]);
    assert AnswerBody(context) == shorter + AnswerEntry(context[n]);
    if i == n {
      OccursInConcat(shorter, AnswerEntry(context[n]), []);
      assert shorter + AnswerEntry(context[n]) + [] == AnswerBody(context);
    } else {
      AnswerBodyShowsEntry(context[..n], i);
      assert context[..n][..i] == context[..i];
      assert context[..n][i] == context[i];
      OccursExtend(shorter, |AnswerBody(context[..i])|, AnswerEntry(context[i]), AnswerEntry(context[n]));
    }
  }

  /** Every entry of the context shows up in the answer, at the position
      where the header and the entries before it end. */
  lemma SimpleAnswerShowsEntry(query: string, context: seq<Chunk>, i: nat)
    requires i < |context|
    ensures var prefix := AnswerHeader(query) + AnswerBody(context[..i]);
            OccursAt(SimpleAnswer(query, context).0, |prefix|, AnswerEntry(context[i]))
  {
    var header := AnswerHeader(query);
    var body := AnswerBody(context);
    assert SimpleAnswer(query, context).0 == header + body;
    AnswerBodyShowsEntry(context, i);
    OccursShift(header, body, |AnswerBody(context[..i])|, AnswerEntry(context[i]));
  }

  /** The loop of `simple_answer`, appending to the answer entry by entry. */
  method BuildSimpleAnswer(query: string, context: seq<Chunk>) returns (answer: string, ctx: seq<Chunk>)
    ensures (answer, ctx) == SimpleAnswer(query, context)
  {
    answer := AnswerHeader(query);
    var i := 0;
    while i < |context|
      invariant 0 <= i <= |context|
      invariant answer == SimpleAnswer(query, context[..i]).0
    {
      SimpleAnswerSnoc(query, context[..i], context[i]);
      assert context[..i + 1] == context[..i] + [context[i]];
      answer := answer + AnswerEntry(context[i]);
      i := i + 1;
    }
    assert context[..i] == context;
    ctx := context;
  }

  // ----- local model -----

  const DocumentLead: string := "Document: "
  const BlockPageLead: string := ", Page: "

  /** The line a context block opens with: `Document: <source>, Page: <page>`
      and a line break. */
  function BlockLabel(c: Chunk): (r: string)
    ensures StartsWith(r, DocumentLead) && EndsWith(r, "\n")
    ensures OccursAt(r, |DocumentLead|, c.source)
    ensures OccursAt(r, |DocumentLead| + |c.source|, BlockPageLead)
    ensures OccursAt(r, |DocumentLead| + |c.source| + |BlockPageLead|, NatToString(c.page))
    ensures |r| == |DocumentLead| + |c.source| + |BlockPageLead| + |NatToString(c.page)| + 1
  {
    FiveParts(DocumentLead, c.source, BlockPageLead, NatToString(c.page), "\n");
    DocumentLead + c.source + BlockPageLead + NatToString(c.page) + "\n"
  }

  /** `f"Document: {source}, Page: {page}\n{content}"`: the label line,
      then the whole content. */
  function ContextBlock(c: Chunk): (r: string)
    ensures StartsWith(r, BlockLabel(c)) && EndsWith(r, c.content)
    ensures |r| == |BlockLabel(c)| + |c.content|
  {
    var r := BlockLabel(c) + c.content;
    assert r[..|BlockLabel(c)|] == BlockLabel(c);
    assert r[|r| - |c.content|..] == c.content;
    r
  }

  /** The context blocks joined by blank lines. */
  function ContextText(context: seq<Chunk>): (r: string)
    ensures r == [] <==> context == []
    ensures context != [] ==> StartsWith(r, ContextBlock(context[0]))
  {
    var blocks := seq(|context|, i requires 0 <= i < |context| => ContextBlock(context[i]));
    var r := Join("\n\n", blocks);
    assert context != [] ==> blocks[0] == ContextBlock(context[0]) && |r| >= |blocks[0]| >= 10;
    r
  }

  /** The blocks are joined in context order: one more entry adds a blank
      line and its block after the others. */
  lemma ContextTextSnoc(context: seq<Chunk>, c: Chunk)
    ensures ContextText(context + [c]) ==
              if context == [] then ContextBlock(c) else ContextText(context) + "\n\n" + ContextBlock(c)
  {
    var blocks := seq(|context|, i requires 0 <= i < |context| => ContextBlock(context[i]));
    var more := seq(|context| + 1, i requires 0 <= i < |context| + 1 => ContextBlock((context + [c])[i]));
    assert more == blocks + [ContextBlock(c)];
    JoinSnoc("\n\n", blocks, ContextBlock(c));
  }

  /** The fixed text before the context: the instructions, then the
      "Context:" label. Every line after the first keeps the four spaces
      of indentation the template is written with, and the first line
      ends in a space. */
  const PromptHead: string :=
    "You are an AI assistant for SMC device documentation. \n"
    + "    Answer the following question based only on the context provided below.\n"
    + "    If the answer is not in the context, say \"I don't have enough information about that in the documentation.\"\n"
    + "    Always include the source document and page number when providing information.\n"
    + "    \n"
    + "    Context:\n"
    + "    "

  const QuestionLead: string := "\n    \n    Question: "
  const AnswerCue: string := "\n    \n    Answer:"

  /** The prompt sent to the model. */
  function Prompt(query: string, context: seq<Chunk>): (r: string)
    ensures StartsWith(r, PromptHead) && EndsWith(r, AnswerCue)
    ensures OccursAt(r, |PromptHead|, ContextText(context))
    ensures OccursAt(r, |PromptHead| + |ContextText(context)|, QuestionLead + query)
    ensures |r| == |PromptHead| + |ContextText(context)| + |QuestionLead| + |query| + |AnswerCue|
  {
    var ct := ContextText(context);
    TemplateParts(PromptHead, ct, QuestionLead + query, AnswerCue);
    PromptHead + ct + (QuestionLead + query) + AnswerCue
  }

  /** Where each part of a four-part concatenation sits. */
  lemma TemplateParts(a: string, b: string, c: string, d: string)
    ensures StartsWith(a + b + c + d, a) && EndsWith(a + b + c + d, d)
    ensures OccursAt(a + b + c + d, |a|, b)
    ensures OccursAt(a + b + c + d, |a| + |b|, c)
  {
    var r := a + b + c + d;
    assert r[..|a|] == a;
    assert r[|r| - |d|..] == d;
    assert r[|a|..|a| + |b|] == b;
    assert r[|a| + |b|..|a| + |b| + |c|] == c;
  }

  /** The query is where the prompt says it is: right before the answer
      cue, so two prompts with the same context and different queries
      differ. */
  lemma PromptDeterminesQuery(q1: string, q2: string, context: seq<Chunk>)
    requires Prompt(q1, context) == Prompt(q2, context)
    ensures q1 == q2
  {
    var k := |PromptHead| + |ContextText(context)|;
    var p := Prompt(q1, context);
    assert |q1| == |q2|;
    assert OccursAt(p, k, QuestionLead + q1) && OccursAt(p, k, QuestionLead + q2);
    assert (QuestionLead + q1)[|QuestionLead|..] == q1;
    assert (QuestionLead + q2)[|QuestionLead|..] == q2;
  }

  /** What the HTTP call to the model came to: a response with a status
      code and, when the body parsed, its "response" field if present; or
      an exception with its message. */
  datatype LlmOutcome = Replied(status: nat, response: Option<string>) | Raised(error: string)

  const SuccessStatus: nat := 200

  const ConnectErrorLead: string := "Error: Unable to connect to Ollama. Make sure it's installed and running. Error: "

  /** `str(KeyError('response'))`. */
  const MissingResponseMessage: string := "'response'"

  /** What the answer for a failing status opens with. */
  const StatusErrorLead: string := "Error: Unable to get response from local LLM (Status code: "

  /** `f"Error: Unable to get response from local LLM (Status code: {response.status_code})"`:
      the lead, the decimal status code, and `)`, nothing else. */
  function StatusErrorMessage(status: nat): (r: string)
    ensures StartsWith(r, StatusErrorLead) && EndsWith(r, ")")
    ensures OccursAt(r, |StatusErrorLead|, NatToString(status))
    ensures |r| == |StatusErrorLead| + |NatToString(status)| + 1
  {
    ThreeParts(StatusErrorLead, NatToString(status), ")");
    StatusErrorLead + NatToString(status) + ")"
  }

  /** The status message names the status: different failing statuses
      give different answers. */
  lemma StatusErrorMessageInjective(s1: nat, s2: nat)
    requires StatusErrorMessage(s1) == StatusErrorMessage(s2)
    ensures s1 == s2
  {
    var lead := StatusErrorLead;
    var m := StatusErrorMessage(s1);
    assert |NatToString(s1)| == |NatToString(s2)|;
    assert m[|lead|..|m| - 1] == NatToString(s1);
    assert m[|lead|..|m| - 1] == NatToString(s2);
    NatToStringRoundTrip(s1);
    NatToStringRoundTrip(s2);
  }

  /** `answer_with_local_llm`: the model is asked with `Prompt(query,
      context)` and answers through `model`. Whatever happens, the context
      comes back unchanged. */
  function AnswerWithLocalLlm(query: string, context: seq<Chunk>, model: string -> LlmOutcome): (r: (string, seq<Chunk>))
    ensures r.1 == context
    ensures forall t :: model(Prompt(query, context)) == Replied(SuccessStatus, Some(t)) ==> r.0 == t
    ensures model(Prompt(query, context)) == Replied(SuccessStatus, None) ==>
              r.0 == ConnectErrorLead + MissingResponseMessage
    ensures model(Prompt(query, context)).Replied? && model(Prompt(query, context)).status != SuccessStatus ==>
              r.0 == StatusErrorMessage(model(Prompt(query, context)).status)
    ensures model(Prompt(query, context)).Raised? ==>
              StartsWith(r.0, ConnectErrorLead) && EndsWith(r.0, model(Prompt(query, context)).error)
    ensures model(Prompt(query, context)).Raised? ==>
              |r.0| == |ConnectErrorLead| + |model(Prompt(query, context)).error|
  {
    var outcome := model(Prompt(query, context));
    var answer := match outcome
      case Replied(status, response) =>
        if status != SuccessStatus then StatusErrorMessage(status)
        else if response.None? then ConnectErrorLead + MissingResponseMessage
        else response.value
      case Raised(e) =>
        var m := ConnectErrorLead + e;
        assert StartsWith(m, ConnectErrorLead) && EndsWith(m, e) by { ConcatEnds(ConnectErrorLead, e); }
        m;
    (answer, context)
  }
}
