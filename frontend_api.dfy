/**
 * The POST /convert handler of the frontend API with the HTTP framework
 * stripped away: the request body's `markdown` field comes in as an
 * optional string and the status code with the JSON body goes out.
 */
module FrontendApi {

  import opened Markdown

  /** The JSON bodies the handler sends. */
  datatype Body =
    | ErrorBody(error: string)
    | ResultBody(id: string, html: string, status: string)

  datatype Reply = Reply(code: nat, body: Body)

  const MissingMarkdown := "Missing markdown"

  /**
   * The handler. `!markdown` holds for an absent field and for the empty
   * string, the only falsy string; both are refused before any conversion.
   * Otherwise the reply carries the fixed id and status and the text after
   * the heading pass and then the bold pass.
   */
  function Convert(markdown: Option<string>): (r: Reply)
    ensures r.code == 400 <==> markdown.None? || markdown.value == ""
    ensures r.code == 400 ==> r.body == ErrorBody(MissingMarkdown)
    ensures r.code != 400 ==> r.code == 200 && r.body.ResultBody?
    ensures r.body.ResultBody? ==> r.body.id == "test-id" && r.body.status == "completed"
    ensures r.body.ResultBody? ==> r.body.html == BoldPass(HeadingPass(markdown.value))
  {
    match markdown
    case None => Reply(400, ErrorBody(MissingMarkdown))
    case Some(text) =>
      if text == "" then Reply(400, ErrorBody(MissingMarkdown))
      else Reply(200, ResultBody("test-id", Render(text), "completed"))
  }

  /**
   * A successful reply, line by line: the html has the request's line
   * structure, each heading line wrapped in h1 around its converted bold
   * text and every other line with its bold text converted. A corollary of
   * RenderLines for the reply.
   */
  lemma ConvertLines(text: string)
    requires text != ""
    ensures var html := Convert(Some(text)).body.html;
      && |Lines(html)| == |Lines(text)|
      && forall i :: 0 <= i < |Lines(text)| ==> Lines(html)[i] == RenderLine(Lines(text)[i])
  {
    RenderLines(text);
  }

  /**
   * Markdown without headings and without `**` is echoed back as html. A
   * corollary of RenderPlainText for the reply.
   */
  lemma ConvertPlainText(text: string)
    requires text != ""
    requires NoHeading(Lines(text))
    requires !HasDoubleStar(text)
    ensures Convert(Some(text)) == Reply(200, ResultBody("test-id", text, "completed"))
  {
    RenderPlainText(text);
  }

  /** The heading pass runs first, so bold text ends up inside the h1. */
  lemma ConvertBoldHeading()
    ensures Convert(Some("# **b**")).body.html == "<h1><strong>b</strong></h1>"
  {
    var text := "# **b**";
    calc {
      Convert(Some(text)).body.html;
      Render(text);
      { HeadingOfBoldLine(); }
      BoldPass(HeadingLine(text));
      { BoldInsideHeading(text); }
      RenderLine(text);
      { assert IsHeading(text) && text[2..] == "**b**"; }
      "<h1>" + BoldPass("**b**") + "</h1>";
      { BoldWord(); }
      "<h1><strong>b</strong></h1>";
    }
  }

  lemma HeadingOfBoldLine()
    ensures HeadingPass("# **b**") == HeadingLine("# **b**")
  {
    var text := "# **b**";
    assert forall k :: 0 <= k < |text| ==> text[k] != '\n';
    assert LineEnd(text) == |text|;
  }

  lemma BoldWord()
    ensures BoldPass("**b**") == "<strong>b</strong>"
  {
    assert FindClose("**b**", 2) == Some(3);
    assert "**b**"[2..3] == "b";
    assert "**b**"[5..] == [];
  }
}
