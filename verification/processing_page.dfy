/**
 The check the CSV download endpoint makes after navigating to the export
 link (main.py, `download_csv`): if the browser is still on that link and
 holds a page of more than a thousand characters, no download happened and
 the caller gets a soft "processing" answer whose detail is picked by
 case-insensitive phrase tests in a fixed order.
 */
module ProcessingPage {
  import opened StringOps

  /** The soft "try again later" answer, the dictionary the endpoint returns. */
  datatype Payload = Payload(
    status: string,
    message: string,
    details: string,
    suggestion: string,
    runId: string,
    downloadUrl: string,
    responseType: string)

  /** Either the endpoint goes on to wait for the file, or it answers "processing". */
  datatype Verdict = ProceedToDownload | StillProcessing(payload: Payload)

  /** Pages of at most this many characters are not taken for an HTML answer. */
  const HtmlThreshold := 1000

  const Message := "File is still being processed"
  const Suggestion := "Please wait a few minutes and try again"

  const ServerTrouble := "Server error - file may still be processing"
  const NotGeneratedYet := "File not found - may not be generated yet"
  const ServerError := "Server error encountered"

  /** The detail for an already lower-cased page, first matching phrase wins. */
  function DetailsFor(lowered: string): string {
    if Contains(lowered, "something went wrong") then ServerTrouble
    else if Contains(lowered, "not found") then NotGeneratedYet
    else if Contains(lowered, "error") then ServerError
    else Message
  }

  function Classify(currentUrl: string, downloadLink: string, pageSource: string, runId: string): (r: Verdict)
    // the HTML answer is recognised only on the same URL with a long page
    ensures r.StillProcessing? <==> currentUrl == downloadLink && |pageSource| > HtmlThreshold
    ensures r.StillProcessing? ==>
      && r.payload.status == "processing"
      && r.payload.message == Message
      && r.payload.suggestion == Suggestion
      && r.payload.runId == runId
      && r.payload.downloadUrl == downloadLink
      && r.payload.responseType == "html"
  {
    if currentUrl == downloadLink && |pageSource| > HtmlThreshold then
      StillProcessing(Payload("processing", Message, DetailsFor(Lower(pageSource)), Suggestion,
                              runId, downloadLink, "html"))
    else ProceedToDownload
  }

  /** The page mentions `phrase` in any mix of ASCII case. */
  ghost predicate Mentions(page: string, phrase: string) {
    exists i :: OccursAt(Lower(page), phrase, i)
  }

  /**
   Each detail message is chosen exactly when its phrase is on the page
   and no earlier phrase is; the plain message when none is.
   */
  lemma DetailsPriority(currentUrl: string, downloadLink: string, pageSource: string, runId: string)
    requires Classify(currentUrl, downloadLink, pageSource, runId).StillProcessing?
    ensures var d := Classify(currentUrl, downloadLink, pageSource, runId).payload.details;
      && (d == ServerTrouble <==> Mentions(pageSource, "something went wrong"))
      && (d == NotGeneratedYet <==>
            !Mentions(pageSource, "something went wrong") && Mentions(pageSource, "not found"))
      && (d == ServerError <==>
            !Mentions(pageSource, "something went wrong") && !Mentions(pageSource, "not found")
            && Mentions(pageSource, "error"))
      && (d == Message <==>
            !Mentions(pageSource, "something went wrong") && !Mentions(pageSource, "not found")
            && !Mentions(pageSource, "error"))
  {
    var low := Lower(pageSource);
    ContainsIffOccurs(low, "something went wrong");
    ContainsIffOccurs(low, "not found");
    ContainsIffOccurs(low, "error");
  }

  /** Changing the case of the page's letters never changes the verdict. */
  lemma CaseDoesNotMatter(currentUrl: string, downloadLink: string, pageSource: string, runId: string)
    ensures Classify(currentUrl, downloadLink, Upper(pageSource), runId)
         == Classify(currentUrl, downloadLink, pageSource, runId)
    ensures Classify(currentUrl, downloadLink, Lower(pageSource), runId)
         == Classify(currentUrl, downloadLink, pageSource, runId)
  {
    LowerOfUpper(pageSource);
    LowerIdempotent(pageSource);
  }
}
