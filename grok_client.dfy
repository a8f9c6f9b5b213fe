/**
 * The deterministic part of the live-search client (grok_client.py). The
 * HTTP exchange is not modelled: each call's parsed JSON response is an
 * input, and what remains is how the text and the links are picked out of
 * it and how two search passes are merged.
 */
module GrokClient {
  import opened Wrappers
  import opened Seqs
  import Utils

  /** The `message` object of a choice; an absent key is `None`. */
  datatype Message = Message(content: Option<string>, citations: Option<seq<string>>)

  /** One element of `choices`; an absent key is `None`. */
  datatype Choice = Choice(message: Option<Message>, text: Option<string>)

  /** The parsed response body; only its `choices` key is read. */
  datatype Response = Response(choices: Option<seq<Choice>>)

  /** The dictionary `grok_live_search` returns. */
  datatype SearchResult = SearchResult(text: string, urls: seq<string>)

  /** The dictionary `force_links` returns. */
  datatype LinksResult = LinksResult(text: string, links: seq<string>)

  /** Python's `a or b` on an optional string: `None` and "" are false. */
  function OrElse(a: Option<string>, b: string): string {
    if a.Some? && a.value != "" then a.value else b
  }

  /** `(resp.get("choices") or [{}])[0]`: a missing or empty list gives an empty choice. */
  function FirstChoice(resp: Response): Choice {
    var cs := resp.choices.GetOr([]);
    if cs == [] then Choice(None, None) else cs[0]
  }

  /** `choice.get("message", {})`. */
  function MessageOf(c: Choice): Message {
    c.message.GetOr(Message(None, None))
  }

  /** `msg.get("citations") or []`. */
  function Citations(resp: Response): seq<string> {
    MessageOf(FirstChoice(resp)).citations.GetOr([])
  }

  /** `msg.get("content") or choice.get("text") or ""`. */
  function ResponseText(resp: Response): string {
    var c := FirstChoice(resp);
    OrElse(MessageOf(c).content, OrElse(c.text, ""))
  }

  /**
   * The post-processing of `grok_live_search`: the response text, and the
   * citations followed by the URLs found in the text, de-duplicated in
   * order (`list(dict.fromkeys(citations + extract_urls(text)))`).
   */
  function LiveSearch(resp: Response): (r: SearchResult)
    ensures r.text == ResponseText(resp)
    ensures NoDup(r.urls)
    ensures forall u :: u in r.urls <==> u in Citations(resp) || u in Utils.Extracted(Some(r.text))
    ensures StartsWith(r.urls, Unique(Citations(resp)))
    ensures forall k :: |Unique(Citations(resp))| <= k < |r.urls| ==>
      r.urls[k] !in Citations(resp) && r.urls[k] in Utils.Extracted(Some(r.text))
    ensures var all := Citations(resp) + Utils.Extracted(Some(r.text));
      forall k, l :: 0 <= k < l < |r.urls| ==> FirstIndex(all, r.urls[k]) < FirstIndex(all, r.urls[l])
  {
    var text := ResponseText(resp);
    var cites := Citations(resp);
    var found := Utils.Extracted(Some(text));
    UniqueNoDup(cites + found);
    UniqueElements(cites + found);
    UniqueAppend(cites, found);
    UniqueFirstOccurrenceOrder(cites + found);
    SearchResult(text, Unique(cites + found))
  }

  /** The text is the message content if non-empty, else the choice text if non-empty, else "". */
  lemma LiveSearchText(resp: Response)
    ensures var c := FirstChoice(resp); var content := MessageOf(c).content;
      && (content.Some? && content.value != "" ==> LiveSearch(resp).text == content.value)
      && ((content.None? || content.value == "") && c.text.Some? && c.text.value != "" ==>
            LiveSearch(resp).text == c.text.value)
      && ((content.None? || content.value == "") && (c.text.None? || c.text.value == "") ==>
            LiveSearch(resp).text == "")
  {
  }

  /** A response without choices gives no text and no links. */
  lemma NoChoicesNothingFound(resp: Response)
    requires resp.choices.None? || resp.choices == Some([])
    ensures LiveSearch(resp) == SearchResult("", [])
  {
    Utils.EmptyTextNoUrls();
  }

  /** `s[:n]` on a Python list; a negative bound counts from the end. */
  function SliceTo<T>(s: seq<T>, n: int): (r: seq<T>)
    ensures StartsWith(s, r)
    ensures n >= |s| ==> r == s
    ensures 0 <= n ==> |r| == if n < |s| then n else |s|
  {
    if n >= |s| then s
    else if n >= 0 then s[..n]
    else if |s| + n >= 0 then s[..|s| + n]
    else []
  }

  function Max(a: int, b: int): int {
    if a >= b then a else b
  }

  /**
   * `force_links`: the first pass (`first` is its response) is returned when
   * it found at least `minLinks` URLs; otherwise a second pass (`second`)
   * is made and its URLs are appended after the first pass's ones.
   */
  function ForceLinks(minLinks: int, first: Response, second: Response): (r: LinksResult)
    ensures var f := LiveSearch(first);
      |f.urls| >= minLinks ==> r == LinksResult(f.text, f.urls)
    ensures var f, s := LiveSearch(first), LiveSearch(second);
      |f.urls| < minLinks ==>
        r.links == f.urls + s.urls && r.text == (if f.text != "" then f.text else s.text)
    ensures StartsWith(r.links, LiveSearch(first).urls)
  {
    var f := LiveSearch(first);
    if |f.urls| >= minLinks then LinksResult(f.text, f.urls)
    else
      var s := LiveSearch(second);
      var links := SliceTo(f.urls + s.urls, Max(minLinks, |f.urls| + |s.urls|));
      assert StartsWith(f.urls + s.urls, f.urls) by {
        assert (f.urls + s.urls)[..|f.urls|] == f.urls;
      }
      LinksResult(if f.text != "" then f.text else s.text, links)
  }

  /** The slice in `force_links` never shortens the list: its bound is at least the length. */
  lemma {:induction false} SliceBoundNoOp<T>(a: seq<T>, b: seq<T>, minLinks: int)
    ensures SliceTo(a + b, Max(minLinks, |a| + |b|)) == a + b
  {
    assert Max(minLinks, |a| + |b|) >= |a + b|;
  }

  /** A sufficient first pass makes the second response irrelevant: no second call is made. */
  lemma SufficientFirstPass(minLinks: int, first: Response, second1: Response, second2: Response)
    requires |LiveSearch(first).urls| >= minLinks
    ensures ForceLinks(minLinks, first, second1) == ForceLinks(minLinks, first, second2)
    ensures ForceLinks(minLinks, first, second1).links == LiveSearch(first).urls
  {
  }

  /** A response whose first choice cites exactly `cites` and has no text. */
  function CitingResponse(cites: seq<string>): Response {
    Response(Some([Choice(Some(Message(None, Some(cites))), None)]))
  }

  /** A text-less response citing distinct URLs yields exactly those URLs. */
  lemma CitingOnly(cites: seq<string>)
    requires NoDup(cites)
    ensures LiveSearch(CitingResponse(cites)) == SearchResult("", cites)
  {
    Utils.EmptyTextNoUrls();
    assert cites + [] == cites;
    UniqueOfNoDup(cites);
  }

  /**
   * Two passes are merged without removing URLs that both passes found: a
   * too-short first pass repeated by the second gives every URL twice.
   */
  lemma TwoPassKeepsDuplicates(minLinks: int, cites: seq<string>)
    requires NoDup(cites) && |cites| < minLinks
    ensures ForceLinks(minLinks, CitingResponse(cites), CitingResponse(cites)).links == cites + cites
  {
    CitingOnly(cites);
    SliceBoundNoOp(cites, cites, minLinks);
  }

  /** Two passes need not reach `minLinks`: both may come back empty. */
  lemma TwoPassMayFallShort()
    ensures |ForceLinks(3, Response(None), Response(None)).links| < 3
  {
    NoChoicesNothingFound(Response(None));
  }
}
