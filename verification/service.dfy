/**
 * One request of the bot: validate the typed date, fetch the site's page for it, extract the
 * content items, join them under the length budget and attach the three buttons. A button
 * press is decoded from its payload alone and replays the same request in the chosen mode.
 */
module Service {
  import opened Wrappers
  import opened Strings
  import opened Sequences
  import opened Dates
  import opened Payload
  import opened Dom
  import opened Extract
  import opened Budget

  /** What the HTTP client reports for one request: an error flag, the status code and the page. */
  datatype Response = Response(hasError: bool, status: int, body: Document)

  /** An inline keyboard button: a callback carrying a payload, or a link. */
  datatype Control = Callback(caption: string, data: string) | Link(caption: string, url: string)

  /** The Markdown text of the message and its buttons. */
  datatype Reply = Reply(text: string, controls: seq<Control>)

  /** Why a request was rejected; the bot answers every rejection with the same help message. */
  datatype Failure = InvalidDateFormat | TransportError

  const Heading: string := "Богослужебные указания "

  /** The first item: the heading and the date in bold. */
  function Header(shown: string): string
  {
    "*" + Heading + shown + "*"
  }

  /** The address of the site's page for a date: `<base>/<yyyy-MM-dd>`. */
  function PageUrl(baseUrl: string, d: Date): string
  {
    baseUrl + "/" + Format(SiteLayout, d)
  }

  /** The fetch fails only when the client reports an error and the status is not 200. */
  predicate FetchFailed(res: Response)
  {
    res.hasError && res.status != 200
  }

  /** The items every rendering has: header, title and one entry per blockquote. */
  function BaseItems(doc: Document, shown: string): seq<string>
  {
    [Header(shown), PageTitle(doc)] + Groups(doc)
  }

  /**
   * The message items in order: the header showing the date, the page title, one entry per
   * blockquote in document order, and in full mode the commentary paragraphs that fit, in
   * document order. Short mode adds no paragraph; when full mode adds one, the joined text is
   * below the ceiling.
   */
  function PageItems(doc: Document, shown: string, mode: Mode): (r: seq<string>)
    ensures var qs := Query(Quote, doc);
      && |r| >= 2 + |qs|
      && r[0] == Header(shown) && r[1] == PageTitle(doc)
      && (forall i :: 0 <= i < |qs| ==> r[2 + i] == GroupEntry(qs[i], ReadingText(doc)))
    ensures mode == Short ==> r == BaseItems(doc, shown) && |r| == 2 + |Query(Quote, doc)|
    ensures mode == Full ==> r == Admit(BaseItems(doc, shown), Paragraphs(doc))
    ensures mode == Full ==> IsSubseq(r[2 + |Query(Quote, doc)|..], Paragraphs(doc))
    ensures mode == Full && |r| > 2 + |Query(Quote, doc)| ==> |Join(r, Blank)| < Ceiling
  {
    var base := BaseItems(doc, shown);
    var r := if mode == Full then Admit(base, Paragraphs(doc)) else base;
    AdmitBound(base, Paragraphs(doc));
    PrefixShape(doc, shown, r);
    r
  }

  /** Any item list that starts with the base items has the header, the title and the entries in front. */
  lemma PrefixShape(doc: Document, shown: string, r: seq<string>)
    requires |r| >= |BaseItems(doc, shown)| && r[..|BaseItems(doc, shown)|] == BaseItems(doc, shown)
    ensures var qs := Query(Quote, doc);
      && |BaseItems(doc, shown)| == 2 + |qs|
      && r[0] == Header(shown) && r[1] == PageTitle(doc)
      && (forall i :: 0 <= i < |qs| ==> r[2 + i] == GroupEntry(qs[i], ReadingText(doc)))
  {
    PrefixItems(r, Header(shown), PageTitle(doc), Groups(doc));
  }

  /** A list that starts with `[h, t] + gs` has `h`, `t` and then the items of `gs` in front. */
  lemma PrefixItems(r: seq<string>, h: string, t: string, gs: seq<string>)
    requires |r| >= 2 + |gs| && r[..2 + |gs|] == [h, t] + gs
    ensures r[0] == h && r[1] == t && forall i :: 0 <= i < |gs| ==> r[2 + i] == gs[i]
  {
    forall i | 0 <= i < |gs|
      ensures r[2 + i] == gs[i]
    {
      assert r[2 + i] == r[..2 + |gs|][2 + i];
    }
    assert r[0] == r[..2 + |gs|][0] && r[1] == r[..2 + |gs|][1];
  }

  /** Short mode renders exactly the items full mode starts with. */
  lemma ShortIsPrefixOfFull(doc: Document, shown: string)
    ensures var short := PageItems(doc, shown, Short);
      short == PageItems(doc, shown, Full)[..|short|]
  {
  }

  /** The two mode buttons carry the date as typed; the link is labelled with the displayed date. */
  function Controls(date: string, shown: string, url: string): seq<Control>
  {
    [ Callback("Короткие указания", Encode(Short, date)),
      Callback("Полные указания", Encode(Full, date)),
      Link(Heading + shown, url) ]
  }

  /**
   * The request for one date and mode against a site that answers each address with
   * `site(address)`. A date the user layout rejects fails before any fetch; otherwise the request
   * fails exactly when the fetch reports an error with a status other than 200. A successful
   * reply shows the date exactly as typed, joins the page items with blank lines and carries
   * buttons that encode the typed date.
   */
  function ParsePage(date: string, mode: Mode, baseUrl: string, site: string -> Response): (r: Result<Reply, Failure>)
    ensures Parse(UserLayout, date).None? ==> r == Failure(InvalidDateFormat)
    ensures Parse(UserLayout, date).Some? ==>
      var url := PageUrl(baseUrl, Parse(UserLayout, date).value);
      && (r.Failure? <==> FetchFailed(site(url)))
      && (r.Failure? ==> r.error == TransportError)
      && (r.Success? ==> r.value == Reply(Join(PageItems(site(url).body, date, mode), Blank), Controls(date, date, url)))
  {
    match Parse(UserLayout, date)
    case None => Failure(InvalidDateFormat)
    case Some(d) =>
      var urlDate := Format(SiteLayout, d);
      var url := baseUrl + "/" + urlDate;
      var res := site(url);
      if res.hasError && res.status != 200 then Failure(TransportError)
      else
        UserSiteRoundTrip(date);
        var shown := Format(UserLayout, Parse(SiteLayout, urlDate).value);
        Success(Reply(Join(PageItems(res.body, shown, mode), Blank), Controls(date, shown, url)))
  }

  /**
   * A button press: the payload's first `_`-piece chooses the mode and the second is the date.
   * A payload without `_` has no date and is rejected.
   */
  function OnCallback(data: string, baseUrl: string, site: string -> Response): (r: Result<Reply, Failure>)
    ensures Separator !in data ==> r == Failure(InvalidDateFormat)
  {
    var req := Decode(data);
    if req.date.None? then Failure(InvalidDateFormat)
    else ParsePage(req.date.value, req.mode, baseUrl, site)
  }

  /**
   * Stateless replay: pressing either mode button of a reply gives what asking for that date
   * in that mode gives, with no state kept between the two interactions.
   */
  lemma ButtonsReplay(date: string, mode: Mode, baseUrl: string, site: string -> Response)
    ensures var r := ParsePage(date, mode, baseUrl, site);
      r.Success? ==>
      var controls := r.value.controls;
      && |controls| == 3 && controls[0].Callback? && controls[1].Callback?
      && OnCallback(controls[0].data, baseUrl, site) == ParsePage(date, Short, baseUrl, site)
      && OnCallback(controls[1].data, baseUrl, site) == ParsePage(date, Full, baseUrl, site)
  {
    if ParsePage(date, mode, baseUrl, site).Success? {
      PayloadReplays(date, Short, baseUrl, site);
      PayloadReplays(date, Full, baseUrl, site);
    }
  }

  /** The payload a mode button carries for an accepted date asks for that date in that mode. */
  lemma PayloadReplays(date: string, m: Mode, baseUrl: string, site: string -> Response)
    requires Parse(UserLayout, date).Some?
    ensures OnCallback(Encode(m, date), baseUrl, site) == ParsePage(date, m, baseUrl, site)
  {
    UserDateCharacters(date, Separator);
    DecodeEncode(m, date);
  }
}
