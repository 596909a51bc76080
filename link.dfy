/** createActivityLink: the `<link>` element that points Discord's crawler
    at the ActivityPub representation of a status. */
module Link {
  import opened Wrappers
  import opened Strings
  import opened Uri

  datatype ActivityLinkOptions = ActivityLinkOptions(baseUrl: string, authorHandle: string, statusId: string)

  const LinkOpen: string := "<link href=\""
  /** The fixed rest of the element, in pieces short enough for the verifier
      to read character by character. */
  const LinkClose: string := "\"" + " rel=\"alternate\"" + " type=\"application/" + "activity+json\"/>"

  /** The href: the base URL verbatim, then the two encoded path segments.
      A `"` or an `&` in it can only come from the base URL. */
  function Href(options: ActivityLinkOptions): (r: string)
    ensures StartsWith(r, options.baseUrl + "/users/")
    ensures '"' in r ==> '"' in options.baseUrl
    ensures '&' in r ==> '&' in options.baseUrl
  {
    EncodeURIComponentIsSafe(options.authorHandle);
    EncodeURIComponentIsSafe(options.statusId);
    options.baseUrl + "/users/" + EncodeURIComponent(options.authorHandle)
    + "/statuses/" + EncodeURIComponent(options.statusId)
  }

  /** createActivityLink. When the base URL holds no double quote, a reader
      of the element finds the href intact, and the host's
      `/users/:handle/statuses/:id` route recovers the handle and the id.
      An `&` appears in the element only when the base URL carries it, so
      without one there is no character reference for an HTML parser to
      decode and the attribute value is the href as written. */
  function CreateActivityLink(options: ActivityLinkOptions): (r: string)
    ensures '&' in r ==> '&' in options.baseUrl
    ensures '"' !in options.baseUrl ==> LinkHref(r) == Some(Href(options))
    ensures var h := LinkHref(r);
      '"' !in options.baseUrl ==>
        h.Some? && RouteParams(options.baseUrl, h.value) == Some((options.authorHandle, options.statusId))
  {
    var href := Href(options);
    ReadLinkTag(options);
    RouteParamsOfHref(options);
    TemplateHasNoAmpersand();
    LinkOpen + href + LinkClose
  }

  /** What a reader of the element takes as the href: the text after
      `<link href="` up to the next double quote, provided the rest of the
      element follows. */
  function LinkHref(tag: string): Option<string>
  {
    if StartsWith(tag, LinkOpen) then
      var rest := tag[|LinkOpen|..];
      var v := TakeUntil(rest, '"');
      if rest[|v|..] == LinkClose then Some(v) else None
    else
      None
  }

  /** The host's route `{baseUrl}/users/:handle/statuses/:id`, read from the
      href text as written: split after the base URL at its slashes and decode
      both segments. There is no URL resolution (no dot-segment removal, no
      query or fragment split). */
  function RouteParams(baseUrl: string, href: string): Option<(string, string)>
  {
    var prefix := baseUrl + "/users/";
    if !StartsWith(href, prefix) then None
    else
      var rest := href[|prefix|..];
      var handle := TakeUntil(rest, '/');
      var tail := rest[|handle|..];
      if !StartsWith(tail, "/statuses/") then None
      else
        var id := tail[|"/statuses/"|..];
        if '/' in id then None
        else
          match (DecodeURIComponent(handle), DecodeURIComponent(id))
          case (Some(h), Some(i)) => Some((h, i))
          case _ => None
  }

  lemma TemplateHasNoAmpersand()
    ensures '&' !in LinkOpen && '&' !in LinkClose
  {
    assert '&' !in "\"" && '&' !in " rel=\"alternate\"";
    assert '&' !in " type=\"application/" && '&' !in "activity+json\"/>";
  }

  lemma LinkHrefOfTag(href: string)
    requires '"' !in href
    ensures LinkHref(LinkOpen + href + LinkClose) == Some(href)
  {
    var tag := LinkOpen + href + LinkClose;
    assert tag[..|LinkOpen|] == LinkOpen;
    var rest := tag[|LinkOpen|..];
    assert rest == href + LinkClose;
    assert LinkClose[0] == '"';
    TakeUntilConcat(href, '"', LinkClose);
    assert rest[|href|..] == LinkClose;
  }

  lemma ReadLinkTag(options: ActivityLinkOptions)
    ensures '"' !in options.baseUrl ==> LinkHref(LinkOpen + Href(options) + LinkClose) == Some(Href(options))
  {
    if '"' !in options.baseUrl {
      LinkHrefOfTag(Href(options));
    }
  }

  /** Splitting `prefix + a + "/statuses/" + b` at its slashes gives back `a`
      and `b` when neither holds a slash. */
  lemma SplitRoute(prefix: string, a: string, b: string)
    requires '/' !in a && '/' !in b
    ensures var href := prefix + a + "/statuses/" + b;
      && StartsWith(href, prefix)
      && TakeUntil(href[|prefix|..], '/') == a
      && StartsWith(href[|prefix|..][|a|..], "/statuses/")
      && href[|prefix|..][|a|..][|"/statuses/"|..] == b
  {
    var href := prefix + a + "/statuses/" + b;
    assert href == prefix + (a + ("/statuses/" + b));
    assert href[..|prefix|] == prefix;
    var rest := href[|prefix|..];
    assert rest == a + ("/statuses/" + b);
    TakeUntilConcat(a, '/', "/statuses/" + b);
    var tail := rest[|a|..];
    assert tail == "/statuses/" + b;
    assert tail[..|"/statuses/"|] == "/statuses/";
    assert tail[|"/statuses/"|..] == b;
  }

  lemma RouteParamsOfHref(options: ActivityLinkOptions)
    ensures RouteParams(options.baseUrl, Href(options)) == Some((options.authorHandle, options.statusId))
  {
    var eh, ei := EncodeURIComponent(options.authorHandle), EncodeURIComponent(options.statusId);
    EncodeURIComponentIsSafe(options.authorHandle);
    EncodeURIComponentIsSafe(options.statusId);
    DecodeEncodeRoundTrip(options.authorHandle);
    DecodeEncodeRoundTrip(options.statusId);
    var prefix := options.baseUrl + "/users/";
    SplitRoute(prefix, eh, ei);
    assert Href(options) == prefix + eh + "/statuses/" + ei;
  }

  /** A handle and an id made only of unescaped characters appear verbatim. */
  lemma HrefOfUnreservedSegments(options: ActivityLinkOptions)
    requires forall i :: 0 <= i < |options.authorHandle| ==> IsUnreserved(options.authorHandle[i])
    requires forall i :: 0 <= i < |options.statusId| ==> IsUnreserved(options.statusId[i])
    ensures Href(options) == options.baseUrl + "/users/" + options.authorHandle + "/statuses/" + options.statusId
  {
    EncodeIdentityIffUnreserved(options.authorHandle);
    EncodeIdentityIffUnreserved(options.statusId);
  }

  /** A space inside a handle of otherwise unescaped characters is written
      `%20` and nothing else changes. */
  lemma HrefOfHandleWithSpace(options: ActivityLinkOptions, a: string, b: string)
    requires options.authorHandle == a + " " + b
    requires forall i :: 0 <= i < |a| ==> IsUnreserved(a[i])
    requires forall i :: 0 <= i < |b| ==> IsUnreserved(b[i])
    requires forall i :: 0 <= i < |options.statusId| ==> IsUnreserved(options.statusId[i])
    ensures Href(options) == options.baseUrl + "/users/" + a + "%20" + b + "/statuses/" + options.statusId
  {
    EncodeSpacedWord(a, b);
    EncodeIdentityIffUnreserved(options.statusId);
  }

  lemma EncodeSpacedWord(a: string, b: string)
    requires forall i :: 0 <= i < |a| ==> IsUnreserved(a[i])
    requires forall i :: 0 <= i < |b| ==> IsUnreserved(b[i])
    ensures EncodeURIComponent(a + " " + b) == a + "%20" + b
  {
    EncodeConcat(a + " ", b);
    EncodeConcat(a, " ");
    EncodeIdentityIffUnreserved(a);
    EncodeIdentityIffUnreserved(b);
    EncodeSpace();
  }

  /** Example: `alice bob` becomes `alice%20bob`. */
  lemma CreateActivityLinkExample(options: ActivityLinkOptions)
    requires options == ActivityLinkOptions("https://ex.com", "alice bob", "42")
    ensures Href(options) == "https://ex.com" + "/users/" + "alice" + "%20" + "bob" + "/statuses/" + "42"
  {
    assert options.authorHandle == "alice" + " " + "bob";
    HrefOfHandleWithSpace(options, "alice", "bob");
  }

  /** The element is the fixed template around the href. */
  lemma CreateActivityLinkTemplate(options: ActivityLinkOptions)
    ensures CreateActivityLink(options) ==
      "<link href=\"" + Href(options) + "\"" + " rel=\"alternate\"" + " type=\"application/" + "activity+json\"/>"
  {
  }
}
