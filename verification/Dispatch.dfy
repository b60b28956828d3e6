// on_accept (httpserver.cpp): which critical section a scanned request leads to.
module Dispatch {
  import opened CLanguage
  import opened HttpRequest
  import ClientCount

  /** The section a request enters, if it is one of the two that touch the client count. */
  function SectionOf(req: Request): Option<ClientCount.Choice> {
    if req.verb == Post && req.route == "/dc" then Some(ClientCount.PostDc)
    else if req.verb == Get && req.route == "/" then Some(ClientCount.GetRoot)
    else None
  }

  /**
   * A request line enters a section exactly when it is "GET /" or "POST /dc";
   * what was requested before does not matter.
   */
  lemma SectionOfRequestLine(word: string, route: string, rest: string, before: Request)
    requires word != [] && NoSpace(word, 0, |word|) && NoSpace(route, 0, |route|)
    ensures var section := SectionOf(Scanned(word + " " + route + " " + rest, before));
            && (section == Some(ClientCount.GetRoot) <==> word == "GET" && route == "/")
            && (section == Some(ClientCount.PostDc) <==> word == "POST" && route == "/dc")
            && (section == None <==> !(word == "GET" && route == "/") && !(word == "POST" && route == "/dc"))
  {
    RequestLineRoundTrip(word, route, rest, before);
  }
}
