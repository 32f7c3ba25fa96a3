/**
 * Which chat application a page belongs to. The content script tests the
 * page's host name (chat-viewflex.js:11-20), the popup tests the active tab's
 * whole URL (popup.js:18-26); both apply the same markers in the same order.
 */
module Sites {
  import opened Strings

  datatype Site = Default | Gemini | ChatGPT | Claude

  /** The identifier under which a site's width is stored. */
  function Id(site: Site): string {
    match site
    case Default => "default"
    case Gemini => "gemini"
    case ChatGPT => "chatgpt"
    case Claude => "claude"
  }

  /** Host-name fragments that identify each site. */
  function Markers(site: Site): seq<string> {
    match site
    case Gemini => ["gemini.google.com"]
    case ChatGPT => ["chatgpt.com", "openai.com"]
    case Claude => ["claude.ai"]
    case Default => []
  }

  /** Some marker of `site` occurs in `location`. */
  predicate Mentions(location: string, site: Site) {
    exists m :: m in Markers(site) && Contains(location, m)
  }

  /** The order in which the sites are tried; the first one mentioned wins. */
  const Precedence: seq<Site> := [Gemini, ChatGPT, Claude]

  function FirstMentioned(location: string, order: seq<Site>): Site {
    if order == [] then Default
    else if Mentions(location, order[0]) then order[0]
    else FirstMentioned(location, order[1..])
  }

  /** `Mentions` spelled out per site. */
  lemma MentionsMarkers(location: string)
    ensures Mentions(location, Gemini) == Contains(location, "gemini.google.com")
    ensures Mentions(location, ChatGPT) ==
      (Contains(location, "chatgpt.com") || Contains(location, "openai.com"))
    ensures Mentions(location, Claude) == Contains(location, "claude.ai")
    ensures !Mentions(location, Default)
  {
    if Contains(location, "gemini.google.com") {
      assert "gemini.google.com" in Markers(Gemini);
    }
    if Contains(location, "chatgpt.com") {
      assert "chatgpt.com" in Markers(ChatGPT);
    }
    if Contains(location, "openai.com") {
      assert "openai.com" in Markers(ChatGPT);
    }
    if Contains(location, "claude.ai") {
      assert "claude.ai" in Markers(Claude);
    }
  }

  /** Reference classification: the first site in precedence order whose marker occurs. */
  function Classify(location: string): Site {
    FirstMentioned(location, Precedence)
  }

  /** `Classify` tried site by site. */
  lemma ClassifyUnfolded(location: string)
    ensures Classify(location) ==
      if Mentions(location, Gemini) then Gemini
      else if Mentions(location, ChatGPT) then ChatGPT
      else if Mentions(location, Claude) then Claude
      else Default
  {
    var order := Precedence;
    assert order[0] == Gemini && order[1..] == [ChatGPT, Claude];
    assert FirstMentioned(location, [ChatGPT, Claude]) ==
      if Mentions(location, ChatGPT) then ChatGPT else FirstMentioned(location, [Claude]);
    assert [Claude][1..] == [];
    assert FirstMentioned(location, [Claude]) ==
      if Mentions(location, Claude) then Claude else FirstMentioned(location, []);
  }

  /** The content script's detection: three independent flags, then an if-chain. */
  function HostSite(hostname: string): (site: Site)
    ensures site == Classify(hostname)
  {
    var isChatGPT := Contains(hostname, "chatgpt.com") || Contains(hostname, "openai.com");
    var isGemini := Contains(hostname, "gemini.google.com");
    var isClaude := Contains(hostname, "claude.ai");
    MentionsMarkers(hostname);
    ClassifyUnfolded(hostname);
    if isGemini then Gemini
    else if isChatGPT then ChatGPT
    else if isClaude then Claude
    else Default
  }

  /** Strict precedence, in the markers' own terms. */
  lemma ClassifyPrecedence(location: string)
    ensures Classify(location) == Gemini <==> Contains(location, "gemini.google.com")
    ensures Classify(location) == ChatGPT <==>
      !Contains(location, "gemini.google.com") &&
      (Contains(location, "chatgpt.com") || Contains(location, "openai.com"))
    ensures Classify(location) == Claude <==>
      !Contains(location, "gemini.google.com") &&
      !Contains(location, "chatgpt.com") && !Contains(location, "openai.com") &&
      Contains(location, "claude.ai")
    ensures Classify(location) == Default <==>
      !Contains(location, "gemini.google.com") &&
      !Contains(location, "chatgpt.com") && !Contains(location, "openai.com") &&
      !Contains(location, "claude.ai")
  {
    MentionsMarkers(location);
    ClassifyUnfolded(location);
  }

  /**
   * The popup's URL test agrees with the content script's host-name test when
   * the URL contains the host name and mentions no site its host name does not.
   */
  lemma UrlAgreesWithHost(url: string, hostname: string)
    requires Contains(url, hostname)
    requires forall s: Site :: Mentions(url, s) ==> Mentions(hostname, s)
    ensures Classify(url) == HostSite(hostname)
  {
    forall s: Site | Mentions(hostname, s)
      ensures Mentions(url, s)
    {
      var m :| m in Markers(s) && Contains(hostname, m);
      ContainsTransitive(url, hostname, m);
    }
    ClassifyUnfolded(url);
    ClassifyUnfolded(hostname);
  }
}
