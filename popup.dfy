/**
 * The popup (popup.js): which site the active tab shows, the width stored for
 * it, and saving a new width and passing it on to the page. The browser's
 * tab and storage calls are inputs: each method receives what the call's
 * promise delivered.
 */
module Popup {
  import opened Wrappers
  import opened Strings
  import opened Sites
  import opened Protocol

  /** A tab as `tabs.query` reports it; `url` is absent when the popup may not see it. */
  datatype Tab = Tab(id: int, url: Option<string>)

  /** `tabs.query({ active: true, currentWindow: true })`: the tabs found, or a rejection. */
  datatype TabQuery = Tabs(tabs: seq<Tab>) | QueryFailed

  /** A message handed to `tabs.sendMessage`, with the tab it is addressed to. */
  datatype Outgoing = Outgoing(tabId: int, message: Message)

  /** `tab.url || ''`. */
  function TabUrl(tab: Tab): string {
    if tab.url.Some? then tab.url.value else ""
  }

  /** The popup's if-chain over the whole URL, giving the stored site id. */
  function UrlSiteId(url: string): (id: string)
    ensures id == Id(Classify(url))
  {
    MentionsMarkers(url);
    ClassifyUnfolded(url);
    if Contains(url, "gemini.google.com") then "gemini"
    else if Contains(url, "chatgpt.com") || Contains(url, "openai.com") then "chatgpt"
    else if Contains(url, "claude.ai") then "claude"
    else "default"
  }

  /** A Claude conversation whose address carries `chatgpt.com` in its query string. */
  const ClaudeUrl: string := "https://" + "claude.ai" + "/?q=" + "chatgpt.com"

  /**
   * The popup tests the whole URL and the page only its host name, so a
   * marker in the query string makes them disagree: this Claude page is
   * stored and shown under "chatgpt" by the popup, while the page itself
   * reads the "claude" entry.
   */
  lemma UrlAndHostCanDisagree()
    ensures Contains(ClaudeUrl, "claude.ai")
    ensures UrlSiteId(ClaudeUrl) == "chatgpt"
    ensures Id(HostSite("claude.ai")) == "claude"
  {
    ContainsBothSpliced("https://", "claude.ai", "/?q=", "chatgpt.com");
    UrlClassifiedChatGPT();
    ClaudeHostIsClaude();
  }

  lemma UrlClassifiedChatGPT()
    ensures Classify(ClaudeUrl) == ChatGPT
  {
    ContainsBothSpliced("https://", "claude.ai", "/?q=", "chatgpt.com");
    MissingCharNotContained(ClaudeUrl, "gemini.google.com", 'n');
    ClassifyPrecedence(ClaudeUrl);
  }

  lemma ClaudeHostIsClaude()
    ensures Classify("claude.ai") == Claude
  {
    ContainsSpliced("", "claude.ai", "");
    LongerNotContained("claude.ai", "gemini.google.com");
    LongerNotContained("claude.ai", "chatgpt.com");
    LongerNotContained("claude.ai", "openai.com");
    ClassifyPrecedence("claude.ai");
  }

  /** `siteNames` in updateSiteDisplay. */
  const SiteNames: map<string, string> := map[
    "gemini" := "Google Gemini",
    "chatgpt" := "ChatGPT",
    "claude" := "Claude",
    "default" := "Unknown Site"
  ]

  /** `siteNames[currentSite] || siteNames['default']`. */
  function DisplayName(siteId: string): string {
    if siteId in SiteNames then SiteNames[siteId] else SiteNames["default"]
  }

  /** The four site ids show their fixed names; any other id shows as unknown. */
  lemma DisplayNames(siteId: string)
    ensures DisplayName(Id(Gemini)) == "Google Gemini"
    ensures DisplayName(Id(ChatGPT)) == "ChatGPT"
    ensures DisplayName(Id(Claude)) == "Claude"
    ensures DisplayName(Id(Default)) == "Unknown Site"
    ensures siteId !in {"gemini", "chatgpt", "claude"} ==> DisplayName(siteId) == "Unknown Site"
  {
  }

  /** Different sites are told apart on screen. */
  lemma DisplayNameInjective(a: Site, b: Site)
    requires DisplayName(Id(a)) == DisplayName(Id(b))
    ensures a == b
  {
    DisplayNames("");
  }

  /** `result.widthSettings || {}`. */
  function SettingsOrEmpty(widthSettings: Option<map<string, int>>): map<string, int> {
    if widthSettings.Some? then widthSettings.value else map[]
  }

  /**
   * loadSettings: the stored entry for the site when it is truthy, otherwise
   * the default; a failed read also gives the default.
   */
  function LoadedWidth(read: StorageRead, siteId: string): int {
    if read.ReadFailed? then DEFAULT_WIDTH
    else
      var widthSettings := SettingsOrEmpty(read.widthSettings);
      if siteId in widthSettings && Truthy(widthSettings[siteId]) then widthSettings[siteId]
      else DEFAULT_WIDTH
  }

  /** The popup shows the width the page itself would load from the same read. */
  lemma LoadedWidthAgreesWithPage(read: StorageRead, siteId: string)
    ensures LoadedWidth(read, siteId) ==
      if StoredEntry(read, siteId).Some? then StoredEntry(read, siteId).value else DEFAULT_WIDTH
    ensures Truthy(LoadedWidth(read, siteId))
  {
  }

  /** saveSettings' merge: the site's entry becomes `width`. */
  function MergedSettings(widthSettings: Option<map<string, int>>, siteId: string, width: int): (merged: map<string, int>)
    ensures merged.Keys == SettingsOrEmpty(widthSettings).Keys + {siteId}
  {
    SettingsOrEmpty(widthSettings)[siteId := width]
  }

  /** The merge sets the site's entry and leaves every other site's entry as it was. */
  lemma MergeIsolation(widthSettings: Option<map<string, int>>, siteId: string, width: int, other: string)
    ensures MergedSettings(widthSettings, siteId, width)[siteId] == width
    ensures other != siteId ==>
      (other in MergedSettings(widthSettings, siteId, width) <==> other in SettingsOrEmpty(widthSettings)) &&
      (other in SettingsOrEmpty(widthSettings) ==>
        MergedSettings(widthSettings, siteId, width)[other] == SettingsOrEmpty(widthSettings)[other])
  {
  }

  /**
   * A saved width is what the popup loads next time for that site (the
   * default when the width is zero), and what the page picks up; other
   * sites load what they loaded before.
   */
  lemma SaveThenLoad(widthSettings: Option<map<string, int>>, siteId: string, width: int, other: string)
    ensures LoadedWidth(Loaded(Some(MergedSettings(widthSettings, siteId, width))), siteId) ==
      if Truthy(width) then width else DEFAULT_WIDTH
    ensures Truthy(width) ==> StoredEntry(Loaded(Some(MergedSettings(widthSettings, siteId, width))), siteId) == Some(width)
    ensures other != siteId ==>
      LoadedWidth(Loaded(Some(MergedSettings(widthSettings, siteId, width))), other) ==
      LoadedWidth(Loaded(widthSettings), other)
  {
    MergeIsolation(widthSettings, siteId, width, other);
  }

  /** What the popup shows and has sent; `currentSite` starts as `'default'`. */
  class Popup {
    /** `currentSite`. */
    var currentSite: string
    /** `widthSlider.value`. */
    var sliderValue: int
    /** `widthValue.textContent`. */
    var widthText: string
    /** `siteNameSpan.textContent`. */
    var siteNameText: string
    /** `statusDiv.textContent`. */
    var statusText: string
    /** The messages handed to `tabs.sendMessage`, oldest first. */
    var sent: seq<Outgoing>

    /** The popup as its page loads, before the tab query answers. */
    constructor ()
      ensures currentSite == "default" && sent == []
    {
      currentSite := "default";
      sliderValue := DEFAULT_WIDTH;
      widthText := "";
      siteNameText := "";
      statusText := "";
      sent := [];
    }

    /** `updateSiteDisplay()`. */
    method UpdateSiteDisplay()
      modifies this
      ensures siteNameText == DisplayName(currentSite)
      ensures currentSite == old(currentSite) && sliderValue == old(sliderValue) && widthText == old(widthText)
      ensures statusText == old(statusText) && sent == old(sent)
    {
      siteNameText := DisplayName(currentSite);
    }

    /** `updateWidthDisplay(width)`: the width followed by `rem`. */
    method UpdateWidthDisplay(width: int)
      modifies this
      ensures widthText == RemText(width) && ParseRem(widthText) == Some(width)
      ensures currentSite == old(currentSite) && sliderValue == old(sliderValue) && siteNameText == old(siteNameText)
      ensures statusText == old(statusText) && sent == old(sent)
    {
      widthText := IntToDecimal(width) + "rem";
      RemRoundTrip(width);
    }

    /** `loadSettings()`, given what the storage read delivered. */
    method LoadSettings(read: StorageRead)
      modifies this
      ensures sliderValue == LoadedWidth(read, currentSite) && widthText == RemText(sliderValue)
      ensures currentSite == old(currentSite) && siteNameText == old(siteNameText)
      ensures statusText == old(statusText) && sent == old(sent)
    {
      var width;
      if read.ReadFailed? {
        width := DEFAULT_WIDTH;
      } else {
        var widthSettings := SettingsOrEmpty(read.widthSettings);
        if currentSite in widthSettings && Truthy(widthSettings[currentSite]) {
          width := widthSettings[currentSite];
        } else {
          width := DEFAULT_WIDTH;
        }
      }
      sliderValue := width;
      UpdateWidthDisplay(width);
    }

    /**
     * The start-up tab query: the first tab's URL decides the site; with no
     * tab, or when the query fails, the site stays as it was. Either way the
     * site name and the stored width are shown.
     */
    method OnTabsQueried(query: TabQuery, read: StorageRead)
      modifies this
      ensures currentSite ==
        if query.Tabs? && |query.tabs| > 0 then Id(Classify(TabUrl(query.tabs[0]))) else old(currentSite)
      ensures siteNameText == DisplayName(currentSite)
      ensures sliderValue == LoadedWidth(read, currentSite) && widthText == RemText(sliderValue)
      ensures statusText == old(statusText) && sent == old(sent)
    {
      if query.Tabs? && |query.tabs| > 0 {
        var url := TabUrl(query.tabs[0]);
        currentSite := UrlSiteId(url);
      }
      UpdateSiteDisplay();
      LoadSettings(read);
    }

    /**
     * `saveSettings(width)`, given what each step of its promise chain
     * delivered: the storage read, whether the write succeeded, and the tab
     * query. Returns the settings written, if the write succeeded. A failed
     * read, write or tab query ends in "Error saving!"; a failed send is
     * swallowed, so its outcome changes nothing here.
     */
    method SaveSettings(width: int, read: StorageRead, writeSucceeded: bool, query: TabQuery)
      returns (written: Option<map<string, int>>)
      modifies this
      ensures read.Loaded? ==> written == (if writeSucceeded then Some(MergedSettings(read.widthSettings, currentSite, width)) else None)
      ensures read.ReadFailed? ==> written == None
      ensures var saved := written.Some?;
        statusText == (if saved && query.Tabs? then "Settings saved!" else "Error saving!")
      ensures sent == old(sent) +
        if written.Some? && query.Tabs? && |query.tabs| > 0
        then [Outgoing(query.tabs[0].id, Message(UPDATE_WIDTH, width))]
        else []
      ensures currentSite == old(currentSite) && sliderValue == old(sliderValue)
      ensures widthText == old(widthText) && siteNameText == old(siteNameText)
    {
      written := None;
      if read.ReadFailed? {
        statusText := "Error saving!";
        return;
      }
      var widthSettings := SettingsOrEmpty(read.widthSettings);
      widthSettings := widthSettings[currentSite := width];
      if !writeSucceeded {
        statusText := "Error saving!";
        return;
      }
      written := Some(widthSettings);
      statusText := "Settings saved!";
      if query.QueryFailed? {
        statusText := "Error saving!";
        return;
      }
      if |query.tabs| > 0 {
        sent := sent + [Outgoing(query.tabs[0].id, Message(UPDATE_WIDTH, width))];
      }
    }
  }
}
