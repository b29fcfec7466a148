/**
 * `detectBrowser`: which extension store to send the user to, decided by
 * substrings of the lower-cased user-agent string, which is a parameter here.
 */
module BrowserDetection {
  import opened JsText

  datatype BrowserType = Chrome | Firefox | Unsupported

  datatype BrowserInfo = BrowserInfo(browserType: BrowserType, name: string, extensionUrl: string)

  const FIREFOX_EXTENSION_URL: string := "https://addons.mozilla.org/firefox/addon/web-request-tls-monitor/"
  const CHROME_EXTENSION_URL: string := "https://chrome.google.com/webstore/detail/web-request-tls-monitor/"

  /** `detectBrowser()` for the user agent `userAgent`. */
  function DetectBrowser(userAgent: string): BrowserInfo {
    var ua := ToLower(userAgent);
    if Includes(ua, "firefox") then
      BrowserInfo(Firefox, "Firefox", FIREFOX_EXTENSION_URL)
    else if Includes(ua, "chrome") || Includes(ua, "chromium") || Includes(ua, "edg") then
      BrowserInfo(Chrome, if Includes(ua, "edg") then "Edge" else "Chrome", CHROME_EXTENSION_URL)
    else
      BrowserInfo(Unsupported, "Unsupported Browser", "")
  }

  /** The classification ignores letter case: lower-casing the user agent first changes nothing. */
  lemma DetectCaseInsensitive(userAgent: string)
    ensures DetectBrowser(ToLower(userAgent)) == DetectBrowser(userAgent)
  {
    ToLowerIdempotent(userAgent);
  }

  /** A user agent that mentions Firefox is Firefox, whatever else it mentions. */
  lemma FirefoxFirst(userAgent: string)
    requires Includes(ToLower(userAgent), "firefox")
    ensures DetectBrowser(userAgent) == BrowserInfo(Firefox, "Firefox", FIREFOX_EXTENSION_URL)
  {
  }

  /** Without Firefox, a Chromium-family user agent gets the Chrome store, named Edge exactly when it mentions "edg". */
  lemma ChromeFamily(userAgent: string)
    requires !Includes(ToLower(userAgent), "firefox")
    ensures var ua := ToLower(userAgent);
      DetectBrowser(userAgent).browserType == Chrome
      <==> Includes(ua, "chrome") || Includes(ua, "chromium") || Includes(ua, "edg")
    ensures DetectBrowser(userAgent).browserType == Chrome ==>
      (DetectBrowser(userAgent).name == "Edge" <==> Includes(ToLower(userAgent), "edg"))
  {
  }

  /** Every other user agent is unsupported, with no store link. */
  lemma UnsupportedOtherwise(userAgent: string)
    ensures var ua := ToLower(userAgent);
      DetectBrowser(userAgent).browserType == Unsupported
      <==> !Includes(ua, "firefox") && !Includes(ua, "chrome") && !Includes(ua, "chromium") && !Includes(ua, "edg")
    ensures DetectBrowser(userAgent).browserType == Unsupported ==>
      DetectBrowser(userAgent) == BrowserInfo(Unsupported, "Unsupported Browser", "")
  {
  }

  /** There is a store link exactly for the supported browsers. */
  lemma ExtensionUrlIffSupported(userAgent: string)
    ensures DetectBrowser(userAgent).extensionUrl != "" <==> DetectBrowser(userAgent).browserType != Unsupported
  {
  }

  /** Example: one Firefox user agent string, as the browser sends it, is classified Firefox. */
  lemma FirefoxExample()
    ensures DetectBrowser("Mozilla/5.0 (X11; Linux x86_64; rv:128.0) Gecko/20100101 Firefox/128.0").browserType == Firefox
  {
    var ua := ToLower("Mozilla/5.0 (X11; Linux x86_64; rv:128.0) Gecko/20100101 Firefox/128.0");
    assert ua[57..64] == "firefox" by {
      forall k | 57 <= k < 64 ensures ua[k] == "firefox"[k - 57] {
        assert ua[k] == LowerChar("Mozilla/5.0 (X11; Linux x86_64; rv:128.0) Gecko/20100101 Firefox/128.0"[k]);
      }
    }
    assert OccursAt(ua, "firefox", 57);
  }
}
