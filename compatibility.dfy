/**
  Platform predicates: which browser the user agent names, and whether a key
  event carries the platform's command modifier. The browser values the source
  reads from `navigator` (user agent, platform, vendor) and from the keyboard
  event (metaKey, ctrlKey) are parameters here.
 */
module Compatibility {
  import opened Strings

  /** `isSafari`: the user agent mentions Safari and does not mention Chrome. */
  predicate IsSafari(userAgent: string)
  {
    Contains(userAgent, "Safari") && !Contains(userAgent, "Chrome")
  }

  /** `isFirefox`: the lower-cased user agent mentions "firefox". */
  predicate IsFirefox(userAgent: string)
  {
    Contains(ToLower(userAgent), "firefox")
  }

  /** `isCtrl`: the command modifier is pressed alone: meta on a Mac, ctrl elsewhere. */
  predicate IsCtrl(platform: string, metaKey: bool, ctrlKey: bool)
  {
    if Contains(ToUpper(platform), "MAC") then metaKey && !ctrlKey
    else !metaKey && ctrlKey
  }

  /** `isChrome`: the user agent mentions Chrome and the vendor is Google. */
  predicate IsChrome(userAgent: string, vendor: string)
  {
    Contains(userAgent, "Chrome") && Contains(vendor, "Google Inc")
  }

  /** A user agent is never taken for both Safari and Chrome. */
  lemma SafariIsNeverChrome(userAgent: string, vendor: string)
    ensures !(IsSafari(userAgent) && IsChrome(userAgent, vendor))
  {
  }

  /** Firefox is recognised whatever the case of the word in the user agent. */
  lemma {:induction false} FirefoxInAnyCase(pre: string, word: string, post: string)
    requires ToLower(word) == "firefox"
    ensures IsFirefox(pre + word + post)
  {
    ToLowerConcat(pre + word, post);
    ToLowerConcat(pre, word);
    ContainsInfix(ToLower(pre), "firefox", ToLower(post));
  }

  /** Conversely, a user agent taken for Firefox holds the word in some case. */
  lemma FirefoxWitness(userAgent: string) returns (k: nat)
    requires IsFirefox(userAgent)
    ensures k + 7 <= |userAgent| && ToLower(userAgent[k..k + 7]) == "firefox"
  {
    k := IndexOf(ToLower(userAgent), "firefox");
    ToLowerSlice(userAgent, k, k + 7);
  }

  /**
    Every platform has exactly one command modifier: meta alone or ctrl alone
    is taken for it, never both, and a key event taken for it carries exactly
    one of the two modifiers.
   */
  lemma OneCommandModifier(platform: string, metaKey: bool, ctrlKey: bool)
    ensures IsCtrl(platform, true, false) != IsCtrl(platform, false, true)
    ensures IsCtrl(platform, metaKey, ctrlKey) ==> metaKey != ctrlKey
  {
  }

  /** With both modifiers or with neither, no platform sees the command modifier. */
  lemma CtrlNeedsExactlyOneModifier(platform: string, metaKey: bool, ctrlKey: bool)
    requires metaKey == ctrlKey
    ensures !IsCtrl(platform, metaKey, ctrlKey)
  {
  }

  /** The platform "MacIntel" takes meta as the command modifier, "Win32" takes ctrl. */
  lemma CtrlOnKnownPlatforms()
    ensures IsCtrl("MacIntel", true, false) && !IsCtrl("MacIntel", false, true)
    ensures IsCtrl("Win32", false, true) && !IsCtrl("Win32", true, false)
  {
    assert ToUpper("MacIntel") == "MAC" + "INTEL";
    ContainsInfix("", "MAC", "INTEL");
    assert ToUpper("Win32") == "WIN32";
    forall k | 0 <= k <= 2
      ensures !OccursAt("WIN32", "MAC", k)
    {
      assert "WIN32"[k..k + 3][0] != 'M';
    }
  }

  /** A user agent that names Safari and holds no capital C is taken for Safari and never for Chrome. */
  lemma SafariAgent(pre: string, post: string, vendor: string)
    requires 'C' !in pre && 'C' !in post
    ensures IsSafari(pre + "Safari" + post)
    ensures !IsChrome(pre + "Safari" + post, vendor)
  {
    ContainsInfix(pre, "Safari", post);
    assert 'C' !in "Safari";
    LacksFirstChar(pre + "Safari" + post, "Chrome");
  }

  /** A user agent that names Chrome (Chrome's also names Safari) is never taken for Safari, and is Chrome with a Google vendor. */
  lemma ChromeAgent(pre: string, post: string, vendorPre: string, vendorPost: string)
    ensures !IsSafari(pre + "Chrome" + post)
    ensures IsChrome(pre + "Chrome" + post, vendorPre + "Google Inc" + vendorPost)
  {
    ContainsInfix(pre, "Chrome", post);
    ContainsInfix(vendorPre, "Google Inc", vendorPost);
  }
}
