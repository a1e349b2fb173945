/** The cross-origin policy of the API server. */
module Cors {
  import opened Wrappers
  import opened Text

  datatype CorsDecision = Allow | Deny(message: string)

  const LocalHost: string := "http://localhost"
  const LoopBack: string := "http://127.0.0.1"
  const VercelDomain: string := ".vercel.app"

  /**
   * The `origin` callback: allowed exactly when the origin is absent (or
   * empty), starts with one of the two local-development prefixes, or
   * contains the Vercel domain somewhere; otherwise the fixed error.
   */
  function CheckOrigin(origin: Option<string>): (d: CorsDecision)
    ensures d == Allow <==>
              || origin.None? || origin.value == ""
              || (|LocalHost| <= |origin.value| && origin.value[..|LocalHost|] == LocalHost)
              || (|LoopBack| <= |origin.value| && origin.value[..|LoopBack|] == LoopBack)
              || (exists i :: OccursAt(origin.value, VercelDomain, i))
    ensures d != Allow ==> d == Deny("Not allowed by CORS")
  {
    if origin.None? || origin.value == "" then Allow
    else if StartsWith(origin.value, LocalHost) || StartsWith(origin.value, LoopBack) then Allow
    else if Includes(origin.value, VercelDomain) then Allow
    else Deny("Not allowed by CORS")
  }

  /** Requests without an origin header (tools, mobile apps) pass. */
  lemma NoOriginIsAllowed()
    ensures CheckOrigin(None) == Allow && CheckOrigin(Some("")) == Allow
  {
  }

  /** Any port or path after a local prefix passes. */
  lemma LocalPrefixIsAllowed(rest: string)
    ensures CheckOrigin(Some(LocalHost + rest)) == Allow
    ensures CheckOrigin(Some(LoopBack + rest)) == Allow
  {
    assert (LocalHost + rest)[..|LocalHost|] == LocalHost;
    assert (LoopBack + rest)[..|LoopBack|] == LoopBack;
  }

  /** The local test is a prefix test, so a look-alike public host passes too. */
  lemma LookAlikeHostIsAllowed()
    ensures CheckOrigin(Some("http://localhost.example.com")) == Allow
  {
    LocalPrefixIsAllowed(".example.com");
    assert LocalHost + ".example.com" == "http://localhost.example.com";
  }

  /** The Vercel domain may appear anywhere in the origin, not only as its suffix. */
  lemma VercelAnywhereIsAllowed(before: string, after: string)
    ensures CheckOrigin(Some(before + VercelDomain + after)) == Allow
  {
    var s := before + VercelDomain + after;
    assert s[|before|..|before| + |VercelDomain|] == VercelDomain;
    assert OccursAt(s, VercelDomain, |before|);
  }

  /** The scheme is part of the prefix: the HTTPS form of a local origin is refused. */
  lemma HttpsLocalHostIsDenied()
    ensures CheckOrigin(Some("https://localhost")) == Deny("Not allowed by CORS")
  {
    var s := "https://localhost";
    assert s[4] != LocalHost[4];
    assert s[..|LocalHost|] != LocalHost;
    assert s[4] != LoopBack[4];
    assert forall k :: 0 <= k < |s| ==> s[k] != '.';
    forall i ensures !OccursAt(s, VercelDomain, i) {
      if 0 <= i && i + |VercelDomain| <= |s| {
        assert s[i..i + |VercelDomain|][0] == s[i];
      }
    }
  }
}
