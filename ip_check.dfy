/**
 * The request middleware: which address a request is attributed to, the
 * location looked up for it, and the two request fields the handlers read.
 */
module IpCheck {
  import opened Wrappers
  import opened Text

  /** The location triple stored with a vote. */
  datatype IpInfo = IpInfo(country: string, city: string, region: string)

  /** What the lookup falls back to on any failure. */
  const Unknown: IpInfo := IpInfo("Unknown", "Unknown", "Unknown")

  /**
   * The sources of the client address, in the order they are consulted. The
   * empty string stands for an absent header or address: both are falsy for
   * the `||` chain, so they behave alike.
   */
  datatype Peer = Peer(
    forwardedFor: string,       // X-Forwarded-For header
    realIp: string,             // X-Real-IP header
    connectionAddress: string,  // req.connection.remoteAddress
    socketAddress: string,      // req.socket.remoteAddress
    expressIp: string           // req.ip
  )

  /** The candidates of the fallback chain, first to last. */
  function Candidates(p: Peer): seq<string> {
    [FirstSegment(p.forwardedFor, ','), p.realIp, p.connectionAddress, p.socketAddress, p.expressIp]
  }

  /** `ip` is the first non-empty candidate, or every candidate is empty and `ip` is too. */
  predicate FirstNonEmpty(c: seq<string>, ip: string) {
    if ip == "" then forall k :: 0 <= k < |c| ==> c[k] == ""
    else exists k :: 0 <= k < |c| && c[k] == ip && forall j :: 0 <= j < k ==> c[j] == ""
  }

  /** `getClientIP`: the first comma-separated segment of X-Forwarded-For, else the next source. */
  function ClientIp(p: Peer): (ip: string)
    ensures FirstNonEmpty(Candidates(p), ip)
  {
    var first := FirstSegment(p.forwardedFor, ',');
    var c := Candidates(p);
    if first != "" then
      assert c[0] == first;
      first
    else if p.realIp != "" then
      assert c[0] == "" && c[1] == p.realIp;
      p.realIp
    else if p.connectionAddress != "" then
      assert c[0] == c[1] == "" && c[2] == p.connectionAddress;
      p.connectionAddress
    else if p.socketAddress != "" then
      assert c[0] == c[1] == c[2] == "" && c[3] == p.socketAddress;
      p.socketAddress
    else
      assert c[0] == c[1] == c[2] == c[3] == "" && c[4] == p.expressIp;
      p.expressIp
  }

  /** A non-empty first forwarded segment wins: it is a comma-free prefix of the header, untrimmed. */
  lemma ForwardedForWins(p: Peer)
    requires FirstSegment(p.forwardedFor, ',') != ""
    ensures ClientIp(p) == p.forwardedFor[..|ClientIp(p)|]
    ensures ',' !in ClientIp(p)
  {
  }

  /** No white space is stripped from the forwarded segment. */
  lemma ForwardedForIsNotTrimmed()
    ensures ClientIp(Peer(" 10.0.0.1, 10.0.0.2", "", "", "", "127.0.0.1")) == " 10.0.0.1"
  {
    assert " 10.0.0.1, 10.0.0.2" == " 10.0.0.1" + [','] + " 10.0.0.2";
    FirstSegmentOf(" 10.0.0.1", ',', " 10.0.0.2");
  }

  /** An empty first segment (a header that starts with a comma) falls through to X-Real-IP. */
  lemma LeadingCommaFallsBack(rest: string, realIp: string, conn: string, sock: string, exp: string)
    requires realIp != ""
    ensures ClientIp(Peer("," + rest, realIp, conn, sock, exp)) == realIp
  {
  }

  /** The reply of the location service for one address, or none within the timeout. */
  datatype Lookup =
    | Unreachable
    | Reply(status: string, country: string, city: string, regionName: string)

  /** `getIPInfo`: the reply's fields on status 'success', the Unknown triple otherwise. */
  function InfoFrom(r: Lookup): (info: IpInfo)
    ensures r.Reply? && r.status == "success" ==>
              info.country == r.country && info.city == r.city && info.region == r.regionName
    ensures !(r.Reply? && r.status == "success") ==> info == Unknown
  {
    if r.Reply? && r.status == "success" then IpInfo(r.country, r.city, r.regionName) else Unknown
  }

  /** A request as the handlers see it; `addIPInfo` fills in the two fields. */
  class Request {
    const peer: Peer
    var clientIP: Option<string>
    var ipInfo: Option<IpInfo>

    constructor (peer: Peer)
      ensures this.peer == peer && clientIP == None && ipInfo == None
    {
      this.peer := peer;
      clientIP := None;
      ipInfo := None;
    }

    /** `addIPInfo`; `lookup` is the location service's answer for an address. */
    method AddIpInfo(lookup: string -> Lookup)
      modifies this
      ensures clientIP == Some(ClientIp(peer))
      ensures ipInfo == Some(InfoFrom(lookup(ClientIp(peer))))
    {
      var ip := ClientIp(peer);
      var info := InfoFrom(lookup(ip));
      clientIP := Some(ip);
      ipInfo := Some(info);
    }
  }
}
