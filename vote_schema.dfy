/** The Vote record: one per question answered in a submission. */
module VoteSchema {
  import opened Wrappers
  import IpCheck

  /** The values the `question` field may take. */
  const Questions: seq<string> := ["q1", "q2", "q3"]

  datatype Vote = Vote(
    question: string,
    option: string,
    ip: string,
    ipInfo: IpCheck.IpInfo,
    userAgent: Option<string>,
    timestamp: int          // milliseconds since the epoch
  )

  /** One address's option per question, null (None) where it has none. */
  datatype Snapshot = Snapshot(q1: Option<string>, q2: Option<string>, q3: Option<string>)

  /** The fields handed to the model before it is saved; an absent timestamp takes a default. */
  datatype VoteDraft = VoteDraft(
    question: string,
    option: string,
    ip: string,
    ipInfo: IpCheck.IpInfo,
    userAgent: Option<string>,
    timestamp: Option<int>
  )

  /**
   * What the schema enforces of a stored record: the question is one of the
   * enumerated values, and the required string fields are present (a required
   * string must not be empty). The option is not checked against the question.
   */
  predicate ValidVote(v: Vote) {
    v.question in Questions && v.option != "" && v.ip != ""
  }

  /** Validation on save; the timestamp defaults to `now`, the moment of creation. */
  function Create(d: VoteDraft, now: int): (r: Result<Vote, string>)
    ensures r.Success? <==> d.question in Questions && d.option != "" && d.ip != ""
    ensures r.Success? ==> ValidVote(r.value)
    ensures r.Success? ==> (r.value.question == d.question && r.value.option == d.option
                            && r.value.ip == d.ip && r.value.ipInfo == d.ipInfo
                            && r.value.userAgent == d.userAgent)
    ensures r.Success? ==> r.value.timestamp == (if d.timestamp.Some? then d.timestamp.value else now)
  {
    if d.question in Questions && d.option != "" && d.ip != "" then
      Success(Vote(d.question, d.option, d.ip, d.ipInfo, d.userAgent, d.timestamp.GetOr(now)))
    else
      Failure("Vote validation failed")
  }

  /** The compound unique index: at most one record per (question, ip). */
  predicate UniqueQuestionIp(votes: seq<Vote>) {
    forall i, j :: 0 <= i < j < |votes| ==>
      votes[i].question != votes[j].question || votes[i].ip != votes[j].ip
  }

  /** A record is accepted whatever its option, as long as it is not empty. */
  lemma OptionIsNotCheckedAgainstQuestion(ip: string, info: IpCheck.IpInfo, now: int)
    requires ip != ""
    ensures Create(VoteDraft("q1", "live", ip, info, None, None), now).Success?
    ensures Create(VoteDraft("q4", "live", ip, info, None, None), now).Failure?
  {
  }
}
