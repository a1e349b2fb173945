/**
 * The vote service: statistics over all records, the per-address lookup,
 * and the submission that replaces an address's votes.
 */
module VoteRoutes {
  import opened Wrappers
  import opened VoteSchema
  import IpCheck

  // ---------------------------------------------------------------------
  // The fixed question table

  /** The two options allowed for each question; no option for anything else. */
  function OptionsOf(q: string): seq<string> {
    if q == "q1" then ["arrival", "save"]
    else if q == "q2" then ["death", "live"]
    else if q == "q3" then ["exist", "extinct"]
    else []
  }

  predicate IsAllowed(q: string, o: string) {
    o in OptionsOf(q)
  }

  /** The keys of the statistics object: every allowed (question, option). */
  const AllowedPairs: set<(string, string)> :=
    {("q1", "arrival"), ("q1", "save"), ("q2", "death"), ("q2", "live"),
     ("q3", "exist"), ("q3", "extinct")}

  lemma AllowedPairsAreTheTable(q: string, o: string)
    ensures (q, o) in AllowedPairs <==> IsAllowed(q, o)
  {
  }

  // ---------------------------------------------------------------------
  // Statistics

  /** The number of records for question `q` with option `o`. */
  function Count(votes: seq<Vote>, q: string, o: string): nat {
    if votes == [] then 0
    else
      var last := votes[|votes| - 1];
      Count(votes[..|votes| - 1], q, o) + (if last.question == q && last.option == o then 1 else 0)
  }

  /** The distinct addresses that have voted. */
  function Voters(votes: seq<Vote>): set<string> {
    set v | v in votes :: v.ip
  }

  datatype VoteStats = VoteStats(counts: map<(string, string), nat>, totalVoters: nat)

  /** The statistics a scan of `votes` should produce. */
  function StatsOf(votes: seq<Vote>): VoteStats {
    VoteStats(map p | p in AllowedPairs :: Count(votes, p.0, p.1), |Voters(votes)|)
  }

  const ZeroCounts: map<(string, string), nat> :=
    map[("q1", "arrival") := 0, ("q1", "save") := 0, ("q2", "death") := 0,
        ("q2", "live") := 0, ("q3", "exist") := 0, ("q3", "extinct") := 0]

  /**
   * `getVoteStats` and the `/stats` handler: one counter per allowed
   * (question, option), incremented once per matching record; records with
   * any other question or option are skipped. Then the distinct addresses.
   */
  method Tally(votes: seq<Vote>) returns (stats: VoteStats)
    ensures stats == StatsOf(votes)
  {
    var counts := ZeroCounts;
    for i := 0 to |votes|
      invariant counts.Keys == AllowedPairs
      invariant forall p :: p in counts ==> counts[p] == Count(votes[..i], p.0, p.1)
    {
      CountStep(votes, i);
      var key := (votes[i].question, votes[i].option);
      if key in counts {
        counts := counts[key := counts[key] + 1];
      }
    }
    assert votes[..|votes|] == votes;
    stats := VoteStats(counts, |Voters(votes)|);
    assert counts == StatsOf(votes).counts;
  }

  /** Scanning one more record adds one to its own pair's count and nothing elsewhere. */
  lemma CountStep(votes: seq<Vote>, i: nat)
    requires i < |votes|
    ensures forall q, o :: Count(votes[..i + 1], q, o)
                        == Count(votes[..i], q, o) + (if votes[i].question == q && votes[i].option == o then 1 else 0)
  {
    assert votes[..i + 1][..i] == votes[..i];
    assert votes[..i + 1][i] == votes[i];
  }

  lemma {:induction false} CountAppend(a: seq<Vote>, b: seq<Vote>, q: string, o: string)
    ensures Count(a + b, q, o) == Count(a, q, o) + Count(b, q, o)
  {
    if b != [] {
      assert (a + b)[..|a + b| - 1] == a + b[..|b| - 1];
      CountAppend(a, b[..|b| - 1], q, o);
    } else {
      assert a + b == a;
    }
  }

  /** A record whose question or option is not in the table changes no counter. */
  lemma UnknownRecordIsIgnored(votes: seq<Vote>, v: Vote)
    requires !IsAllowed(v.question, v.option)
    ensures StatsOf(votes + [v]).counts == StatsOf(votes).counts
    ensures StatsOf(votes + [v]).totalVoters == |Voters(votes) + {v.ip}|
  {
    var a := votes + [v];
    assert a[..|a| - 1] == votes;
    forall p | p in AllowedPairs ensures Count(a, p.0, p.1) == Count(votes, p.0, p.1) {
      AllowedPairsAreTheTable(p.0, p.1);
    }
    assert Voters(a) == Voters(votes) + {v.ip};
  }

  /** A record with an allowed pair adds one to exactly that counter. */
  lemma KnownRecordIsCounted(votes: seq<Vote>, v: Vote, q: string, o: string)
    requires (q, o) in AllowedPairs
    ensures StatsOf(votes + [v]).counts[(q, o)]
         == StatsOf(votes).counts[(q, o)] + (if v.question == q && v.option == o then 1 else 0)
  {
    assert (votes + [v])[..|votes|] == votes;
  }

  // ---------------------------------------------------------------------
  // The per-address lookup of `/check` (and of the comment snapshot)

  predicate Matches(v: Vote, ip: string, q: string) {
    v.ip == ip && v.question == q
  }

  /** `k` is the first record of `ip` for question `q`. */
  predicate FirstMatchAt(votes: seq<Vote>, ip: string, q: string, k: int) {
    0 <= k < |votes| && Matches(votes[k], ip, q)
    && forall j :: 0 <= j < k ==> !Matches(votes[j], ip, q)
  }

  /** The index of the first record of `ip` for `q`. */
  function FirstMatch(votes: seq<Vote>, ip: string, q: string): (k: Option<nat>)
    ensures k.Some? ==> FirstMatchAt(votes, ip, q, k.value)
    ensures k.None? ==> forall j :: 0 <= j < |votes| ==> !Matches(votes[j], ip, q)
  {
    if votes == [] then None
    else if Matches(votes[0], ip, q) then Some(0)
    else
      match FirstMatch(votes[1..], ip, q)
      case None => None
      case Some(k) =>
        assert forall j :: 1 <= j < k + 1 ==> votes[j] == votes[1..][j - 1];
        Some(k + 1)
  }

  /** `votes.find(v => v.question === q)?.option || null` over the records of `ip`. */
  function FirstOption(votes: seq<Vote>, ip: string, q: string): (r: Option<string>)
    ensures r.Some? <==> exists k :: FirstMatchAt(votes, ip, q, k) && votes[k].option != ""
    ensures r.Some? ==> exists k :: FirstMatchAt(votes, ip, q, k) && votes[k].option == r.value
  {
    var m := FirstMatch(votes, ip, q);
    assert forall k, k' :: FirstMatchAt(votes, ip, q, k) && FirstMatchAt(votes, ip, q, k') ==> k == k';
    if m.Some? && votes[m.value].option != "" then Some(votes[m.value].option) else None
  }

  /** The `{ q1, q2, q3 }` object of an address's current options. */
  function CurrentVotes(votes: seq<Vote>, ip: string): Snapshot {
    Snapshot(FirstOption(votes, ip, "q1"), FirstOption(votes, ip, "q2"), FirstOption(votes, ip, "q3"))
  }

  datatype CheckReply = CheckReply(hasVoted: bool, votes: Snapshot)

  /** `/check`: the caller's current votes; voting is never closed, so hasVoted is false. */
  function Check(votes: seq<Vote>, ip: string): (r: CheckReply)
    ensures !r.hasVoted
    ensures r.votes == CurrentVotes(votes, ip)
  {
    CheckReply(false, CurrentVotes(votes, ip))
  }

  // ---------------------------------------------------------------------
  // Submission

  /** The `votes` field of the request body. */
  datatype VotesBody =
    | Missing                                  // absent, null or another falsy value
    | NonObject                                // a truthy string, number or boolean
    | Entries(entries: seq<(string, string)>)  // Object.entries of the object, in order

  /** The keys of a JavaScript object are distinct. */
  predicate DistinctQuestions(entries: seq<(string, string)>) {
    forall i, j :: 0 <= i < j < |entries| ==> entries[i].0 != entries[j].0
  }

  /** Every entry names a known question and one of its two options. */
  predicate ValidEntries(entries: seq<(string, string)>) {
    forall i :: 0 <= i < |entries| ==> IsAllowed(entries[i].0, entries[i].1)
  }

  /** `deleteMany({ ip })`. */
  function RemoveIp(votes: seq<Vote>, ip: string): (r: seq<Vote>)
    ensures forall v :: v in r <==> v in votes && v.ip != ip
  {
    if votes == [] then []
    else (if votes[0].ip == ip then [] else [votes[0]]) + RemoveIp(votes[1..], ip)
  }

  /** The records of one address, in store order (`find({ ip })`). */
  function RecordsOf(votes: seq<Vote>, ip: string): (r: seq<Vote>)
    ensures forall v :: v in r <==> v in votes && v.ip == ip
  {
    if votes == [] then []
    else (if votes[0].ip == ip then [votes[0]] else []) + RecordsOf(votes[1..], ip)
  }

  function DraftOf(e: (string, string), ip: string, info: IpCheck.IpInfo, ua: Option<string>): VoteDraft {
    VoteDraft(e.0, e.1, ip, info, ua, None)
  }

  /** The records whose save succeeds, one attempt per entry (`Promise.all` of the saves). */
  function Saved(entries: seq<(string, string)>, ip: string, info: IpCheck.IpInfo,
                 ua: Option<string>, now: int): seq<Vote>
  {
    if entries == [] then []
    else
      var r := Create(DraftOf(entries[|entries| - 1], ip, info, ua), now);
      Saved(entries[..|entries| - 1], ip, info, ua, now) + (if r.Success? then [r.value] else [])
  }

  /** Some save is rejected by the schema. */
  predicate AnyRejected(entries: seq<(string, string)>, ip: string, info: IpCheck.IpInfo,
                        ua: Option<string>, now: int)
  {
    exists i :: 0 <= i < |entries| && Create(DraftOf(entries[i], ip, info, ua), now).Failure?
  }

  datatype Submission = Submission(reply: Result<VoteStats, ApiError>, store: seq<Vote>)

  const MsgBadBody: string := "无效的投票数据"
  const MsgBadOption: string := "无效的选项"

  /**
   * `/submit` as a function of the store: reject a body that is not an
   * object; delete every record of the caller; only then reject an unknown
   * question or option; save one record per entry; answer with the statistics.
   */
  function SubmitSpec(store: seq<Vote>, ip: string, info: IpCheck.IpInfo, ua: Option<string>,
                      now: int, body: VotesBody): Submission
  {
    if !body.Entries? then Submission(Failure(BadRequest(MsgBadBody)), store)
    else
      var kept := RemoveIp(store, ip);
      if !ValidEntries(body.entries) then Submission(Failure(BadRequest(MsgBadOption)), kept)
      else
        var after := kept + Saved(body.entries, ip, info, ua, now);
        if AnyRejected(body.entries, ip, info, ua, now) then
          Submission(Failure(ServerError("Vote validation failed")), after)
        else Submission(Success(StatsOf(after)), after)
  }

  /** The vote collection. */
  class VoteStore {
    var records: seq<Vote>

    /** Every record passed the schema, and the unique (question, ip) index holds. */
    ghost predicate Valid()
      reads this
    {
      (forall v :: v in records ==> ValidVote(v)) && UniqueQuestionIp(records)
    }

    constructor ()
      ensures Valid() && records == []
    {
      records := [];
    }

    /** `/submit`; `emitted` is the payload broadcast as 'vote-update'. */
    method Submit(ip: string, info: IpCheck.IpInfo, ua: Option<string>, now: int, body: VotesBody)
      returns (reply: Result<VoteStats, ApiError>, emitted: Option<VoteStats>)
      requires Valid()
      requires body.Entries? ==> DistinctQuestions(body.entries)
      modifies this
      ensures Valid()
      ensures reply == SubmitSpec(old(records), ip, info, ua, now, body).reply
      ensures records == SubmitSpec(old(records), ip, info, ua, now, body).store
      ensures emitted == (if reply.Success? then Some(reply.value) else None)
    {
      if !body.Entries? {
        return Failure(BadRequest(MsgBadBody)), None;
      }
      ghost var before := records;
      records := RemoveIp(records, ip);
      RemoveIpKeepsValid(before, ip);
      if !ValidEntries(body.entries) {
        return Failure(BadRequest(MsgBadOption)), None;
      }
      ghost var kept := records;
      var entries := body.entries;
      var failed := SaveAll(ip, info, ua, now, entries);
      SavedKeepsValid(kept, entries, ip, info, ua, now);
      if failed {
        return Failure(ServerError("Vote validation failed")), None;
      }
      var stats := Tally(records);
      return Success(stats), Some(stats);
    }

    /** The saves of one submission, one per entry; `failed` tells whether any was refused. */
    method SaveAll(ip: string, info: IpCheck.IpInfo, ua: Option<string>, now: int, entries: seq<(string, string)>)
      returns (failed: bool)
      modifies this
      ensures records == old(records) + Saved(entries, ip, info, ua, now)
      ensures failed <==> AnyRejected(entries, ip, info, ua, now)
    {
      failed := false;
      for i := 0 to |entries|
        invariant records == old(records) + Saved(entries[..i], ip, info, ua, now)
        invariant failed <==> AnyRejected(entries[..i], ip, info, ua, now)
      {
        SavedStep(entries, i, ip, info, ua, now);
        AnyRejectedStep(entries, i, ip, info, ua, now);
        var saved := Create(DraftOf(entries[i], ip, info, ua), now);
        if saved.Success? {
          records := records + [saved.value];
        } else {
          failed := true;
        }
      }
      assert entries[..|entries|] == entries;
    }
  }

  // ---------------------------------------------------------------------
  // Facts about RemoveIp, RecordsOf and Saved

  lemma SavedStep(entries: seq<(string, string)>, i: nat, ip: string, info: IpCheck.IpInfo,
                  ua: Option<string>, now: int)
    requires i < |entries|
    ensures var r := Create(DraftOf(entries[i], ip, info, ua), now);
            Saved(entries[..i + 1], ip, info, ua, now)
            == Saved(entries[..i], ip, info, ua, now) + (if r.Success? then [r.value] else [])
  {
    assert entries[..i + 1][..i] == entries[..i];
  }

  lemma AnyRejectedStep(entries: seq<(string, string)>, i: nat, ip: string, info: IpCheck.IpInfo,
                        ua: Option<string>, now: int)
    requires i < |entries|
    ensures AnyRejected(entries[..i + 1], ip, info, ua, now)
        <==> AnyRejected(entries[..i], ip, info, ua, now)
             || Create(DraftOf(entries[i], ip, info, ua), now).Failure?
  {
    var a, b := entries[..i], entries[..i + 1];
    assert forall k :: 0 <= k < i ==> a[k] == b[k];
    assert b[i] == entries[i];
  }

  /** Dropping the last entry keeps AnyRejected false. */
  lemma NoneRejectedInit(entries: seq<(string, string)>, ip: string, info: IpCheck.IpInfo,
                         ua: Option<string>, now: int)
    requires entries != [] && !AnyRejected(entries, ip, info, ua, now)
    ensures !AnyRejected(entries[..|entries| - 1], ip, info, ua, now)
    ensures Create(DraftOf(entries[|entries| - 1], ip, info, ua), now).Success?
  {
    AnyRejectedStep(entries, |entries| - 1, ip, info, ua, now);
    assert entries[..|entries|] == entries;
  }

  lemma {:induction false} RecordsOfAppend(a: seq<Vote>, b: seq<Vote>, ip: string)
    ensures RecordsOf(a + b, ip) == RecordsOf(a, ip) + RecordsOf(b, ip)
  {
    if a == [] {
      assert a + b == b;
    } else {
      assert (a + b)[1..] == a[1..] + b;
      RecordsOfAppend(a[1..], b, ip);
    }
  }

  lemma {:induction false} RecordsOfRemoveIp(votes: seq<Vote>, ip: string, other: string)
    ensures RecordsOf(RemoveIp(votes, ip), other) == if other == ip then [] else RecordsOf(votes, other)
  {
    if votes != [] {
      var head := if votes[0].ip == ip then [] else [votes[0]];
      RecordsOfAppend(head, RemoveIp(votes[1..], ip), other);
      RecordsOfRemoveIp(votes[1..], ip, other);
    }
  }

  lemma {:induction false} RecordsOfAllSame(votes: seq<Vote>, ip: string, other: string)
    requires forall v :: v in votes ==> v.ip == ip
    ensures RecordsOf(votes, other) == if other == ip then votes else []
  {
    if votes != [] {
      RecordsOfAllSame(votes[1..], ip, other);
    }
  }

  lemma {:induction false} SavedFacts(entries: seq<(string, string)>, ip: string, info: IpCheck.IpInfo,
                                      ua: Option<string>, now: int)
    ensures forall v :: v in Saved(entries, ip, info, ua, now) ==> v.ip == ip && ValidVote(v)
  {
    if entries != [] {
      SavedFacts(entries[..|entries| - 1], ip, info, ua, now);
    }
  }

  /** With no rejected save, record i is entry i with the caller's address, info and the time. */
  lemma {:induction false} SavedIsOneRecordPerEntry(entries: seq<(string, string)>, ip: string,
                                                    info: IpCheck.IpInfo, ua: Option<string>, now: int)
    requires !AnyRejected(entries, ip, info, ua, now)
    ensures |Saved(entries, ip, info, ua, now)| == |entries|
    ensures forall i :: 0 <= i < |entries| ==>
              Saved(entries, ip, info, ua, now)[i] == Vote(entries[i].0, entries[i].1, ip, info, ua, now)
  {
    if entries != [] {
      var init := entries[..|entries| - 1];
      NoneRejectedInit(entries, ip, info, ua, now);
      SavedIsOneRecordPerEntry(init, ip, info, ua, now);
    }
  }

  /** For allowed entries a save fails exactly when the caller's address is empty. */
  lemma RejectedIffEmptyAddress(entries: seq<(string, string)>, ip: string, info: IpCheck.IpInfo,
                                ua: Option<string>, now: int)
    requires ValidEntries(entries)
    ensures AnyRejected(entries, ip, info, ua, now) <==> (ip == "" && entries != [])
  {
    if ip == "" && entries != [] {
      assert Create(DraftOf(entries[0], ip, info, ua), now).Failure?;
    }
  }

  lemma RemoveIpKeepsValid(votes: seq<Vote>, ip: string)
    requires (forall v :: v in votes ==> ValidVote(v)) && UniqueQuestionIp(votes)
    ensures (forall v :: v in RemoveIp(votes, ip) ==> ValidVote(v)) && UniqueQuestionIp(RemoveIp(votes, ip))
  {
    RemoveIpKeepsUnique(votes, ip);
  }

  /** Deleting an ip's records keeps the (question, ip) pairs unique. */
  lemma {:induction false} RemoveIpKeepsUnique(votes: seq<Vote>, ip: string)
    requires UniqueQuestionIp(votes)
    ensures UniqueQuestionIp(RemoveIp(votes, ip))
  {
    if votes != [] {
      var tail := votes[1..];
      assert UniqueQuestionIp(tail) by {
        forall i, j | 0 <= i < j < |tail|
          ensures tail[i].question != tail[j].question || tail[i].ip != tail[j].ip
        {
          assert tail[i] == votes[i + 1] && tail[j] == votes[j + 1];
        }
      }
      RemoveIpKeepsUnique(tail, ip);
      var rest := RemoveIp(tail, ip);
      if votes[0].ip != ip {
        var r := [votes[0]] + rest;
        forall i, j | 0 <= i < j < |r|
          ensures r[i].question != r[j].question || r[i].ip != r[j].ip
        {
          if i == 0 {
            assert r[j] in tail;
            var k :| 0 <= k < |tail| && tail[k] == r[j];
            assert votes[k + 1] == r[j];
          } else {
            assert r[i] == rest[i - 1] && r[j] == rest[j - 1];
          }
        }
      }
    }
  }

  lemma SavedKeepsValid(kept: seq<Vote>, entries: seq<(string, string)>, ip: string,
                        info: IpCheck.IpInfo, ua: Option<string>, now: int)
    requires (forall v :: v in kept ==> ValidVote(v) && v.ip != ip) && UniqueQuestionIp(kept)
    requires DistinctQuestions(entries)
    ensures var after := kept + Saved(entries, ip, info, ua, now);
            (forall v :: v in after ==> ValidVote(v)) && UniqueQuestionIp(after)
  {
    SavedFacts(entries, ip, info, ua, now);
    SavedDistinct(entries, ip, info, ua, now);
    var s := Saved(entries, ip, info, ua, now);
    var after := kept + s;
    forall i, j | 0 <= i < j < |after|
      ensures after[i].question != after[j].question || after[i].ip != after[j].ip
    {
      if j < |kept| {
        assert after[i] == kept[i] && after[j] == kept[j];
      } else if i < |kept| {
        assert after[i] in kept && after[j] in s;
      } else {
        assert after[i] == s[i - |kept|] && after[j] == s[j - |kept|];
      }
    }
  }

  /** The saved records of distinct questions have distinct questions. */
  lemma {:induction false} SavedDistinct(entries: seq<(string, string)>, ip: string,
                                         info: IpCheck.IpInfo, ua: Option<string>, now: int)
    requires DistinctQuestions(entries)
    ensures UniqueQuestionIp(Saved(entries, ip, info, ua, now))
    ensures forall v :: v in Saved(entries, ip, info, ua, now) ==>
              exists i :: 0 <= i < |entries| && entries[i].0 == v.question
  {
    if entries != [] {
      var init := entries[..|entries| - 1];
      var last := entries[|entries| - 1];
      SavedDistinct(init, ip, info, ua, now);
      var s := Saved(init, ip, info, ua, now);
      forall v | v in s ensures v.question != last.0 {
        var i :| 0 <= i < |init| && init[i].0 == v.question;
        assert entries[i] == init[i];
      }
      forall v | v in Saved(entries, ip, info, ua, now)
        ensures exists i :: 0 <= i < |entries| && entries[i].0 == v.question
      {
        if v in s {
          var i :| 0 <= i < |init| && init[i].0 == v.question;
          assert entries[i] == init[i];
        } else {
          assert entries[|entries| - 1].0 == v.question;
        }
      }
    }
  }

  // ---------------------------------------------------------------------
  // What a submission does

  /** A body that is missing or not an object is refused before anything is deleted. */
  lemma MalformedBodyChangesNothing(store: seq<Vote>, ip: string, info: IpCheck.IpInfo,
                                    ua: Option<string>, now: int, body: VotesBody)
    requires !body.Entries?
    ensures SubmitSpec(store, ip, info, ua, now, body) == Submission(Failure(BadRequest(MsgBadBody)), store)
  {
  }

  /**
   * An entry with an unknown question or option is refused with 400, but the
   * caller's earlier votes are already gone; everyone else's are untouched.
   */
  lemma RejectedSubmissionStillDeletes(store: seq<Vote>, ip: string, info: IpCheck.IpInfo,
                                       ua: Option<string>, now: int, entries: seq<(string, string)>)
    requires !ValidEntries(entries)
    ensures var s := SubmitSpec(store, ip, info, ua, now, Entries(entries));
            && s.reply == Failure(BadRequest(MsgBadOption))
            && RecordsOf(s.store, ip) == []
            && forall other :: other != ip ==> RecordsOf(s.store, other) == RecordsOf(store, other)
  {
    forall other ensures RecordsOf(RemoveIp(store, ip), other) == if other == ip then [] else RecordsOf(store, other) {
      RecordsOfRemoveIp(store, ip, other);
    }
  }

  /** Exactly when a submission succeeds: an object whose entries are all allowed, saved under a non-empty address. */
  lemma SubmitSucceedsIff(store: seq<Vote>, ip: string, info: IpCheck.IpInfo,
                          ua: Option<string>, now: int, body: VotesBody)
    ensures SubmitSpec(store, ip, info, ua, now, body).reply.Success?
        <==> body.Entries? && ValidEntries(body.entries) && (ip != "" || body.entries == [])
  {
    if body.Entries? && ValidEntries(body.entries) {
      RejectedIffEmptyAddress(body.entries, ip, info, ua, now);
    }
  }

  /**
   * On success the caller's records are exactly one per submitted entry, with
   * the submitted option, and every other address keeps its records. A partial
   * or empty object is accepted: the empty object only deletes.
   */
  lemma SubmitReplacesCallerVotes(store: seq<Vote>, ip: string, info: IpCheck.IpInfo,
                                  ua: Option<string>, now: int, entries: seq<(string, string)>)
    requires SubmitSpec(store, ip, info, ua, now, Entries(entries)).reply.Success?
    ensures var after := SubmitSpec(store, ip, info, ua, now, Entries(entries)).store;
            && |RecordsOf(after, ip)| == |entries|
            && (forall i :: 0 <= i < |entries| ==>
                  RecordsOf(after, ip)[i] == Vote(entries[i].0, entries[i].1, ip, info, ua, now))
            && forall other :: other != ip ==> RecordsOf(after, other) == RecordsOf(store, other)
  {
    var saved := Saved(entries, ip, info, ua, now);
    SavedIsOneRecordPerEntry(entries, ip, info, ua, now);
    SavedFacts(entries, ip, info, ua, now);
    forall other
      ensures RecordsOf(RemoveIp(store, ip) + saved, other)
           == if other == ip then saved else RecordsOf(store, other)
    {
      RecordsOfAppend(RemoveIp(store, ip), saved, other);
      RecordsOfRemoveIp(store, ip, other);
      RecordsOfAllSame(saved, ip, other);
    }
  }

  /** Submitting twice leaves only the second submission's records for the caller. */
  lemma ResubmitReplaces(store: seq<Vote>, ip: string, info: IpCheck.IpInfo, ua: Option<string>,
                         now1: int, now2: int, first: seq<(string, string)>, second: seq<(string, string)>)
    requires SubmitSpec(store, ip, info, ua, now1, Entries(first)).reply.Success?
    requires var mid := SubmitSpec(store, ip, info, ua, now1, Entries(first)).store;
             SubmitSpec(mid, ip, info, ua, now2, Entries(second)).reply.Success?
    ensures var mid := SubmitSpec(store, ip, info, ua, now1, Entries(first)).store;
            var after := SubmitSpec(mid, ip, info, ua, now2, Entries(second)).store;
            && |RecordsOf(after, ip)| == |second|
            && (forall i :: 0 <= i < |second| ==>
                  RecordsOf(after, ip)[i] == Vote(second[i].0, second[i].1, ip, info, ua, now2))
            && forall other :: other != ip ==> RecordsOf(after, other) == RecordsOf(store, other)
  {
    var mid := SubmitSpec(store, ip, info, ua, now1, Entries(first)).store;
    SubmitReplacesCallerVotes(store, ip, info, ua, now1, first);
    SubmitReplacesCallerVotes(mid, ip, info, ua, now2, second);
  }

  /** The statistics a successful submission answers with are those of the new store. */
  lemma SubmitReportsNewStats(store: seq<Vote>, ip: string, info: IpCheck.IpInfo,
                              ua: Option<string>, now: int, entries: seq<(string, string)>, q: string, o: string)
    requires DistinctQuestions(entries)
    requires (q, o) in AllowedPairs
    requires SubmitSpec(store, ip, info, ua, now, Entries(entries)).reply.Success?
    ensures var s := SubmitSpec(store, ip, info, ua, now, Entries(entries));
            && s.reply.value == StatsOf(s.store)
            && s.reply.value.counts[(q, o)]
               == Count(RemoveIp(store, ip), q, o) + (if (q, o) in entries then 1 else 0)
  {
    var saved := Saved(entries, ip, info, ua, now);
    CountAppend(RemoveIp(store, ip), saved, q, o);
    SavedIsOneRecordPerEntry(entries, ip, info, ua, now);
    CountDistinctEntries(entries, ip, info, ua, now, q, o);
  }

  lemma {:induction false} CountDistinctEntries(entries: seq<(string, string)>, ip: string, info: IpCheck.IpInfo,
                                                ua: Option<string>, now: int, q: string, o: string)
    requires DistinctQuestions(entries)
    requires !AnyRejected(entries, ip, info, ua, now)
    ensures Count(Saved(entries, ip, info, ua, now), q, o) == if (q, o) in entries then 1 else 0
  {
    if entries != [] {
      var init := entries[..|entries| - 1];
      var last := entries[|entries| - 1];
      NoneRejectedInit(entries, ip, info, ua, now);
      DistinctInit(entries);
      CountDistinctEntries(init, ip, info, ua, now, q, o);
      SavedCountStep(entries, ip, info, ua, now, q, o);
    }
  }

  /** Dropping the last entry keeps the questions distinct, and the last entry is not among the rest. */
  lemma DistinctInit(entries: seq<(string, string)>)
    requires DistinctQuestions(entries) && entries != []
    ensures var init := entries[..|entries| - 1];
            && DistinctQuestions(init)
            && entries[|entries| - 1] !in init
            && forall x :: x in entries <==> x in init || x == entries[|entries| - 1]
  {
    var init := entries[..|entries| - 1];
    var last := entries[|entries| - 1];
    assert entries == init + [last];
    assert forall i :: 0 <= i < |init| ==> init[i] == entries[i];
    assert forall i :: 0 <= i < |init| ==> init[i].0 != last.0;
  }

  /** Saving one more accepted entry adds one to its own pair's count and nothing elsewhere. */
  lemma SavedCountStep(entries: seq<(string, string)>, ip: string, info: IpCheck.IpInfo,
                       ua: Option<string>, now: int, q: string, o: string)
    requires entries != [] && !AnyRejected(entries, ip, info, ua, now)
    ensures Count(Saved(entries, ip, info, ua, now), q, o)
         == Count(Saved(entries[..|entries| - 1], ip, info, ua, now), q, o)
            + (if entries[|entries| - 1] == (q, o) then 1 else 0)
  {
    NoneRejectedInit(entries, ip, info, ua, now);
    var last := entries[|entries| - 1];
    var s := Saved(entries, ip, info, ua, now);
    var si := Saved(entries[..|entries| - 1], ip, info, ua, now);
    var v := Create(DraftOf(last, ip, info, ua), now).value;
    assert s == si + [v];
    assert s[..|s| - 1] == si && s[|s| - 1] == v;
    assert v.question == last.0 && v.option == last.1;
  }

  /** After a successful submission, `/check` reports exactly the submitted option per question. */
  lemma CheckAfterSubmit(store: seq<Vote>, ip: string, info: IpCheck.IpInfo, ua: Option<string>,
                         now: int, entries: seq<(string, string)>, q: string)
    requires DistinctQuestions(entries)
    requires SubmitSpec(store, ip, info, ua, now, Entries(entries)).reply.Success?
    ensures var after := SubmitSpec(store, ip, info, ua, now, Entries(entries)).store;
            forall o :: FirstOption(after, ip, q) == Some(o) <==> (q, o) in entries
  {
    var after := SubmitSpec(store, ip, info, ua, now, Entries(entries)).store;
    SubmitReplacesCallerVotes(store, ip, info, ua, now, entries);
    FirstOptionOwnRecords(after, ip, q);
    FirstOptionOfBallot(RecordsOf(after, ip), entries, ip, info, ua, now, q);
  }

  /** The lookup over one record per entry, with distinct questions, finds the entry's option. */
  lemma FirstOptionOfBallot(mine: seq<Vote>, entries: seq<(string, string)>, ip: string,
                            info: IpCheck.IpInfo, ua: Option<string>, now: int, q: string)
    requires DistinctQuestions(entries) && ValidEntries(entries)
    requires |mine| == |entries|
    requires forall i :: 0 <= i < |entries| ==> mine[i] == Vote(entries[i].0, entries[i].1, ip, info, ua, now)
    ensures forall o :: FirstOption(mine, ip, q) == Some(o) <==> (q, o) in entries
  {
    forall o ensures FirstOption(mine, ip, q) == Some(o) <==> (q, o) in entries {
      if (q, o) in entries {
        var i :| 0 <= i < |entries| && entries[i] == (q, o);
        EntryIsFirstMatch(mine, entries, ip, info, ua, now, i);
      }
      if FirstOption(mine, ip, q) == Some(o) {
        var k :| FirstMatchAt(mine, ip, q, k) && mine[k].option == o;
        assert entries[k] == (q, o);
      }
    }
  }

  lemma EntryIsFirstMatch(mine: seq<Vote>, entries: seq<(string, string)>, ip: string,
                          info: IpCheck.IpInfo, ua: Option<string>, now: int, i: nat)
    requires DistinctQuestions(entries) && ValidEntries(entries)
    requires i < |entries| == |mine|
    requires forall i :: 0 <= i < |entries| ==> mine[i] == Vote(entries[i].0, entries[i].1, ip, info, ua, now)
    ensures FirstOption(mine, ip, entries[i].0) == Some(entries[i].1)
  {
    var q := entries[i].0;
    assert IsAllowed(q, entries[i].1);
    assert entries[i].1 != "";
    assert mine[i] == Vote(entries[i].0, entries[i].1, ip, info, ua, now);
    assert FirstMatchAt(mine, ip, q, i) && mine[i].option != "";
    var r := FirstOption(mine, ip, q);
    assert r.Some?;
    var k :| FirstMatchAt(mine, ip, q, k) && mine[k].option == r.value;
    assert 0 <= k < |mine|;
    assert mine[k] == Vote(entries[k].0, entries[k].1, ip, info, ua, now);
    assert entries[k].0 == q;
    assert k == i;
  }

  /** A record that does not match is skipped by the lookup. */
  lemma FirstOptionSkip(votes: seq<Vote>, ip: string, q: string)
    requires votes != [] && !Matches(votes[0], ip, q)
    ensures FirstOption(votes, ip, q) == FirstOption(votes[1..], ip, q)
  {
    var m := FirstMatch(votes[1..], ip, q);
    assert FirstMatch(votes, ip, q) == if m.None? then None else Some(m.value + 1);
    if m.Some? {
      assert votes[m.value + 1] == votes[1..][m.value];
    }
  }

  /** The lookup for `ip` sees only the records of `ip`. */
  lemma {:induction false} FirstOptionOwnRecords(votes: seq<Vote>, ip: string, q: string)
    ensures FirstOption(votes, ip, q) == FirstOption(RecordsOf(votes, ip), ip, q)
  {
    if votes != [] {
      FirstOptionOwnRecords(votes[1..], ip, q);
      var mine := RecordsOf(votes, ip);
      var rest := RecordsOf(votes[1..], ip);
      if votes[0].ip != ip {
        assert mine == rest;
        FirstOptionSkip(votes, ip, q);
      } else {
        assert mine == [votes[0]] + rest;
        assert mine[0] == votes[0] && mine[1..] == rest;
        if votes[0].question != q {
          FirstOptionSkip(votes, ip, q);
          FirstOptionSkip(mine, ip, q);
        }
      }
    }
  }

  /** The unique (question, ip) index survives every submission, so the duplicate-key error cannot arise. */
  lemma SubmitKeepsUniqueIndex(store: seq<Vote>, ip: string, info: IpCheck.IpInfo,
                               ua: Option<string>, now: int, body: VotesBody)
    requires (forall v :: v in store ==> ValidVote(v)) && UniqueQuestionIp(store)
    requires body.Entries? ==> DistinctQuestions(body.entries)
    ensures UniqueQuestionIp(SubmitSpec(store, ip, info, ua, now, body).store)
  {
    if body.Entries? {
      RemoveIpKeepsValid(store, ip);
      if ValidEntries(body.entries) {
        SavedKeepsValid(RemoveIp(store, ip), body.entries, ip, info, ua, now);
      }
    }
  }
}
