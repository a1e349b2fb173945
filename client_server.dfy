/** How the client's requests meet the server's checks. */
module ClientServer {
  import opened Wrappers
  import opened Text
  import VoteSchema
  import VoteRoutes
  import CommentSchema
  import CommentRoutes
  import IpCheck
  import opened Client

  /** The client shows a badge exactly for the pairs the server accepts. */
  lemma LabelIffAllowed(question: string, option: string)
    ensures VoteLabel(question, option) != "" <==> VoteRoutes.IsAllowed(question, option)
  {
    assert VoteRoutes.OptionsOf("q1") == ["arrival", "save"];
    assert VoteRoutes.OptionsOf("q2") == ["death", "live"];
    assert VoteRoutes.OptionsOf("q3") == ["exist", "extinct"];
  }

  /** Every choice made so far is an option offered for its question. */
  predicate ChoicesAllowed(c: VoteSchema.Snapshot) {
    && (c.q1.Some? ==> VoteRoutes.IsAllowed("q1", c.q1.value))
    && (c.q2.Some? ==> VoteRoutes.IsAllowed("q2", c.q2.value))
    && (c.q3.Some? ==> VoteRoutes.IsAllowed("q3", c.q3.value))
  }

  /** Clicking an offered option keeps every choice an offered one. */
  lemma ClickKeepsChoicesAllowed(c: VoteSchema.Snapshot, question: string, option: string)
    requires ChoicesAllowed(c) && question in VoteSchema.Questions
    requires VoteRoutes.IsAllowed(question, option)
    ensures ChoicesAllowed(Choose(c, question, option))
  {
  }

  /**
   * What the client sends once all three are chosen from the offered options
   * passes the server's option check with one entry per question, so the
   * server stores it exactly when the caller has an address.
   */
  lemma SentChoicesAreAccepted(c: VoteSchema.Snapshot, store: seq<VoteSchema.Vote>, ip: string,
                               info: IpCheck.IpInfo, ua: Option<string>, now: int)
    requires AllChosen(c) && ChoicesAllowed(c)
    ensures VoteRoutes.ValidEntries(BodyEntries(c)) && VoteRoutes.DistinctQuestions(BodyEntries(c))
    ensures VoteRoutes.SubmitSpec(store, ip, info, ua, now, VoteRoutes.Entries(BodyEntries(c))).reply.Success?
        <==> ip != ""
  {
    BodyEntriesAreValid(c);
    VoteRoutes.SubmitSucceedsIff(store, ip, info, ua, now, VoteRoutes.Entries(BodyEntries(c)));
  }

  /** The three entries the page sends name distinct questions and offered options. */
  lemma BodyEntriesAreValid(c: VoteSchema.Snapshot)
    requires AllChosen(c) && ChoicesAllowed(c)
    ensures VoteRoutes.ValidEntries(BodyEntries(c)) && VoteRoutes.DistinctQuestions(BodyEntries(c))
  {
    var e := BodyEntries(c);
    assert e[0] == ("q1", c.q1.value) && e[1] == ("q2", c.q2.value) && e[2] == ("q3", c.q3.value);
  }

  lemma DefaultNicknameIsTrimmed()
    ensures Trim(CommentSchema.DefaultNickname) == CommentSchema.DefaultNickname
  {
    var d := CommentSchema.DefaultNickname;
    assert !IsJsSpace(d[0]) && !IsJsSpace(d[|d| - 1]);
    assert TrimStart(d) == d;
    assert TrimEnd(d) == d;
  }

  /**
   * Input the client lets through is accepted by the server's content checks
   * and stored exactly as sent, unless the nickname is over 20 characters or
   * the caller has no address; the client does not check the nickname length.
   */
  lemma CheckedInputIsStoredAsSent(content: string, nickname: string, c: string, n: string,
                                   ip: string, info: IpCheck.IpInfo, snapshot: VoteSchema.Snapshot, id: nat, now: int)
    requires CheckCommentInput(content, nickname) == Success((c, n))
    ensures var r := CommentRoutes.CreateComment(CommentRoutes.Str(c), CommentRoutes.Str(n), ip, info, snapshot, id, now);
            && (r.Success? <==> ip != "" && |n| <= CommentSchema.MaxNickname)
            && (r.Success? ==> r.value.content == c && r.value.nickname == n)
            && (r.Failure? ==> r.error.ServerError?)
  {
    SentPairIsTrimmed(content, nickname, c, n);
    TrimmedPairIsStoredAsSent(c, n, ip, info, snapshot, id, now);
  }

  /** The server's view of a content and nickname given as strings. */
  lemma StringFieldsAreStored(c: string, n: string, ip: string, info: IpCheck.IpInfo,
                              snapshot: VoteSchema.Snapshot, id: nat, now: int)
    requires Trim(c) != "" && |c| <= CommentSchema.MaxContent
    ensures var r := CommentRoutes.CreateComment(CommentRoutes.Str(c), CommentRoutes.Str(n), ip, info, snapshot, id, now);
            && (r.Success? <==> ip != "" && |CommentRoutes.NicknameOf(CommentRoutes.Str(n))| <= CommentSchema.MaxNickname)
            && (r.Success? ==> r.value.content == Trim(c) && r.value.nickname == CommentRoutes.NicknameOf(CommentRoutes.Str(n)))
            && (r.Failure? ==> r.error.ServerError?)
  {
    var r := CommentRoutes.CreateComment(CommentRoutes.Str(c), CommentRoutes.Str(n), ip, info, snapshot, id, now);
    CommentRoutes.CreateSucceedsIff(CommentRoutes.Str(c), CommentRoutes.Str(n), ip, info, snapshot, id, now);
    if r.Success? {
      CommentRoutes.CreatedCommentContents(CommentRoutes.Str(c), CommentRoutes.Str(n), ip, info, snapshot, id, now);
    }
  }

  /** A content and nickname that are already trimmed and non-empty are stored unchanged. */
  lemma TrimmedPairIsStoredAsSent(c: string, n: string, ip: string, info: IpCheck.IpInfo,
                                  snapshot: VoteSchema.Snapshot, id: nat, now: int)
    requires Trim(c) == c && c != "" && |c| <= CommentSchema.MaxContent
    requires CommentRoutes.NicknameOf(CommentRoutes.Str(n)) == n
    ensures var r := CommentRoutes.CreateComment(CommentRoutes.Str(c), CommentRoutes.Str(n), ip, info, snapshot, id, now);
            && (r.Success? <==> ip != "" && |n| <= CommentSchema.MaxNickname)
            && (r.Success? ==> r.value.content == c && r.value.nickname == n)
            && (r.Failure? ==> r.error.ServerError?)
  {
    var r := CommentRoutes.CreateComment(CommentRoutes.Str(c), CommentRoutes.Str(n), ip, info, snapshot, id, now);
    StringFieldsAreStored(c, n, ip, info, snapshot, id, now);
    assert r.Success? <==> ip != "" && |n| <= CommentSchema.MaxNickname;
    assert r.Success? ==> r.value.content == c && r.value.nickname == n;
    assert r.Failure? ==> r.error.ServerError?;
  }

  /** The pair the client sends is already trimmed, and neither part is empty. */
  lemma SentPairIsTrimmed(content: string, nickname: string, c: string, n: string)
    requires CheckCommentInput(content, nickname) == Success((c, n))
    ensures Trim(c) == c && c != "" && |c| <= CommentSchema.MaxContent
    ensures CommentRoutes.NicknameOf(CommentRoutes.Str(n)) == n
  {
    assert c == Trim(content) && c != "" && |c| <= CommentSchema.MaxContent;
    TrimIdempotent(content);
    SentNicknameIsTrimmed(nickname, n);
  }

  /** The nickname the page sends is already trimmed and not blank. */
  lemma SentNicknameIsTrimmed(nickname: string, n: string)
    requires n == (if AllSpace(nickname) then CommentSchema.DefaultNickname else Trim(nickname))
    ensures CommentRoutes.NicknameOf(CommentRoutes.Str(n)) == n
  {
    if AllSpace(nickname) {
      DefaultNicknameIsTrimmed();
    } else {
      TrimIdempotent(nickname);
    }
  }

  /**
   * The client does not bound the nickname: one that is over 20 characters
   * once trimmed passes the client and makes the server answer 500.
   */
  lemma LongNicknameReachesServerError(content: string, nickname: string, ip: string, info: IpCheck.IpInfo,
                                       snapshot: VoteSchema.Snapshot, id: nat, now: int)
    requires |Trim(nickname)| > CommentSchema.MaxNickname
    requires CheckCommentInput(content, nickname).Success?
    ensures CheckCommentInput(content, nickname).value.1 == Trim(nickname)
    ensures CommentRoutes.CreateComment(CommentRoutes.Str(CheckCommentInput(content, nickname).value.0),
                                        CommentRoutes.Str(Trim(nickname)), ip, info, snapshot, id, now).Failure?
  {
    var sent := CheckCommentInput(content, nickname);
    assert !AllSpace(nickname);
    CheckedInputIsStoredAsSent(content, nickname, sent.value.0, sent.value.1, ip, info, snapshot, id, now);
  }

  /** Such nicknames exist: twenty-one letters trim to themselves. */
  lemma LetterRunIsTrimmed(x: string)
    requires x == seq(21, _ => 'x')
    ensures Trim(x) == x && |x| > CommentSchema.MaxNickname
  {
    assert !IsJsSpace(x[0]) && !IsJsSpace(x[20]);
    assert TrimStart(x) == x;
    assert TrimEnd(x) == x;
  }

  /**
   * The liked set follows the server: if the client's membership for a comment
   * agreed with the server's record of the caller before a toggle, it agrees
   * after the client applies the reply.
   */
  lemma LikedSetMirrorsServer(liked: set<nat>, c: CommentSchema.Comment, ip: string)
    requires c.id in liked <==> ip in c.likedBy
    ensures var (c', hasLiked) := CommentRoutes.Toggle(c, ip);
            var liked' := LikedAfter(liked, c.id, hasLiked);
            && (c'.id in liked' <==> ip in c'.likedBy)
            && liked' - {c.id} == liked - {c.id}
  {
    CommentRoutes.ToggleFlipsOnlyTheCaller(c, ip);
  }
}
