/**
 * The browser client: relative times, the leading option of a question, the
 * badge labels, comment input checks, and the page state its handlers update.
 */
module Client {
  import opened Wrappers
  import opened Text
  import VoteSchema
  import CommentSchema

  // ---------------------------------------------------------------------
  // Relative time

  /** The units tried in turn, largest first, with their length in seconds. */
  const Units: seq<(string, nat)> := [
    ("年", 31536000), ("月", 2592000), ("周", 604800),
    ("天", 86400), ("小时", 3600), ("分钟", 60)
  ]

  const JustNow: string := "刚刚"

  /** The first unit, from position i on, that fits at least once into `s` seconds. */
  function FirstUnitFrom(s: int, i: nat): (k: Option<nat>)
    requires i <= |Units|
    ensures k.Some? ==> i <= k.value < |Units| && Units[k.value].1 <= s
                        && forall j :: i <= j < k.value ==> s < Units[j].1
    ensures k.None? ==> forall j :: i <= j < |Units| ==> s < Units[j].1
    decreases |Units| - i
  {
    if i == |Units| then None
    else if Units[i].1 <= s then Some(i)
    else FirstUnitFrom(s, i + 1)
  }

  /** `n` followed by the unit and 前 ("ago"). */
  function Ago(n: nat, unit: string): string {
    Decimal(n) + unit + "前"
  }

  /**
   * The text for an age of `s` whole seconds: the count of the largest unit
   * that fits, or 刚刚 ("just now") below one minute, negative ages included.
   */
  function TimeAgo(s: int): (r: string)
    ensures r == JustNow <==> s < 60
  {
    match FirstUnitFrom(s, 0)
    case None => JustNow
    case Some(k) =>
      var r := Ago(s / Units[k].1, Units[k].0);
      assert r[|r| - 1] != JustNow[|JustNow| - 1];
      r
  }

  lemma QuotientAtLeastOne(s: int, u: int)
    requires u > 0
    ensures s / u >= 1 <==> s >= u
  {
  }

  /**
   * `formatTimeAgo` on the milliseconds elapsed since the timestamp: the
   * seconds are floored, then the units are tried largest first and the
   * first whole count of at least 1 is shown.
   */
  method FormatTimeAgo(elapsedMs: int) returns (r: string)
    ensures r == TimeAgo(elapsedMs / 1000)
  {
    var seconds := elapsedMs / 1000;
    for i := 0 to |Units|
      invariant FirstUnitFrom(seconds, 0) == FirstUnitFrom(seconds, i)
    {
      var interval := seconds / Units[i].1;
      QuotientAtLeastOne(seconds, Units[i].1);
      if interval >= 1 {
        return Ago(interval, Units[i].0);
      }
    }
    return JustNow;
  }

  /**
   * From one minute on, the text is n units ago for the largest unit that
   * fits, where n is the whole number of those units in the age.
   */
  lemma TimeAgoCountsLargestUnit(s: int)
    requires s >= 60
    ensures exists k :: && 0 <= k < |Units|
                        && Units[k].1 <= s
                        && (forall j :: 0 <= j < k ==> s < Units[j].1)
                        && 1 <= s / Units[k].1
                        && (s / Units[k].1) * Units[k].1 <= s < (s / Units[k].1 + 1) * Units[k].1
                        && TimeAgo(s) == Ago(s / Units[k].1, Units[k].0)
  {
    var k := FirstUnitFrom(s, 0);
    assert Units[5].1 <= s;
    assert k.Some?;
    var u := Units[k.value].1;
    QuotientAtLeastOne(s, u);
    assert (s / u) * u <= s < (s / u + 1) * u;
  }

  lemma TimeAgoExamples()
    ensures TimeAgo(59) == JustNow && TimeAgo(-30) == JustNow
    ensures TimeAgo(60) == "1分钟前"
    ensures TimeAgo(7200) == "2小时前"
    ensures TimeAgo(364 * 86400) == "12月前"
  {
    assert FirstUnitFrom(60, 0) == Some(5);
    assert Decimal(1) == "1";
    assert FirstUnitFrom(7200, 0) == Some(4);
    assert Decimal(2) == "2";
    assert FirstUnitFrom(364 * 86400, 0) == Some(1);
    assert 364 * 86400 / 2592000 == 12;
    assert Decimal(12) == "12" by {
      assert Decimal(1) == "1";
    }
  }

  // ---------------------------------------------------------------------
  // The leading option

  /** `data[opt] || 0`. */
  function CountOf(data: map<string, nat>, opt: string): nat {
    if opt in data then data[opt] else 0
  }

  /** The votes of all the question's options together. */
  function Total(options: seq<string>, data: map<string, nat>): nat {
    if options == [] then 0 else Total(options[..|options| - 1], data) + CountOf(data, options[|options| - 1])
  }

  /** Option i has the greatest count and no earlier option has as many. */
  predicate FirstGreatest(options: seq<string>, data: map<string, nat>, i: int) {
    && 0 <= i < |options|
    && (forall j :: 0 <= j < |options| ==> CountOf(data, options[j]) <= CountOf(data, options[i]))
    && (forall j :: 0 <= j < i ==> CountOf(data, options[j]) < CountOf(data, options[i]))
  }

  lemma {:induction false} PositiveTotalHasVotes(options: seq<string>, data: map<string, nat>)
    requires Total(options, data) > 0
    ensures exists j :: 0 <= j < |options| && CountOf(data, options[j]) > 0
  {
    var last := |options| - 1;
    if CountOf(data, options[last]) == 0 {
      PositiveTotalHasVotes(options[..last], data);
      var j :| 0 <= j < last && CountOf(data, options[..last][j]) > 0;
      assert options[..last][j] == options[j];
    }
  }

  /**
   * The winner of `updateQuestionResult`: none when the question has no votes;
   * otherwise the first option with the greatest count, so a tie goes to the
   * earlier option, and `maxVotes` is that count.
   */
  method Winner(options: seq<string>, data: map<string, nat>) returns (winner: Option<string>, maxVotes: nat)
    ensures Total(options, data) == 0 ==> winner == None && maxVotes == 0
    ensures Total(options, data) > 0 ==>
              && maxVotes > 0
              && exists i :: FirstGreatest(options, data, i) && winner == Some(options[i])
                             && maxVotes == CountOf(data, options[i])
  {
    var total := Total(options, data);
    if total == 0 {
      return None, 0;
    }
    maxVotes := 0;
    winner := None;
    ghost var at := -1;
    for k := 0 to |options|
      invariant winner.None? <==> at == -1
      invariant winner.None? ==> maxVotes == 0 && forall j :: 0 <= j < k ==> CountOf(data, options[j]) == 0
      invariant winner.Some? ==> && 0 <= at < k && winner == Some(options[at])
                                 && maxVotes == CountOf(data, options[at]) > 0
                                 && (forall j :: 0 <= j < k ==> CountOf(data, options[j]) <= maxVotes)
                                 && (forall j :: 0 <= j < at ==> CountOf(data, options[j]) < maxVotes)
    {
      var votes := CountOf(data, options[k]);
      if votes > maxVotes {
        maxVotes := votes;
        winner := Some(options[k]);
        at := k;
      }
    }
    PositiveTotalHasVotes(options, data);
    assert FirstGreatest(options, data, at);
  }

  // ---------------------------------------------------------------------
  // Labels

  /** `getVoteLabel`: the badge for a known pair, '' for anything else. */
  function VoteLabel(question: string, option: string): string {
    if question == "q1" && option == "arrival" then "🛸 降临派"
    else if question == "q1" && option == "save" then "🦸 拯救派"
    else if question == "q2" && option == "death" then "💀 死亡"
    else if question == "q2" && option == "live" then "❤️ 活着"
    else if question == "q3" && option == "exist" then "🌍 存在"
    else if question == "q3" && option == "extinct" then "☄️ 灭绝"
    else ""
  }

  // ---------------------------------------------------------------------
  // Comment input

  const MsgNoContent: string := "请输入评论内容"
  const MsgTooLong: string := "评论内容过长"

  /**
   * `submitComment` before sending: the content is trimmed and must be
   * non-empty and at most 500 characters; a blank nickname becomes the
   * default one. On success, the pair that is sent.
   */
  function CheckCommentInput(content: string, nickname: string): (r: Result<(string, string), string>)
    ensures r.Success? <==> !AllSpace(content) && |Trim(content)| <= CommentSchema.MaxContent
    ensures r.Failure? ==> r.error == (if AllSpace(content) then MsgNoContent else MsgTooLong)
    ensures r.Success? ==> && r.value.0 == Trim(content) && r.value.0 != ""
                           && r.value.1 == (if AllSpace(nickname) then CommentSchema.DefaultNickname else Trim(nickname))
  {
    var c := Trim(content);
    var n := if Trim(nickname) == "" then CommentSchema.DefaultNickname else Trim(nickname);
    if c == "" then Failure(MsgNoContent)
    else if |c| > CommentSchema.MaxContent then Failure(MsgTooLong)
    else Success((c, n))
  }

  // ---------------------------------------------------------------------
  // Page state

  /** A choice counts as made when it holds a non-empty option. */
  predicate Chosen(x: Option<string>) {
    x.Some? && x.value != ""
  }

  predicate AllChosen(c: VoteSchema.Snapshot) {
    Chosen(c.q1) && Chosen(c.q2) && Chosen(c.q3)
  }

  /** The choices with `question` set to `option`. */
  function Choose(c: VoteSchema.Snapshot, question: string, option: string): (r: VoteSchema.Snapshot)
    requires question in VoteSchema.Questions
    ensures question == "q1" ==> r == c.(q1 := Some(option))
    ensures question == "q2" ==> r == c.(q2 := Some(option))
    ensures question == "q3" ==> r == c.(q3 := Some(option))
  {
    if question == "q1" then c.(q1 := Some(option))
    else if question == "q2" then c.(q2 := Some(option))
    else c.(q3 := Some(option))
  }

  const NoChoices: VoteSchema.Snapshot := VoteSchema.Snapshot(None, None, None)

  /** The body `{ votes: userChoices }` as its entries, in the object's key order. */
  function BodyEntries(c: VoteSchema.Snapshot): seq<(string, string)>
    requires AllChosen(c)
  {
    [("q1", c.q1.value), ("q2", c.q2.value), ("q3", c.q3.value)]
  }

  /** The liked set after a like reply for `id` reporting `hasLiked`: only `id` moves, to where the server says. */
  function LikedAfter(liked: set<nat>, id: nat, hasLiked: bool): (r: set<nat>)
    ensures id in r <==> hasLiked
    ensures r - {id} == liked - {id}
  {
    if hasLiked then liked + {id} else liked - {id}
  }

  /** The module-level state of the page script. */
  class ClientState {
    var choices: VoteSchema.Snapshot
    var hasVoted: bool
    var submitDisabled: bool
    var currentPage: int
    var loadMoreDisabled: bool
    var likedComments: set<nat>

    /** The submit button is enabled exactly when every question is answered and no vote is recorded. */
    ghost predicate Valid()
      reads this
    {
      submitDisabled == !(AllChosen(choices) && !hasVoted)
    }

    /** The page on load: nothing chosen, voting open, page 1, the saved liked set. */
    constructor (saved: set<nat>)
      ensures Valid()
      ensures choices == NoChoices && !hasVoted && currentPage == 1 && likedComments == saved
      ensures !loadMoreDisabled
    {
      choices := NoChoices;
      hasVoted := false;
      submitDisabled := true;
      currentPage := 1;
      loadMoreDisabled := false;
      likedComments := saved;
    }

    /** `updateSubmitButton`. */
    method UpdateSubmitButton()
      modifies this
      ensures Valid()
      ensures submitDisabled == !(AllChosen(choices) && !hasVoted)
      ensures choices == old(choices) && hasVoted == old(hasVoted) && currentPage == old(currentPage)
      ensures loadMoreDisabled == old(loadMoreDisabled) && likedComments == old(likedComments)
    {
      submitDisabled := !AllChosen(choices) || hasVoted;
    }

    /**
     * A click on an option button: ignored once a vote is recorded, otherwise
     * that question's choice becomes the option and the others stay.
     */
    method ClickOption(question: string, option: string)
      requires Valid()
      requires question in VoteSchema.Questions
      modifies this
      ensures Valid()
      ensures choices == if old(hasVoted) then old(choices) else Choose(old(choices), question, option)
      ensures old(hasVoted) ==> submitDisabled == old(submitDisabled)
      ensures hasVoted == old(hasVoted) && currentPage == old(currentPage)
      ensures loadMoreDisabled == old(loadMoreDisabled) && likedComments == old(likedComments)
    {
      if hasVoted {
        return;
      }
      choices := Choose(choices, question, option);
      UpdateSubmitButton();
    }

    /**
     * `submitVote`: nothing is sent unless all three questions are answered;
     * `accepted` is the server's `success`. After an accepted vote the choices
     * are cleared and voting stays open.
     */
    method SubmitVote(accepted: bool) returns (sent: Option<seq<(string, string)>>)
      requires Valid()
      modifies this
      ensures Valid()
      ensures sent == if AllChosen(old(choices)) then Some(BodyEntries(old(choices))) else None
      ensures choices == if sent.Some? && accepted then NoChoices else old(choices)
      ensures hasVoted == if sent.Some? && accepted then false else old(hasVoted)
      ensures currentPage == old(currentPage) && loadMoreDisabled == old(loadMoreDisabled)
      ensures likedComments == old(likedComments)
    {
      if !AllChosen(choices) {
        return None;
      }
      sent := Some(BodyEntries(choices));
      if accepted {
        choices := NoChoices;
        hasVoted := false;
        UpdateSubmitButton();
      }
    }

    /**
     * `loadComments(page)`; `pages` is the reply's page count, None when the
     * request failed. On a reply, load-more is disabled exactly on the last page
     * or beyond, and the page becomes current.
     */
    method LoadComments(page: int, pages: Option<int>)
      modifies this
      ensures pages.Some? ==> loadMoreDisabled == (page >= pages.value) && currentPage == page
      ensures pages.None? ==> loadMoreDisabled == old(loadMoreDisabled) && currentPage == old(currentPage)
      ensures choices == old(choices) && hasVoted == old(hasVoted) && submitDisabled == old(submitDisabled)
      ensures likedComments == old(likedComments)
    {
      if pages.Some? {
        loadMoreDisabled := page >= pages.value;
        currentPage := page;
      }
    }

    /** `loadMoreComments`: the page after the current one. */
    method LoadMoreComments(pages: Option<int>)
      modifies this
      ensures pages.Some? ==> loadMoreDisabled == (old(currentPage) + 1 >= pages.value)
                              && currentPage == old(currentPage) + 1
      ensures pages.None? ==> loadMoreDisabled == old(loadMoreDisabled) && currentPage == old(currentPage)
      ensures choices == old(choices) && hasVoted == old(hasVoted) && submitDisabled == old(submitDisabled)
      ensures likedComments == old(likedComments)
    {
      LoadComments(currentPage + 1, pages);
    }

    /**
     * `likeComment`: `hasLiked` is the reply's flag, None when the request
     * failed; the liked set follows the reply.
     */
    method LikeComment(id: nat, hasLiked: Option<bool>)
      modifies this
      ensures likedComments == if hasLiked.Some? then LikedAfter(old(likedComments), id, hasLiked.value)
                               else old(likedComments)
      ensures choices == old(choices) && hasVoted == old(hasVoted) && submitDisabled == old(submitDisabled)
      ensures currentPage == old(currentPage) && loadMoreDisabled == old(loadMoreDisabled)
    {
      if hasLiked.Some? {
        if hasLiked.value {
          likedComments := likedComments + {id};
        } else {
          likedComments := likedComments - {id};
        }
      }
    }
  }

}
