/**
 * The comment service: newest-first pages, posting with a snapshot of the
 * author's votes, the like toggle, and deletion.
 */
module CommentRoutes {
  import opened Wrappers
  import opened Text
  import opened CommentSchema
  import VoteSchema
  import VoteRoutes
  import IpCheck

  // ---------------------------------------------------------------------
  // Listing

  /** `parseInt(x) || d`: a missing, unparsable (NaN) or zero value takes the default. */
  function OrDefault(arg: Option<int>, d: int): int {
    if arg.None? || arg.value == 0 then d else arg.value
  }

  /** `Math.ceil(a / b)` for a count `a` and a non-zero integer `b`. */
  function CeilDiv(a: nat, b: int): (r: int)
    requires b != 0
    ensures b > 0 ==> (r - 1) * b < a <= r * b
    ensures b < 0 ==> r * b <= a < (r - 1) * b
    ensures b > 0 ==> r >= 0
  {
    if b > 0 then (a + b - 1) / b else -(a / -b)
  }

  lemma NewestFirstTail(s: seq<Comment>)
    requires NewestFirst(s) && s != []
    ensures NewestFirst(s[1..])
  {
    forall i, j | 0 <= i < j < |s| - 1 ensures s[1..][i].timestamp >= s[1..][j].timestamp {
      assert s[1..][i] == s[i + 1] && s[1..][j] == s[j + 1];
    }
  }

  lemma NewestFirstCons(x: Comment, t: seq<Comment>)
    requires NewestFirst(t)
    requires t != [] ==> x.timestamp >= t[0].timestamp
    ensures NewestFirst([x] + t)
  {
    var r := [x] + t;
    forall i, j | 0 <= i < j < |r| ensures r[i].timestamp >= r[j].timestamp {
      assert r[j] == t[j - 1];
      if i == 0 {
        assert t[0].timestamp >= t[j - 1].timestamp;
      } else {
        assert r[i] == t[i - 1];
      }
    }
  }

  /** Places `c` before the first comment that is strictly older. */
  function Insert(c: Comment, s: seq<Comment>): (r: seq<Comment>)
    requires NewestFirst(s)
    ensures NewestFirst(r)
    ensures multiset(r) == multiset(s) + multiset{c}
    ensures |r| == |s| + 1
    ensures r[0] == c || (s != [] && r[0] == s[0])
  {
    if s == [] || c.timestamp >= s[0].timestamp then
      NewestFirstCons(c, s);
      [c] + s
    else
      NewestFirstTail(s);
      var rest := Insert(c, s[1..]);
      assert s == [s[0]] + s[1..];
      assert |s| > 1 ==> s[0].timestamp >= s[1].timestamp;
      assert s[1..] != [] ==> s[1..][0] == s[1];
      NewestFirstCons(s[0], rest);
      [s[0]] + rest
  }

  /** The store sorted on timestamp, descending; comments of equal timestamp keep store order. */
  function SortNewestFirst(s: seq<Comment>): (r: seq<Comment>)
    ensures NewestFirst(r)
    ensures multiset(r) == multiset(s)
  {
    if s == [] then []
    else
      assert s == [s[0]] + s[1..];
      Insert(s[0], SortNewestFirst(s[1..]))
  }

  function Min(a: int, b: int): int { if a <= b then a else b }

  /** `.skip(skip).limit(n)` over an already sorted sequence. */
  function Window(s: seq<Comment>, skip: nat, n: nat): (r: seq<Comment>)
    ensures |r| == if skip >= |s| then 0 else Min(n, |s| - skip)
  {
    s[Min(skip, |s|)..Min(skip + n, |s|)]
  }

  /** The k-th comment of a window is the (skip+k)-th of the sequence. */
  lemma WindowAt(s: seq<Comment>, skip: nat, n: nat)
    ensures forall k :: 0 <= k < |Window(s, skip, n)| ==> Window(s, skip, n)[k] == s[skip + k]
  {
  }

  datatype Pagination = Pagination(page: int, limit: int, total: nat, pages: int)
  datatype Listing = Listing(comments: seq<Comment>, pagination: Pagination)

  /**
   * `GET /comments`: page and limit default to 1 and 20; the store refuses a
   * negative skip, and a negative limit returns at most |limit| comments.
   */
  function List(store: seq<Comment>, pageArg: Option<int>, limitArg: Option<int>): Result<Listing, ApiError> {
    var page := OrDefault(pageArg, 1);
    var limit := OrDefault(limitArg, 20);
    var skip := (page - 1) * limit;
    if skip < 0 then Failure(ServerError("skip must be non-negative"))
    else
      var n := if limit < 0 then -limit else limit;
      Success(Listing(Window(SortNewestFirst(store), skip, n),
                      Pagination(page, limit, |store|, CeilDiv(|store|, limit))))
  }

  /** Sorting keeps exactly the comments of the store. */
  lemma SortKeepsComments(store: seq<Comment>)
    ensures |SortNewestFirst(store)| == |store|
    ensures forall c :: c in SortNewestFirst(store) <==> c in store
  {
    var sorted := SortNewestFirst(store);
    assert |multiset(sorted)| == |multiset(store)|;
    forall c ensures c in sorted <==> c in store {
      assert c in sorted <==> c in multiset(sorted);
      assert c in store <==> c in multiset(store);
    }
  }

  lemma WindowOfSorted(sorted: seq<Comment>, skip: nat, n: nat)
    requires NewestFirst(sorted)
    ensures NewestFirst(Window(sorted, skip, n))
    ensures forall c :: c in Window(sorted, skip, n) ==> c in sorted
  {
    var w := Window(sorted, skip, n);
    WindowAt(sorted, skip, n);
    forall i, j | 0 <= i < j < |w| ensures w[i].timestamp >= w[j].timestamp {
      assert w[i] == sorted[skip + i] && w[j] == sorted[skip + j];
    }
    forall c | c in w ensures c in sorted {
      var k :| 0 <= k < |w| && w[k] == c;
      assert sorted[skip + k] == c;
    }
  }

  /**
   * For a page and limit of at least 1 the listing succeeds and shows the
   * sorted store after (page-1)*limit comments, at most limit of them.
   */
  lemma ListIsWindowOfSorted(store: seq<Comment>, page: int, limit: int)
    requires page >= 1 && limit >= 1
    ensures (page - 1) * limit >= 0
    ensures List(store, Some(page), Some(limit)).Success?
    ensures List(store, Some(page), Some(limit)).value.comments
         == Window(SortNewestFirst(store), (page - 1) * limit, limit)
  {
    assert (page - 1) * limit >= 0 by { assert page - 1 >= 0; }
  }

  /**
   * Any window of the sorted store is newest first, has the expected length,
   * holds the sorted comments from position skip on, and only stored comments.
   */
  lemma WindowOfSortedStore(store: seq<Comment>, skip: nat, n: nat)
    ensures var w := Window(SortNewestFirst(store), skip, n);
            && NewestFirst(w)
            && |w| == (if skip >= |store| then 0 else Min(n, |store| - skip))
            && (forall k :: 0 <= k < |w| ==> w[k] == SortNewestFirst(store)[skip + k])
            && (forall c :: c in w ==> c in store)
  {
    var sorted := SortNewestFirst(store);
    SortKeepsComments(store);
    WindowOfSorted(sorted, skip, n);
    WindowAt(sorted, skip, n);
  }

  /** Missing, unparsable or zero arguments mean page 1 of 20. */
  lemma MissingArgumentsMeanFirstPageOfTwenty(store: seq<Comment>, pageArg: Option<int>, limitArg: Option<int>)
    requires pageArg.None? || pageArg == Some(0)
    requires limitArg.None? || limitArg == Some(0)
    ensures List(store, pageArg, limitArg) == List(store, Some(1), Some(20))
  {
  }

  /** A page below 1 asks the store for a negative skip, which it refuses. */
  lemma PageBelowOneFails(store: seq<Comment>, page: int, limit: int)
    requires page < 0 && limit >= 1
    ensures List(store, Some(page), Some(limit)).Failure?
  {
    assert (page - 1) * limit < 0 by { assert page - 1 < 0; }
  }

  /** With a positive limit, `pages` is the number of pages that hold a comment. */
  lemma PagesCountNonEmptyPages(store: seq<Comment>, page: int, limit: int)
    requires page >= 1 && limit >= 1
    ensures var p := List(store, Some(page), Some(limit)).value.pagination.pages;
            && p >= 0
            && (p - 1) * limit < |store| <= p * limit
  {
    assert (page - 1) * limit >= 0 by { assert page - 1 >= 0; }
  }

  /** The first k pages, one after the other. */
  function PagesUpTo(sorted: seq<Comment>, limit: nat, k: nat): seq<Comment> {
    if k == 0 then [] else PagesUpTo(sorted, limit, k - 1) + Window(sorted, (k - 1) * limit, limit)
  }

  lemma {:induction false} PagesUpToIsPrefix(sorted: seq<Comment>, limit: nat, k: nat)
    ensures PagesUpTo(sorted, limit, k) == sorted[..Min(k * limit, |sorted|)]
  {
    if k > 0 {
      PagesUpToIsPrefix(sorted, limit, k - 1);
      var lo := (k - 1) * limit;
      var hi := k * limit;
      assert hi == lo + limit;
      var a := Min(lo, |sorted|);
      var b := Min(hi, |sorted|);
      assert Window(sorted, lo, limit) == sorted[a..b];
      assert sorted[..b] == sorted[..a] + sorted[a..b];
    }
  }

  /** The pagination block: the page and limit as read, the store size, and `Math.ceil(total / limit)`. */
  lemma ListPagination(store: seq<Comment>, page: int, limit: int)
    requires page >= 1 && limit >= 1
    ensures List(store, Some(page), Some(limit)).Success?
    ensures List(store, Some(page), Some(limit)).value.pagination
         == Pagination(page, limit, |store|, CeilDiv(|store|, limit))
  {
    assert (page - 1) * limit >= 0 by { assert page - 1 >= 0; }
  }

  /** Reading pages 1 to `pages` in turn gives every comment exactly once, newest first. */
  lemma AllPagesCoverTheStore(store: seq<Comment>, limit: int)
    requires limit >= 1
    ensures PagesUpTo(SortNewestFirst(store), limit, CeilDiv(|store|, limit)) == SortNewestFirst(store)
  {
    var p := CeilDiv(|store|, limit);
    var sorted := SortNewestFirst(store);
    PagesUpToIsPrefix(sorted, limit, p);
    SortKeepsComments(store);
    assert Min(p * limit, |sorted|) == |sorted|;
  }

  /** 45 comments, 20 per page: three pages, of 20, 20 and 5 comments. */
  lemma FortyFiveCommentsMakeThreePages(store: seq<Comment>)
    requires |store| == 45
    ensures List(store, Some(1), Some(20)).value.pagination.pages == 3
    ensures |List(store, Some(1), Some(20)).value.comments| == 20
    ensures |List(store, Some(2), Some(20)).value.comments| == 20
    ensures |List(store, Some(3), Some(20)).value.comments| == 5
    ensures |List(store, Some(4), Some(20)).value.comments| == 0
  {
    SortKeepsComments(store);
  }

  // ---------------------------------------------------------------------
  // Posting

  /** A field of the JSON request body. */
  datatype BodyField =
    | Absent                 // undefined or null
    | Str(s: string)
    | NonString(truthy: bool) // a number, boolean, array or object

  const MsgEmpty: string := "评论内容不能为空"
  const MsgTooLong: string := "评论内容过长"

  /**
   * `POST /comments` as a function: the empty check is on the trimmed content,
   * the length check on the content as sent; the stored content and nickname
   * are trimmed; `snapshot` is the author's current vote per question.
   * `.trim()` on a value that is not a string throws, which answers 500.
   */
  function CreateComment(content: BodyField, nickname: BodyField, ip: string, info: IpCheck.IpInfo,
                         snapshot: VoteSchema.Snapshot, id: nat, now: int): (r: Result<Comment, ApiError>)
    ensures r.Failure? ==> r.error.BadRequest? || r.error.ServerError?
    ensures (r.Failure? && r.error.BadRequest?)
        <==> || content.Absent? || (content.NonString? && !content.truthy)
             || (content.Str? && (Trim(content.s) == "" || |content.s| > MaxContent))
  {
    if content.Absent? || (content.NonString? && !content.truthy) then Failure(BadRequest(MsgEmpty))
    else if content.NonString? then Failure(ServerError("content.trim is not a function"))
    else if Trim(content.s) == "" then Failure(BadRequest(MsgEmpty))
    else if |content.s| > MaxContent then Failure(BadRequest(MsgTooLong))
    else if nickname.NonString? then Failure(ServerError("nickname.trim is not a function"))
    else
      var nick := if nickname.Str? && Trim(nickname.s) != "" then Trim(nickname.s) else DefaultNickname;
      var draft := CommentDraft(Trim(content.s), Some(nick), ip, Place(info.country, info.city),
                                snapshot, None, [], None);
      match Create(draft, id, now)
      case Success(c) => Success(c)
      case Failure(e) => Failure(ServerError(e))
  }

  /** The nickname a request ends up with: trimmed, or the default when absent or blank. */
  function NicknameOf(nickname: BodyField): string {
    if nickname.Str? && Trim(nickname.s) != "" then Trim(nickname.s) else DefaultNickname
  }

  /**
   * Exactly when a comment is created: string content, not blank, at most 500
   * characters as sent; a string or absent nickname of at most 20 characters
   * once trimmed; and an address.
   */
  lemma CreateSucceedsIff(content: BodyField, nickname: BodyField, ip: string, info: IpCheck.IpInfo,
                          snapshot: VoteSchema.Snapshot, id: nat, now: int)
    ensures CreateComment(content, nickname, ip, info, snapshot, id, now).Success?
        <==> && content.Str? && Trim(content.s) != "" && |content.s| <= MaxContent
             && !nickname.NonString? && |NicknameOf(nickname)| <= MaxNickname
             && ip != ""
  {
  }

  /** What a created comment holds: trimmed content, the nickname rule, no likes, the vote snapshot, the time. */
  lemma CreatedCommentContents(content: BodyField, nickname: BodyField, ip: string, info: IpCheck.IpInfo,
                               snapshot: VoteSchema.Snapshot, id: nat, now: int)
    requires CreateComment(content, nickname, ip, info, snapshot, id, now).Success?
    ensures var c := CreateComment(content, nickname, ip, info, snapshot, id, now).value;
            && c.id == id
            && c.content == Trim(content.s) && c.nickname == NicknameOf(nickname)
            && c.ip == ip && c.ipInfo == Place(info.country, info.city)
            && c.votes == snapshot
            && c.likes == 0 && c.likedBy == [] && c.timestamp == now
            && ValidComment(c) && LikesConsistent(c)
  {
    var draft := CommentDraft(Trim(content.s), Some(NicknameOf(nickname)), ip, Place(info.country, info.city),
                              snapshot, None, [], None);
    var made := Create(draft, id, now);
    assert CreateComment(content, nickname, ip, info, snapshot, id, now) == Success(made.value);
    assert made.value.likes == 0 && made.value.timestamp == now;
  }

  /** Content of 500 characters is accepted, of 501 refused (nickname absent, address present). */
  lemma ContentLengthBoundary(s: string, ip: string, info: IpCheck.IpInfo, snapshot: VoteSchema.Snapshot,
                              id: nat, now: int)
    requires !AllSpace(s) && ip != ""
    ensures |s| == 500 ==> CreateComment(Str(s), Absent, ip, info, snapshot, id, now).Success?
    ensures |s| == 501 ==> CreateComment(Str(s), Absent, ip, info, snapshot, id, now) == Failure(BadRequest(MsgTooLong))
  {
    CreateSucceedsIff(Str(s), Absent, ip, info, snapshot, id, now);
    assert Trim(s) != "";
  }

  lemma TrimOfLetter()
    ensures Trim("a") == "a"
  {
    assert TrimStart("a") == "a";
    assert TrimEnd("a") == "a";
  }

  /** Content that is not blank but over 500 characters as sent gets the too-long answer. */
  lemma TooLongIsRefused(s: string, nickname: BodyField, ip: string, info: IpCheck.IpInfo,
                         snapshot: VoteSchema.Snapshot, id: nat, now: int)
    requires Trim(s) != "" && |s| > MaxContent
    ensures CreateComment(Str(s), nickname, ip, info, snapshot, id, now) == Failure(BadRequest(MsgTooLong))
  {
  }

  /** Trailing spaces count against the limit although they are trimmed away before storing. */
  lemma PaddingCountsAgainstLimit(t: string, w: string, ip: string, info: IpCheck.IpInfo,
                                  snapshot: VoteSchema.Snapshot, id: nat, now: int)
    requires AllSpace(w) && !AllSpace(t) && |t + w| > MaxContent
    ensures Trim(t + w) == Trim(t)
    ensures CreateComment(Str(t + w), Absent, ip, info, snapshot, id, now) == Failure(BadRequest(MsgTooLong))
  {
    TrimDropsTrailingSpace(t, w);
    TooLongIsRefused(t + w, Absent, ip, info, snapshot, id, now);
  }

  /** For instance "a" and 500 spaces is refused though it trims to "a". */
  lemma UntrimmedLengthIsChecked(ip: string, info: IpCheck.IpInfo, snapshot: VoteSchema.Snapshot, id: nat, now: int)
    ensures var s := "a" + seq(500, _ => ' ');
            && Trim(s) == "a"
            && CreateComment(Str(s), Absent, ip, info, snapshot, id, now) == Failure(BadRequest(MsgTooLong))
  {
    var w: string := seq(500, _ => ' ');
    assert AllSpace(w) by {
      assert forall i :: 0 <= i < |w| ==> w[i] == ' ';
    }
    assert !AllSpace("a") by { assert !IsJsSpace("a"[0]); }
    TrimOfLetter();
    PaddingCountsAgainstLimit("a", w, ip, info, snapshot, id, now);
  }

  // ---------------------------------------------------------------------
  // Likes

  predicate NoDup(s: seq<string>) {
    forall i, j :: 0 <= i < j < |s| ==> s[i] != s[j]
  }

  /** The like counter is the number of distinct likers. */
  predicate LikesConsistent(c: Comment) {
    c.likes == |c.likedBy| && NoDup(c.likedBy)
  }

  /** `likedBy.filter(x => x !== ip)`. */
  function RemoveAll(s: seq<string>, ip: string): (r: seq<string>)
    ensures ip !in r
    ensures forall x :: x != ip ==> (x in r <==> x in s)
    ensures |r| == |s| - multiset(s)[ip]
    ensures NoDup(s) ==> NoDup(r)
  {
    if s == [] then []
    else
      var rest := RemoveAll(s[1..], ip);
      assert s == [s[0]] + s[1..];
      if s[0] == ip then rest
      else
        assert NoDup(s) ==> s[0] !in s[1..];
        [s[0]] + rest
  }

  lemma NoDupCount(s: seq<string>, x: string)
    requires NoDup(s)
    ensures multiset(s)[x] == if x in s then 1 else 0
  {
    if s != [] {
      assert s == [s[0]] + s[1..];
      assert NoDup(s[1..]) by {
        forall i, j | 0 <= i < j < |s[1..]| ensures s[1..][i] != s[1..][j] {
          assert s[1..][i] == s[i + 1] && s[1..][j] == s[j + 1];
        }
      }
      NoDupCount(s[1..], x);
      assert s[0] !in s[1..];
    }
  }

  datatype LikeReply = LikeReply(likes: int, hasLiked: bool)

  /** The toggle on one comment: the comment afterwards and the `hasLiked` reported. */
  function Toggle(c: Comment, ip: string): (Comment, bool) {
    if ip in c.likedBy then
      (c.(likedBy := RemoveAll(c.likedBy, ip), likes := if c.likes - 1 > 0 then c.likes - 1 else 0), false)
    else
      (c.(likedBy := c.likedBy + [ip], likes := c.likes + 1), true)
  }

  /**
   * The toggle flips the caller's membership and reports the new state; no
   * other address's membership and no other field changes.
   */
  lemma ToggleFlipsOnlyTheCaller(c: Comment, ip: string)
    ensures var (c', hasLiked) := Toggle(c, ip);
            && hasLiked == (ip !in c.likedBy)
            && (ip in c'.likedBy <==> hasLiked)
            && (forall x :: x != ip ==> (x in c'.likedBy <==> x in c.likedBy))
            && c'.likes == (if hasLiked then c.likes + 1 else if c.likes > 1 then c.likes - 1 else 0)
            && c' == c.(likes := c'.likes, likedBy := c'.likedBy)
  {
  }

  /** The counter keeps matching the distinct likers. */
  lemma ToggleKeepsLikesConsistent(c: Comment, ip: string)
    requires LikesConsistent(c)
    ensures LikesConsistent(Toggle(c, ip).0)
  {
    NoDupCount(c.likedBy, ip);
    if ip !in c.likedBy {
      var s := c.likedBy + [ip];
      forall i, j | 0 <= i < j < |s| ensures s[i] != s[j] {
        if j == |s| - 1 { assert s[i] in c.likedBy; }
      }
    }
  }

  /** Toggling twice restores the counter and every address's membership; from "not liked" it restores the list itself. */
  lemma ToggleTwiceRestores(c: Comment, ip: string)
    requires LikesConsistent(c)
    ensures var c2 := Toggle(Toggle(c, ip).0, ip).0;
            && c2.likes == c.likes
            && (forall x :: x in c2.likedBy <==> x in c.likedBy)
            && multiset(c2.likedBy) == multiset(c.likedBy)
            && (ip !in c.likedBy ==> c2 == c)
  {
    if ip in c.likedBy {
      UnlikeThenLike(c, ip);
    } else {
      LikeThenUnlike(c, ip);
    }
  }

  lemma UnlikeThenLike(c: Comment, ip: string)
    requires LikesConsistent(c) && ip in c.likedBy
    ensures var c2 := Toggle(Toggle(c, ip).0, ip).0;
            && c2.likes == c.likes
            && multiset(c2.likedBy) == multiset(c.likedBy)
            && (forall x :: x in c2.likedBy <==> x in c.likedBy)
  {
    NoDupCount(c.likedBy, ip);
    var r := RemoveAll(c.likedBy, ip);
    RemoveAllMultiset(c.likedBy, ip);
    assert multiset(r + [ip]) == multiset(c.likedBy) by {
      assert multiset(r + [ip]) == multiset(r) + multiset{ip};
      forall x ensures multiset(r + [ip])[x] == multiset(c.likedBy)[x] {
      }
    }
    var c2 := Toggle(Toggle(c, ip).0, ip).0;
    assert c2.likedBy == r + [ip];
    forall x ensures x in c2.likedBy <==> x in c.likedBy {
      assert x in c2.likedBy <==> x in multiset(c2.likedBy);
      assert x in c.likedBy <==> x in multiset(c.likedBy);
    }
  }

  lemma LikeThenUnlike(c: Comment, ip: string)
    requires LikesConsistent(c) && ip !in c.likedBy
    ensures Toggle(Toggle(c, ip).0, ip).0 == c
  {
    RemoveAllAbsent(c.likedBy, ip);
    RemoveAllAppend(c.likedBy, [ip], ip);
    assert RemoveAll([ip], ip) == [];
    assert RemoveAll(c.likedBy + [ip], ip) == c.likedBy;
  }

  lemma {:induction false} RemoveAllMultiset(s: seq<string>, ip: string)
    ensures forall x :: multiset(RemoveAll(s, ip))[x] == if x == ip then 0 else multiset(s)[x]
  {
    if s != [] {
      RemoveAllMultiset(s[1..], ip);
      var rest := RemoveAll(s[1..], ip);
      assert s == [s[0]] + s[1..];
      assert multiset(s) == multiset{s[0]} + multiset(s[1..]);
      if s[0] != ip {
        assert RemoveAll(s, ip) == [s[0]] + rest;
        assert multiset(RemoveAll(s, ip)) == multiset{s[0]} + multiset(rest);
      }
    }
  }

  lemma {:induction false} RemoveAllAbsent(s: seq<string>, ip: string)
    requires ip !in s
    ensures RemoveAll(s, ip) == s
  {
    if s != [] {
      RemoveAllAbsent(s[1..], ip);
    }
  }

  lemma {:induction false} RemoveAllAppend(a: seq<string>, b: seq<string>, ip: string)
    ensures RemoveAll(a + b, ip) == RemoveAll(a, ip) + RemoveAll(b, ip)
  {
    if a == [] {
      assert a + b == b;
    } else {
      assert (a + b)[1..] == a[1..] + b;
      RemoveAllAppend(a[1..], b, ip);
    }
  }

  // ---------------------------------------------------------------------
  // The collection

  /** The broadcast events of the comment service. */
  datatype CommentEvent =
    | NewComment(comment: Comment)
    | CommentLike(commentId: nat, likes: int)
    | CommentDeleted(commentId: nat)

  predicate UniqueIds(s: seq<Comment>) {
    forall i, j :: 0 <= i < j < |s| ==> s[i].id != s[j].id
  }

  /** `findById`: the position of the comment with `id`. */
  function IndexOf(s: seq<Comment>, id: nat): (k: Option<nat>)
    ensures k.Some? ==> k.value < |s| && s[k.value].id == id
    ensures k.None? ==> forall c :: c in s ==> c.id != id
  {
    if s == [] then None
    else if s[0].id == id then Some(0)
    else match IndexOf(s[1..], id)
      case None => None
      case Some(k) => Some(k + 1)
  }

  /** `findByIdAndDelete`. */
  function RemoveId(s: seq<Comment>, id: nat): (r: seq<Comment>)
    ensures forall c :: c in r <==> c in s && c.id != id
  {
    if s == [] then []
    else (if s[0].id == id then [] else [s[0]]) + RemoveId(s[1..], id)
  }

  /** Every comment passed the schema, its counter matches its likers, and ids are below `nextId` and distinct. */
  predicate StoreInvariant(s: seq<Comment>, nextId: nat) {
    && (forall c :: c in s ==> ValidComment(c) && LikesConsistent(c) && c.id < nextId)
    && UniqueIds(s)
  }

  class CommentStore {
    var comments: seq<Comment>
    var nextId: nat

    /** Every comment passed the schema, its counter matches its likers, and ids are fresh and distinct. */
    ghost predicate Valid()
      reads this
    {
      StoreInvariant(comments, nextId)
    }

    constructor ()
      ensures Valid() && comments == []
    {
      comments := [];
      nextId := 0;
    }

    /** `POST /comments`; `votes` is the vote collection the snapshot is read from. */
    method Create(content: BodyField, nickname: BodyField, ip: string, info: IpCheck.IpInfo,
                  votes: seq<VoteSchema.Vote>, now: int)
      returns (r: Result<Comment, ApiError>, event: Option<CommentEvent>)
      requires Valid()
      modifies this
      ensures Valid()
      ensures r == CreateComment(content, nickname, ip, info, VoteRoutes.CurrentVotes(votes, ip), old(nextId), now)
      ensures comments == if r.Success? then old(comments) + [r.value] else old(comments)
      ensures event == if r.Success? then Some(NewComment(r.value)) else None
    {
      var snapshot := VoteRoutes.CurrentVotes(votes, ip);
      r := CreateComment(content, nickname, ip, info, snapshot, nextId, now);
      if r.Success? {
        CreatedCommentContents(content, nickname, ip, info, snapshot, nextId, now);
        AppendKeepsInvariant(comments, nextId, r.value);
        comments := comments + [r.value];
        nextId := nextId + 1;
        event := Some(NewComment(r.value));
      } else {
        event := None;
      }
    }

    /**
     * `POST /comments/:id/like`: 404 when there is no such comment; otherwise
     * the comment's likers and counter are updated in place and saved.
     */
    method ToggleLike(id: nat, ip: string) returns (r: Result<LikeReply, ApiError>, event: Option<CommentEvent>)
      requires Valid()
      modifies this
      ensures Valid() && nextId == old(nextId)
      ensures IndexOf(old(comments), id).None? ==>
                r == Failure(NotFound("评论不存在")) && event == None && comments == old(comments)
      ensures IndexOf(old(comments), id).Some? ==>
                var i := IndexOf(old(comments), id).value;
                var (c', hasLiked) := Toggle(old(comments)[i], ip);
                && comments == old(comments)[i := c']
                && r == Success(LikeReply(c'.likes, hasLiked))
                && event == Some(CommentLike(id, c'.likes))
    {
      var found := IndexOf(comments, id);
      if found.None? {
        return Failure(NotFound("评论不存在")), None;
      }
      var i := found.value;
      var c := comments[i];
      var hasLiked := ip in c.likedBy;
      if hasLiked {
        c := c.(likedBy := RemoveAll(c.likedBy, ip));
        c := c.(likes := if c.likes - 1 > 0 then c.likes - 1 else 0);
      } else {
        c := c.(likedBy := c.likedBy + [ip]);
        c := c.(likes := c.likes + 1);
      }
      assert c == Toggle(comments[i], ip).0;
      ToggleKeepsInvariant(comments, nextId, i, ip);
      comments := comments[i := c];
      r := Success(LikeReply(c.likes, !hasLiked));
      event := Some(CommentLike(id, c.likes));
    }

    /** `DELETE /comments/:id`: removes the comment if there is one, and announces the id either way. */
    method Delete(id: nat) returns (event: CommentEvent)
      requires Valid()
      modifies this
      ensures Valid() && nextId == old(nextId)
      ensures comments == RemoveId(old(comments), id)
      ensures event == CommentDeleted(id)
    {
      RemoveIdKeepsInvariant(comments, nextId, id);
      comments := RemoveId(comments, id);
      event := CommentDeleted(id);
    }
  }

  lemma ToggleKeepsInvariant(s: seq<Comment>, nextId: nat, i: nat, ip: string)
    requires StoreInvariant(s, nextId) && i < |s|
    ensures StoreInvariant(s[i := Toggle(s[i], ip).0], nextId)
  {
    var t := s[i := Toggle(s[i], ip).0];
    ToggleKeepsLikesConsistent(s[i], ip);
    assert forall k :: 0 <= k < |t| ==> t[k].id == s[k].id;
    forall c | c in t ensures ValidComment(c) && LikesConsistent(c) && c.id < nextId {
      var k :| 0 <= k < |t| && t[k] == c;
      assert s[k] in s;
    }
  }

  lemma RemoveIdKeepsInvariant(s: seq<Comment>, nextId: nat, id: nat)
    requires StoreInvariant(s, nextId)
    ensures StoreInvariant(RemoveId(s, id), nextId)
  {
    RemoveIdKeepsUnique(s, id);
  }

  lemma AppendKeepsInvariant(s: seq<Comment>, nextId: nat, c: Comment)
    requires StoreInvariant(s, nextId)
    requires ValidComment(c) && LikesConsistent(c) && c.id == nextId
    ensures StoreInvariant(s + [c], nextId + 1)
  {
    AppendFreshId(s, c);
  }

  lemma AppendFreshId(s: seq<Comment>, c: Comment)
    requires UniqueIds(s) && forall x :: x in s ==> x.id < c.id
    ensures UniqueIds(s + [c])
  {
    var r := s + [c];
    forall i, j | 0 <= i < j < |r| ensures r[i].id != r[j].id {
      assert r[i] == s[i];
      if j < |s| {
        assert r[j] == s[j];
      } else {
        assert s[i] in s;
      }
    }
  }

  lemma {:induction false} RemoveIdKeepsUnique(s: seq<Comment>, id: nat)
    requires UniqueIds(s)
    ensures UniqueIds(RemoveId(s, id))
  {
    if s != [] {
      var tail := s[1..];
      assert UniqueIds(tail) by {
        forall i, j | 0 <= i < j < |tail| ensures tail[i].id != tail[j].id {
          assert tail[i] == s[i + 1] && tail[j] == s[j + 1];
        }
      }
      RemoveIdKeepsUnique(tail, id);
      var rest := RemoveId(tail, id);
      if s[0].id != id {
        var r := [s[0]] + rest;
        forall i, j | 0 <= i < j < |r| ensures r[i].id != r[j].id {
          if i == 0 {
            assert r[j] in tail;
            var k :| 0 <= k < |tail| && tail[k] == r[j];
            assert s[k + 1] == r[j];
          } else {
            assert r[i] == rest[i - 1] && r[j] == rest[j - 1];
          }
        }
      }
    }
  }

  /** Deleting removes exactly the comment with that id, and a missing id changes nothing. */
  lemma DeleteRemovesOnlyThatComment(s: seq<Comment>, id: nat)
    ensures forall c :: c in RemoveId(s, id) <==> c in s && c.id != id
    ensures IndexOf(s, id).None? ==> RemoveId(s, id) == s
  {
    if IndexOf(s, id).None? {
      RemoveIdAbsent(s, id);
    }
  }

  lemma {:induction false} RemoveIdAbsent(s: seq<Comment>, id: nat)
    requires forall c :: c in s ==> c.id != id
    ensures RemoveId(s, id) == s
  {
    if s != [] {
      RemoveIdAbsent(s[1..], id);
    }
  }
}
