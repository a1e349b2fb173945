/** The Comment record. */
module CommentSchema {
  import opened Wrappers
  import VoteSchema

  const MaxContent: nat := 500
  const MaxNickname: nat := 20
  const DefaultNickname: string := "匿名用户"

  /** The location kept with a comment: country and city only. */
  datatype Place = Place(country: string, city: string)

  datatype Comment = Comment(
    id: nat,                   // the document id
    content: string,
    nickname: string,
    ip: string,
    ipInfo: Place,
    votes: VoteSchema.Snapshot, // the author's options when the comment was posted
    likes: int,
    likedBy: seq<string>,      // addresses
    timestamp: int             // milliseconds since the epoch
  )

  /** The fields handed to the model before it is saved; absent ones take their defaults. */
  datatype CommentDraft = CommentDraft(
    content: string,
    nickname: Option<string>,
    ip: string,
    ipInfo: Place,
    votes: VoteSchema.Snapshot,
    likes: Option<int>,
    likedBy: seq<string>,
    timestamp: Option<int>
  )

  /**
   * What the schema enforces of a stored comment: content present (not empty)
   * and at most 500 characters, nickname at most 20, address present.
   */
  predicate ValidComment(c: Comment) {
    c.content != "" && |c.content| <= MaxContent && |c.nickname| <= MaxNickname && c.ip != ""
  }

  /** Validation on save, with the defaults: nickname '匿名用户', likes 0, timestamp `now`. */
  function Create(d: CommentDraft, id: nat, now: int): (r: Result<Comment, string>)
    ensures r.Success? <==>
              d.content != "" && |d.content| <= MaxContent && d.ip != ""
              && |d.nickname.GetOr(DefaultNickname)| <= MaxNickname
    ensures r.Success? ==> ValidComment(r.value) && r.value.id == id
    ensures r.Success? ==> (r.value.content == d.content && r.value.ip == d.ip
                            && r.value.ipInfo == d.ipInfo && r.value.votes == d.votes
                            && r.value.likedBy == d.likedBy)
    ensures r.Success? ==> r.value.nickname == (if d.nickname.Some? then d.nickname.value else DefaultNickname)
    ensures r.Success? ==> r.value.likes == (if d.likes.Some? then d.likes.value else 0)
    ensures r.Success? ==> r.value.timestamp == (if d.timestamp.Some? then d.timestamp.value else now)
  {
    var nickname := d.nickname.GetOr(DefaultNickname);
    if d.content != "" && |d.content| <= MaxContent && d.ip != "" && |nickname| <= MaxNickname then
      Success(Comment(id, d.content, nickname, d.ip, d.ipInfo, d.votes, d.likes.GetOr(0),
                      d.likedBy, d.timestamp.GetOr(now)))
    else
      Failure("Comment validation failed")
  }

  /** The order of the descending timestamp index: newest first. */
  predicate NewestFirst(s: seq<Comment>) {
    forall i, j :: 0 <= i < j < |s| ==> s[i].timestamp >= s[j].timestamp
  }
}
