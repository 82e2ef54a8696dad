/** Comments and their likes (comments/models.py). A like is the pair
    (comment, user); keeping likes in a set makes the `(comment, user)`
    uniqueness constraint hold by construction. */
module CommentModels {
  import opened Common
  import opened Users

  datatype Comment = Comment(
    id: nat,
    task: nat,
    author: UserId,
    content: string,
    parent: Option<nat>,
    createdAt: Time)

  datatype CommentLike = CommentLike(comment: nat, user: UserId)

  const ShortLimit: nat := 100
  const Ellipsis: string := "..."

  /** `Comment.short_content`: the content itself up to 100 characters,
      otherwise its first 100 characters followed by an ellipsis. */
  function ShortContent(content: string): (r: string)
    ensures |content| <= ShortLimit ==> r == content
    ensures |content| > ShortLimit ==> |r| == ShortLimit + |Ellipsis|
    ensures |content| > ShortLimit ==> r[..ShortLimit] == content[..ShortLimit] && r[ShortLimit..] == Ellipsis
    ensures |r| <= ShortLimit + |Ellipsis|
  {
    if |content| > ShortLimit then content[..ShortLimit] + Ellipsis else content
  }

  /** Shortening is idempotent: a shortened text of 103 characters shortens
      to itself, since its first 100 characters are the original's. */
  lemma ShortContentIdempotent(content: string)
    ensures ShortContent(ShortContent(content)) == ShortContent(content)
  {
    var s := ShortContent(content);
    if |content| > ShortLimit {
      assert s[..ShortLimit] == content[..ShortLimit];
      assert ShortContent(s) == s[..ShortLimit] + Ellipsis;
    }
  }

  /** Shortening keeps a prefix of the content: the two agree on their first
      `min(|content|, 100)` characters. */
  lemma ShortContentKeepsPrefix(content: string, k: nat)
    requires k <= |content| && k <= ShortLimit
    ensures ShortContent(content)[..k] == content[..k]
  {
    if |content| > ShortLimit {
      var s := ShortContent(content);
      assert s[..k] == s[..ShortLimit][..k];
    }
  }

  /** The users who like comment `c`. */
  function LikersOf(likes: set<CommentLike>, c: nat): set<UserId>
  {
    set l | l in likes && l.comment == c :: l.user
  }

  /** `Comment.like_count`: the number of likes of the comment. */
  function LikeCount(likes: set<CommentLike>, c: nat): (n: nat)
    ensures n == 0 <==> forall l :: l in likes ==> l.comment != c
  {
    var ls := LikersOf(likes, c);
    assert forall l :: l in likes && l.comment == c ==> l.user in ls;
    |ls|
  }

  /** Liking adds one to the count when the user had not liked the comment. */
  lemma LikeCountAfterAdd(likes: set<CommentLike>, c: nat, u: UserId)
    requires CommentLike(c, u) !in likes
    ensures LikeCount(likes + {CommentLike(c, u)}, c) == LikeCount(likes, c) + 1
  {
    assert LikersOf(likes + {CommentLike(c, u)}, c) == LikersOf(likes, c) + {u};
    assert u !in LikersOf(likes, c);
  }

  /** Unliking takes one off the count when the user had liked the comment. */
  lemma LikeCountAfterRemove(likes: set<CommentLike>, c: nat, u: UserId)
    requires CommentLike(c, u) in likes
    ensures LikeCount(likes - {CommentLike(c, u)}, c) + 1 == LikeCount(likes, c)
  {
    assert LikersOf(likes - {CommentLike(c, u)}, c) == LikersOf(likes, c) - {u};
    assert u in LikersOf(likes, c);
  }

  /** A like of another comment leaves this comment's count alone. */
  lemma LikeCountOtherComment(likes: set<CommentLike>, c: nat, l: CommentLike)
    requires l.comment != c
    ensures LikeCount(likes + {l}, c) == LikeCount(likes, c)
    ensures LikeCount(likes - {l}, c) == LikeCount(likes, c)
  {
    assert LikersOf(likes + {l}, c) == LikersOf(likes, c);
    assert LikersOf(likes - {l}, c) == LikersOf(likes, c);
  }

  /** The replies to comment `c`. */
  function RepliesTo(c: nat): Comment -> bool
  {
    (r: Comment) => r.parent == Some(c)
  }

  /** `Comment.has_replies`: some comment names `c` as its parent. */
  function HasReplies(comments: seq<Comment>, c: nat): (b: bool)
    ensures b <==> exists j :: 0 <= j < |comments| && comments[j].parent == Some(c)
    ensures b <==> CountWhere(comments, RepliesTo(c)) > 0
  {
    var first := FirstWhere(comments, RepliesTo(c));
    if first.Some? then
      assert RepliesTo(c)(comments[first.value]);
      true
    else
      false
  }

  /** The comment and like tables. Ids are distinct and below `nextId`, and
      a reply always has a larger id than its parent, since a parent must
      exist before it can be replied to. */
  class CommentStore {
    var comments: seq<Comment>
    var likes: set<CommentLike>
    var nextId: nat

    ghost predicate Valid()
      reads this
    {
      WellFormed(comments, nextId)
    }

    constructor ()
      ensures Valid() && comments == [] && likes == {} && nextId == 0
    {
      comments := [];
      likes := {};
      nextId := 0;
    }
  }

  /** Ids are distinct and below the next id, and parents come before
      their replies. */
  predicate WellFormed(comments: seq<Comment>, nextId: nat)
  {
    (forall i, j :: 0 <= i < j < |comments| ==> comments[i].id != comments[j].id) &&
    (forall i :: 0 <= i < |comments| ==> comments[i].id < nextId) &&
    ParentBeforeChild(comments)
  }

  /** Every reply's parent id is smaller than its own id. */
  predicate ParentBeforeChild(comments: seq<Comment>)
  {
    forall i :: 0 <= i < |comments| && comments[i].parent.Some? ==> comments[i].parent.value < comments[i].id
  }

  /** `Comment.objects.get(id=id)`: the position of the comment with that id. */
  function CommentIndex(comments: seq<Comment>, id: nat): (r: Option<nat>)
    ensures r.Some? ==> r.value < |comments| && comments[r.value].id == id
    ensures r.None? <==> forall j :: 0 <= j < |comments| ==> comments[j].id != id
  {
    FirstWhere(comments, (c: Comment) => c.id == id)
  }
}
